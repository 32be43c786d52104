/** Sequence facts shared by the crawlers: concatenation of per-page
    results and distinctness. */
module Seqs {

  /** `xs[0] + xs[1] + ...`, as `list.extend` builds it. */
  function Concat<T>(xs: seq<seq<T>>): seq<T> {
    if xs == [] then [] else Concat(xs[..|xs| - 1]) + xs[|xs| - 1]
  }

  /** `|xs[0]| + |xs[1]| + ...`. */
  function SumLengths<T>(xs: seq<seq<T>>): nat {
    if xs == [] then 0 else SumLengths(xs[..|xs| - 1]) + |xs[|xs| - 1]|
  }

  lemma {:induction false} ConcatLength<T>(xs: seq<seq<T>>)
    ensures |Concat(xs)| == SumLengths(xs)
  {
    if xs != [] {
      ConcatLength(xs[..|xs| - 1]);
    }
  }

  lemma {:induction false} ConcatAppend<T>(xs: seq<seq<T>>, x: seq<T>)
    ensures Concat(xs + [x]) == Concat(xs) + x
    ensures SumLengths(xs + [x]) == SumLengths(xs) + |x|
  {
    assert (xs + [x])[..|xs|] == xs;
  }

  /** A shorter prefix of the parts gives a prefix of the concatenation. */
  lemma {:induction false} ConcatPrefix<T>(xs: seq<seq<T>>, i: nat)
    requires i <= |xs|
    ensures Concat(xs[..i]) <= Concat(xs)
    ensures SumLengths(xs[..i]) <= SumLengths(xs)
    decreases |xs| - i
  {
    if i < |xs| {
      var init := xs[..|xs| - 1];
      ConcatPrefix(init, i);
      assert init[..i] == xs[..i];
      var a, b := Concat(init), xs[|xs| - 1];
      assert Concat(xs) == a + b;
      assert a <= a + b;
    } else {
      assert xs[..i] == xs;
    }
  }

  /** Part `i` appears, unchanged, right after the parts before it. */
  lemma ConcatSlice<T>(xs: seq<seq<T>>, i: nat)
    requires i < |xs|
    ensures SumLengths(xs[..i]) + |xs[i]| == SumLengths(xs[..i + 1]) <= |Concat(xs)|
    ensures Concat(xs)[SumLengths(xs[..i])..SumLengths(xs[..i + 1])] == xs[i]
  {
    ConcatLength(xs);
    ConcatLength(xs[..i]);
    ConcatPrefix(xs, i + 1);
    var pre := xs[..i + 1];
    assert pre[..i] == xs[..i];
    assert Concat(pre) == Concat(xs[..i]) + xs[i];
    ConcatLength(pre);
    var c := Concat(xs);
    assert c[..|Concat(pre)|] == Concat(pre);
  }

  /** `[f(1), f(2), ..., f(k)]`. */
  function Tabulate<T>(f: nat -> T, k: nat): (xs: seq<T>)
    ensures |xs| == k
  {
    if k == 0 then [] else Tabulate(f, k - 1) + [f(k)]
  }

  lemma {:induction false} TabulateAt<T>(f: nat -> T, k: nat, i: nat)
    requires i < k
    ensures Tabulate(f, k)[i] == f(i + 1)
    ensures Tabulate(f, k)[..i] == Tabulate(f, i)
  {
    if i < k - 1 {
      TabulateAt(f, k - 1, i);
      assert Tabulate(f, k)[..i] == Tabulate(f, k - 1)[..i];
    } else {
      assert Tabulate(f, k)[..i] == Tabulate(f, k - 1);
    }
  }

  /** `f(0) + f(1) + ... + f(n - 1)`: the parts of positions 0 to n - 1. */
  function Gather<T>(f: nat -> seq<T>, n: nat): seq<T> {
    if n == 0 then [] else Gather(f, n - 1) + f(n - 1)
  }

  lemma GatherAppend<T>(f: nat -> seq<T>, n: nat)
    ensures Gather(f, n + 1) == Gather(f, n) + f(n)
  {
  }

  lemma {:induction false} GatherMembers<T>(f: nat -> seq<T>, n: nat, x: T)
    ensures x in Gather(f, n) <==> exists i :: 0 <= i < n && x in f(i)
  {
    if n > 0 {
      GatherMembers(f, n - 1, x);
    }
  }

  /** Parts are only ever appended. */
  lemma {:induction false} GatherPrefix<T>(f: nat -> seq<T>, m: nat, n: nat)
    requires m <= n
    ensures Gather(f, m) <= Gather(f, n)
    decreases n - m
  {
    if m < n {
      GatherPrefix(f, m, n - 1);
      var a, b := Gather(f, n - 1), f(n - 1);
      assert a <= a + b;
    }
  }

  /** How many of `0 .. n - 1` satisfy `p`. */
  function Count(p: nat -> bool, n: nat): nat {
    if n == 0 then 0 else Count(p, n - 1) + (if p(n - 1) then 1 else 0)
  }

  /** Parts of at most one element, non-empty only where `p` holds, gather
      to at most `Count(p, n)` elements; exactly that many when each part
      has one element exactly where `p` holds. */
  lemma {:induction false} GatherCount<T>(f: nat -> seq<T>, p: nat -> bool, n: nat)
    requires forall i :: 0 <= i < n ==> |f(i)| <= (if p(i) then 1 else 0)
    ensures |Gather(f, n)| <= Count(p, n)
    ensures (forall i :: 0 <= i < n ==> |f(i)| == (if p(i) then 1 else 0)) ==> |Gather(f, n)| == Count(p, n)
  {
    if n > 0 {
      GatherCount(f, p, n - 1);
    }
  }

  lemma AppendAssoc<T>(a: seq<T>, b: seq<T>, c: seq<T>)
    ensures (a + b) + c == a + (b + c)
  {
  }

  /** `[f(x) for x in xs]`. */
  function Map<A, B>(f: A -> B, xs: seq<A>): (ys: seq<B>)
    ensures |ys| == |xs|
  {
    seq(|xs|, i requires 0 <= i < |xs| => f(xs[i]))
  }

  /** Element `k` of the map is `f` of element `k`. */
  lemma MapAt<A, B>(f: A -> B, xs: seq<A>, k: nat)
    requires k < |xs|
    ensures Map(f, xs)[k] == f(xs[k])
  {
  }

  /** Mapping one more element appends its image. */
  lemma MapStep<A, B>(f: A -> B, xs: seq<A>, k: nat)
    requires k < |xs|
    ensures Map(f, xs[..k + 1]) == Map(f, xs[..k]) + [f(xs[k])]
  {
    var l, r := Map(f, xs[..k + 1]), Map(f, xs[..k]) + [f(xs[k])];
    forall j | 0 <= j < |l| ensures l[j] == r[j] {
      assert xs[..k + 1][j] == xs[j];
    }
  }

  /** Mapping two sequences one after the other. */
  lemma MapAppend<A, B>(f: A -> B, xs: seq<A>, ys: seq<A>)
    ensures Map(f, xs + ys) == Map(f, xs) + Map(f, ys)
  {
    var l, r := Map(f, xs + ys), Map(f, xs) + Map(f, ys);
    forall k | 0 <= k < |l| ensures l[k] == r[k] {
      if k < |xs| {
        assert (xs + ys)[k] == xs[k];
      } else {
        assert (xs + ys)[k] == ys[k - |xs|];
      }
    }
  }

  /** Mapping a prefix gives the prefix of the map. */
  lemma MapPrefix<A, B>(f: A -> B, xs: seq<A>, k: nat)
    requires k <= |xs|
    ensures Map(f, xs[..k]) == Map(f, xs)[..k]
  {
    var l, r := Map(f, xs[..k]), Map(f, xs)[..k];
    forall j | 0 <= j < |l| ensures l[j] == r[j] {
      assert xs[..k][j] == xs[j];
    }
  }

  /** The results of `f` on each element of `xs`, one after the other. */
  function FlatMap<A, B>(f: A -> seq<B>, xs: seq<A>): seq<B> {
    if xs == [] then [] else FlatMap(f, xs[..|xs| - 1]) + f(xs[|xs| - 1])
  }

  lemma {:induction false} FlatMapSplit<A, B>(f: A -> seq<B>, xs: seq<A>, ys: seq<A>)
    ensures FlatMap(f, xs + ys) == FlatMap(f, xs) + FlatMap(f, ys)
    decreases |ys|
  {
    if ys == [] {
      assert xs + ys == xs;
    } else {
      var init := ys[..|ys| - 1];
      FlatMapSplit(f, xs, init);
      assert (xs + ys)[..|xs + ys| - 1] == xs + init;
    }
  }

  lemma FlatMapAppend<A, B>(f: A -> seq<B>, xs: seq<A>, x: A)
    ensures FlatMap(f, xs + [x]) == FlatMap(f, xs) + f(x)
  {
    assert (xs + [x])[..|xs|] == xs;
  }

  /** When every element gives at most one result, there are at most as
      many results as elements; exactly as many when each gives one. */
  lemma {:induction false} FlatMapLength<A, B>(f: A -> seq<B>, xs: seq<A>)
    requires forall x :: |f(x)| <= 1
    ensures |FlatMap(f, xs)| <= |xs|
    ensures (forall i :: 0 <= i < |xs| ==> |f(xs[i])| == 1) ==> |FlatMap(f, xs)| == |xs|
  {
    if xs != [] {
      FlatMapLength(f, xs[..|xs| - 1]);
    }
  }

  /** Every result comes from some element. */
  lemma {:induction false} FlatMapMembers<A, B>(f: A -> seq<B>, xs: seq<A>, y: B)
    ensures y in FlatMap(f, xs) ==> exists i :: 0 <= i < |xs| && y in f(xs[i])
  {
    if xs != [] && y in FlatMap(f, xs) {
      var init := xs[..|xs| - 1];
      if y in FlatMap(f, init) {
        FlatMapMembers(f, init, y);
        var i :| 0 <= i < |init| && y in f(init[i]);
        assert xs[i] == init[i];
      } else {
        assert y in f(xs[|xs| - 1]);
      }
    }
  }

  ghost predicate Distinct<T>(s: seq<T>) {
    forall i, j :: 0 <= i < j < |s| ==> s[i] != s[j]
  }
}
