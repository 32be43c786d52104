/** The Python string operations the scrapers rely on, written as total
    functions over `seq<char>`: substring search (`in`), `endswith`,
    `lower`, `strip`, `replace`, `split("/")[-1]`, `title`, integer
    formatting in f-strings and `urldefrag`. */
module Text {
  import opened Seqs

  predicate StartsWith(s: string, p: string) {
    |p| <= |s| && s[..|p|] == p
  }

  /** `s.endswith(p)`, compared from the last character backwards. */
  predicate EndsWith(s: string, p: string)
    decreases |p|
  {
    |p| <= |s| && (|p| == 0 || (s[|s| - 1] == p[|p| - 1] && EndsWith(s[..|s| - 1], p[..|p| - 1])))
  }

  /** The backward comparison agrees with "the last `|p|` characters of
      `s` are `p`". */
  lemma {:induction false} EndsWithIffSlice(s: string, p: string)
    ensures EndsWith(s, p) <==> |p| <= |s| && s[|s| - |p|..] == p
    decreases |p|
  {
    if |p| > 0 && |p| <= |s| {
      var s', p' := s[..|s| - 1], p[..|p| - 1];
      EndsWithIffSlice(s', p');
      assert s[|s| - |p|..] == s'[|s'| - |p'|..] + [s[|s| - 1]];
      assert p == p' + [p[|p| - 1]];
    }
  }

  /** `p` occurs in `s` starting at index `i`. */
  ghost predicate OccursAt(s: string, p: string, i: int) {
    0 <= i && i + |p| <= |s| && s[i..i + |p|] == p
  }

  /** Python's `p in s`. */
  predicate Contains(s: string, p: string)
    ensures Contains(s, p) ==> |p| <= |s|
    decreases |s|
  {
    StartsWith(s, p) || (|s| > 0 && Contains(s[1..], p))
  }

  /** The scan agrees with the definition "some occurrence exists". */
  lemma {:induction false} ContainsIffOccurs(s: string, p: string)
    ensures Contains(s, p) <==> exists i :: OccursAt(s, p, i)
    decreases |s|
  {
    if StartsWith(s, p) {
      assert OccursAt(s, p, 0);
    } else if |s| == 0 {
      assert forall i :: !OccursAt(s, p, i);
    } else {
      ContainsIffOccurs(s[1..], p);
      assert !OccursAt(s, p, 0);
      forall i | OccursAt(s, p, i) ensures OccursAt(s[1..], p, i - 1) {
        assert s[1..][i - 1..i - 1 + |p|] == s[i..i + |p|];
      }
      forall i | OccursAt(s[1..], p, i) ensures OccursAt(s, p, i + 1) {
        assert s[1..][i..i + |p|] == s[i + 1..i + 1 + |p|];
      }
    }
  }

  // ---------------------------------------------------------------------
  // str.lower(), on ASCII and Latin-1 letters

  predicate IsUpperLetter(c: char) {
    'A' <= c <= 'Z' || ('\U{C0}' <= c <= '\U{DE}' && c != '\U{D7}')
  }

  function LowerChar(c: char): char {
    if IsUpperLetter(c) then (c as int + 32) as char else c
  }

  /** Every upper-case letter becomes the lower-case letter 32 code
      points up; every other character is kept. */
  function Lower(s: string): (r: string)
    ensures |r| == |s|
    ensures forall i :: 0 <= i < |s| ==>
      r[i] == if IsUpperLetter(s[i]) then (s[i] as int + 32) as char else s[i]
    ensures forall i :: 0 <= i < |r| ==> !IsUpperLetter(r[i])
  {
    seq(|s|, i requires 0 <= i < |s| => LowerChar(s[i]))
  }

  /** Lower-casing twice changes nothing more. */
  lemma LowerIdempotent(s: string)
    ensures Lower(Lower(s)) == Lower(s)
  {
    forall i | 0 <= i < |s| ensures Lower(Lower(s))[i] == Lower(s)[i] {
      var c := s[i];
      assert !IsUpperLetter(LowerChar(c));
    }
  }

  // ---------------------------------------------------------------------
  // str.strip()

  /** Python's `str.isspace` characters. */
  predicate IsSpace(c: char) {
    || c == ' ' || ('\t' <= c <= '\r') || ('\U{1C}' <= c <= '\U{1F}')
    || c == '\U{85}' || c == '\U{A0}' || c == '\U{1680}'
    || ('\U{2000}' <= c <= '\U{200A}') || c == '\U{2028}' || c == '\U{2029}'
    || c == '\U{202F}' || c == '\U{205F}' || c == '\U{3000}'
  }

  /** `lstrip()`: drops the leading spaces. */
  function StripLeft(s: string): string {
    if |s| > 0 && IsSpace(s[0]) then StripLeft(s[1..]) else s
  }

  /** `rstrip()`: drops the trailing spaces. */
  function StripRight(s: string): string {
    if |s| > 0 && IsSpace(s[|s| - 1]) then StripRight(s[..|s| - 1]) else s
  }

  function Strip(s: string): string {
    StripRight(StripLeft(s))
  }

  /** `lstrip()` keeps the longest suffix of `s` not starting with a
      space: what it drops is all space. */
  lemma {:induction false} StripLeftSpec(s: string)
    ensures |StripLeft(s)| <= |s| && StripLeft(s) == s[|s| - |StripLeft(s)|..]
    ensures forall k :: 0 <= k < |s| - |StripLeft(s)| ==> IsSpace(s[k])
    ensures StripLeft(s) != [] ==> !IsSpace(StripLeft(s)[0])
    decreases |s|
  {
    if |s| > 0 && IsSpace(s[0]) {
      var t := s[1..];
      StripLeftSpec(t);
      var r := StripLeft(t);
      assert t[|t| - |r|..] == s[|s| - |r|..];
      forall k | 0 <= k < |s| - |r| ensures IsSpace(s[k]) {
        if k > 0 {
          assert s[k] == t[k - 1];
        }
      }
    }
  }

  /** `rstrip()` keeps the longest prefix of `s` not ending with a space:
      what it drops is all space. */
  lemma {:induction false} StripRightSpec(s: string)
    ensures |StripRight(s)| <= |s| && StripRight(s) == s[..|StripRight(s)|]
    ensures forall k :: |StripRight(s)| <= k < |s| ==> IsSpace(s[k])
    ensures StripRight(s) != [] ==> !IsSpace(StripRight(s)[|StripRight(s)| - 1])
    decreases |s|
  {
    if |s| > 0 && IsSpace(s[|s| - 1]) {
      var t := s[..|s| - 1];
      StripRightSpec(t);
      var r := StripRight(t);
      assert t[..|r|] == s[..|r|];
      forall k | |r| <= k < |s| ensures IsSpace(s[k]) {
        if k < |s| - 1 {
          assert s[k] == t[k];
        }
      }
    }
  }

  /** `r` is the slice of `s` starting at `i`, and everything of `s`
      around that slice is space. */
  ghost predicate TrimmedAt(s: string, r: string, i: int) {
    0 <= i && i + |r| <= |s| && r == s[i..i + |r|]
    && (forall k :: 0 <= k < i ==> IsSpace(s[k]))
    && (forall k :: i + |r| <= k < |s| ==> IsSpace(s[k]))
  }

  /** `strip()` removes only spaces, and only at the two ends; what it
      keeps neither starts nor ends with a space. */
  lemma StripIsTrimmedSlice(s: string)
    ensures exists i :: TrimmedAt(s, Strip(s), i)
    ensures Strip(s) != [] ==> !IsSpace(Strip(s)[0]) && !IsSpace(Strip(s)[|Strip(s)| - 1])
  {
    var t := StripLeft(s);
    StripLeftSpec(s);
    StripRightSpec(t);
    var i := |s| - |t|;
    var r := StripRight(t);
    assert s[i..i + |r|] == t[..|r|];
    forall k | i + |r| <= k < |s| ensures IsSpace(s[k]) {
      assert s[k] == t[k - i];
    }
    assert r == Strip(s);
    assert TrimmedAt(s, Strip(s), i);
  }

  /** A string without spaces at its ends is its own strip, so stripping
      twice is stripping once. */
  lemma StripIdempotent(s: string)
    ensures Strip(Strip(s)) == Strip(s)
  {
    var t := StripLeft(s);
    StripLeftSpec(s);
    StripRightSpec(t);
    var r := Strip(s);
    if r != [] {
      assert r[0] == t[0];
    }
    assert StripLeft(r) == r;
    assert StripRight(r) == r;
  }

  // ---------------------------------------------------------------------
  // str.replace(old, "") and str.replace(a, b) for single characters

  /** `s.replace(pat, "")`: one left-to-right pass over non-overlapping
      occurrences; an empty pattern leaves `s` unchanged, as in Python. */
  function RemoveAll(s: string, pat: string): (r: string)
    ensures |r| <= |s|
    ensures forall c :: c in r ==> c in s
    ensures pat == [] || !Contains(s, pat) ==> r == s
    ensures pat != [] && Contains(s, pat) ==> |r| < |s|
    decreases |s|
  {
    if pat == [] || |s| < |pat| then s
    else if StartsWith(s, pat) then RemoveAll(s[|pat|..], pat)
    else [s[0]] + RemoveAll(s[1..], pat)
  }

  /** An occurrence in the tail is an occurrence one place later. */
  lemma OccursAtTail(s: string, p: string, j: nat)
    requires |s| > 0
    ensures OccursAt(s[1..], p, j) <==> OccursAt(s, p, j + 1)
  {
    if j + |p| <= |s| - 1 {
      assert s[1..][j..j + |p|] == s[j + 1..j + 1 + |p|];
    }
  }

  /** The replacement deletes the leftmost occurrence and keeps what
      precedes it: when `pat` first occurs in `a + pat + b` right after
      `a`, the result is `a` followed by the replacement over `b`. With
      the identity on a text without `pat`, this fixes the result. */
  lemma {:induction false} RemoveAllStep(a: string, pat: string, b: string)
    requires pat != []
    requires forall j :: 0 <= j < |a| ==> !OccursAt(a + pat + b, pat, j)
    ensures RemoveAll(a + pat + b, pat) == a + RemoveAll(b, pat)
    decreases |a|
  {
    var s := a + pat + b;
    if a == [] {
      assert s == pat + b;
      assert s[..|pat|] == pat;
      assert s[|pat|..] == b;
    } else {
      assert !OccursAt(s, pat, 0);
      assert s[0..|pat|] == s[..|pat|];
      var a' := a[1..];
      var t := s[1..];
      assert t == a' + pat + b;
      forall j | 0 <= j < |a'| ensures !OccursAt(a' + pat + b, pat, j) {
        OccursAtTail(s, pat, j);
      }
      assert !StartsWith(s, pat);
      assert RemoveAll(s, pat) == [s[0]] + RemoveAll(t, pat);
      RemoveAllStep(a', pat, b);
      var rest := RemoveAll(b, pat);
      assert RemoveAll(t, pat) == a' + rest;
      assert s[0] == a[0];
      assert [a[0]] + a' == a;
      AppendAssoc([a[0]], a', rest);
    }
  }

  /** A leading occurrence is removed, and the replacement goes on after it. */
  lemma RemoveAllPrefix(pat: string, b: string)
    requires pat != []
    ensures RemoveAll(pat + b, pat) == RemoveAll(b, pat)
  {
    var s := pat + b;
    assert s[..|pat|] == pat;
    assert s[|pat|..] == b;
  }

  /** `s.replace(a, b)` for one-character strings `a` and `b`. */
  function ReplaceChar(s: string, a: char, b: char): (r: string)
    ensures |r| == |s|
    ensures forall i :: 0 <= i < |s| ==> r[i] == if s[i] == a then b else s[i]
  {
    if s == [] then [] else [if s[0] == a then b else s[0]] + ReplaceChar(s[1..], a, b)
  }

  /** After replacing `a` by another character, no `a` is left; a
      character other than `a` and `b` is in the result iff it was in `s`. */
  lemma ReplaceCharRemoves(s: string, a: char, b: char)
    requires a != b
    ensures a !in ReplaceChar(s, a, b)
    ensures forall c :: c != a && c != b ==> (c in ReplaceChar(s, a, b) <==> c in s)
  {
    var r := ReplaceChar(s, a, b);
    forall c | c != a && c != b && c in s ensures c in r {
      var i :| 0 <= i < |s| && s[i] == c;
      assert r[i] == c;
    }
  }

  // ---------------------------------------------------------------------
  // s.split("/")[-1]

  /** The text after the last `/` (all of `s` when it has none). */
  function LastSegment(s: string): (r: string)
    ensures '/' !in r
    ensures |r| <= |s| && r == s[|s| - |r|..]
    ensures |r| < |s| ==> s[|s| - |r| - 1] == '/'
  {
    if |s| == 0 then []
    else if s[|s| - 1] == '/' then []
    else LastSegment(s[..|s| - 1]) + [s[|s| - 1]]
  }

  /** A string without `/` is its own last segment. */
  lemma {:induction false} LastSegmentOfSegment(seg: string)
    requires '/' !in seg
    ensures LastSegment(seg) == seg
    decreases |seg|
  {
    if seg != [] {
      var init := seg[..|seg| - 1];
      assert seg[|seg| - 1] in seg;
      LastSegmentOfSegment(init);
      assert init + [seg[|seg| - 1]] == seg;
    }
  }

  /** Whatever precedes the last `/` does not matter. */
  lemma {:induction false} LastSegmentOfPath(prefix: string, seg: string)
    requires '/' !in seg
    ensures LastSegment(prefix + "/" + seg) == seg
    decreases |seg|
  {
    var w := prefix + "/" + seg;
    if seg == [] {
      assert w[|w| - 1] == '/';
    } else {
      var last := seg[|seg| - 1];
      var init := seg[..|seg| - 1];
      assert last in seg;
      LastSegmentOfPath(prefix, init);
      assert w[..|w| - 1] == prefix + "/" + init;
      assert w[|w| - 1] == last;
      assert init + [last] == seg;
    }
  }

  // ---------------------------------------------------------------------
  // str.title(), on ASCII letters

  predicate IsCased(c: char) {
    'A' <= c <= 'Z' || 'a' <= c <= 'z'
  }

  function UpperAscii(c: char): char {
    if 'a' <= c <= 'z' then (c as int - 32) as char else c
  }

  function LowerAscii(c: char): char {
    if 'A' <= c <= 'Z' then (c as int + 32) as char else c
  }

  /** Python's title-casing loop: a letter is upper-cased when the previous
      character was not a letter and lower-cased when it was. */
  function TitleFrom(s: string, prevCased: bool): (r: string)
    ensures |r| == |s|
    ensures forall i :: 0 <= i < |s| && !IsCased(s[i]) ==> r[i] == s[i]
    ensures forall i :: 0 <= i < |s| && IsCased(s[i]) ==>
      LowerAscii(r[i]) == LowerAscii(s[i]) &&
      (if (if i == 0 then prevCased else IsCased(s[i - 1])) then 'a' <= r[i] <= 'z' else 'A' <= r[i] <= 'Z')
  {
    if s == [] then []
    else
      var c := s[0];
      var c' := if !IsCased(c) then c else if prevCased then LowerAscii(c) else UpperAscii(c);
      [c'] + TitleFrom(s[1..], IsCased(c))
  }

  function Title(s: string): (r: string)
    ensures |r| == |s|
  {
    TitleFrom(s, false)
  }

  /** Title-casing an already title-cased string changes nothing. */
  lemma {:induction false} TitleFromIdempotent(s: string, prevCased: bool)
    ensures TitleFrom(TitleFrom(s, prevCased), prevCased) == TitleFrom(s, prevCased)
    decreases |s|
  {
    if s != [] {
      var t := TitleFrom(s, prevCased);
      assert t[1..] == TitleFrom(s[1..], IsCased(s[0]));
      assert IsCased(t[0]) == IsCased(s[0]);
      TitleFromIdempotent(s[1..], IsCased(s[0]));
    }
  }

  lemma TitleIdempotent(s: string)
    ensures Title(Title(s)) == Title(s)
  {
    TitleFromIdempotent(s, false);
  }

  /** Title-casing keeps every character that is not an ASCII letter. */
  lemma TitleKeepsNonLetters(s: string, c: char)
    requires !IsCased(c)
    ensures c in Title(s) <==> c in s
  {
    var r := Title(s);
    if c in r {
      var i :| 0 <= i < |r| && r[i] == c;
      assert !IsCased(s[i]);
    }
    if c in s {
      var i :| 0 <= i < |s| && s[i] == c;
      assert r[i] == c;
    }
  }

  // ---------------------------------------------------------------------
  // f"{n}" for integers

  function DigitChar(d: nat): (c: char)
    requires d < 10
    ensures '0' <= c <= '9'
  {
    (48 + d) as char
  }

  /** Decimal digits of `n`, most significant first, without leading zeros. */
  function NatToString(n: nat): (r: string)
    ensures |r| >= 1
    ensures n >= 10 ==> |r| >= 2
    ensures forall i :: 0 <= i < |r| ==> '0' <= r[i] <= '9'
    decreases n
  {
    if n < 10 then [DigitChar(n)] else NatToString(n / 10) + [DigitChar(n % 10)]
  }

  /** Different numbers print differently. */
  lemma {:induction false} NatToStringInjective(a: nat, b: nat)
    requires NatToString(a) == NatToString(b)
    ensures a == b
    decreases a
  {
    if a < 10 && b < 10 {
      assert NatToString(a)[0] == DigitChar(a);
    } else if a >= 10 && b >= 10 {
      var sa, sb := NatToString(a), NatToString(b);
      assert sa[|sa| - 1] == DigitChar(a % 10);
      assert sb[|sb| - 1] == DigitChar(b % 10);
      assert sa[..|sa| - 1] == NatToString(a / 10);
      assert sb[..|sb| - 1] == NatToString(b / 10);
      NatToStringInjective(a / 10, b / 10);
    }
  }

  /** The number a string of decimal digits denotes. */
  function DecimalValue(s: string): nat
    requires forall i :: 0 <= i < |s| ==> '0' <= s[i] <= '9'
  {
    if s == [] then 0 else 10 * DecimalValue(s[..|s| - 1]) + (s[|s| - 1] as int - '0' as int)
  }

  /** Reading the printed digits back gives the number. */
  lemma {:induction false} NatToStringValue(n: nat)
    ensures DecimalValue(NatToString(n)) == n
    decreases n
  {
    var r := NatToString(n);
    if n < 10 {
      assert r[..0] == [];
    } else {
      assert r[..|r| - 1] == NatToString(n / 10);
      NatToStringValue(n / 10);
    }
  }

  function IntToString(n: int): string {
    if n < 0 then "-" + NatToString(-n) else NatToString(n)
  }

  // ---------------------------------------------------------------------
  // urldefrag(u).url

  /** The URL up to its first `#`: the fragment (section 3.5 of RFC 3986)
      is dropped. */
  function Defrag(u: string): (r: string)
    ensures '#' !in r
    ensures |r| <= |u| && r == u[..|r|]
    ensures |r| < |u| ==> u[|r|] == '#'
  {
    if u == [] || u[0] == '#' then [] else [u[0]] + Defrag(u[1..])
  }

  /** A URL without a fragment is left as it is, so defragmenting twice
      is defragmenting once. */
  lemma DefragIdempotent(u: string)
    ensures '#' !in u ==> Defrag(u) == u
    ensures Defrag(Defrag(u)) == Defrag(u)
  {
    var r := Defrag(u);
    if '#' !in u {
      assert forall k :: 0 <= k < |u| ==> u[k] != '#';
    }
    assert forall k :: 0 <= k < |r| ==> r[k] != '#';
  }

  // ---------------------------------------------------------------------
  // get_text(strip=True)

  /** `get_text(strip=True)` of an element whose text nodes are `texts`:
      every node stripped, joined with no separator. */
  function TextOf(texts: seq<string>): string {
    Concat(Map(Strip, texts))
  }

  /** One more text node adds its stripped text at the end. */
  lemma TextOfAppend(texts: seq<string>, t: string)
    ensures TextOf(texts + [t]) == TextOf(texts) + Strip(t)
  {
    MapAppend(Strip, texts, [t]);
    assert Map(Strip, [t]) == [Strip(t)];
    ConcatAppend(Map(Strip, texts), Strip(t));
  }

  /** A single text node gives its stripped text. */
  lemma TextOfSingle(t: string)
    ensures TextOf([t]) == Strip(t)
  {
    TextOfAppend([], t);
    assert [] + [t] == [t];
  }
}
