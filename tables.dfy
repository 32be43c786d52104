/** The columns pandas gives a DataFrame built from a list of dicts: the
    union of the dicts' keys, in order of first appearance. */
module Tables {
  import opened Seqs

  /** `cols` followed by the keys of `keys` it does not have yet. */
  function AddKeys(cols: seq<string>, keys: seq<string>): (r: seq<string>)
    ensures cols <= r
    ensures forall k :: k in r <==> k in cols || k in keys
  {
    if keys == [] then cols
    else
      var init := AddKeys(cols, keys[..|keys| - 1]);
      var k := keys[|keys| - 1];
      if k in init then init else init + [k]
  }

  /** `pd.DataFrame(rows).columns` for rows whose keys are `keyLists`. */
  function FrameColumns(keyLists: seq<seq<string>>): seq<string> {
    if keyLists == [] then [] else AddKeys(FrameColumns(keyLists[..|keyLists| - 1]), keyLists[|keyLists| - 1])
  }

  lemma {:induction false} AddKeysToEmpty(keys: seq<string>)
    requires Distinct(keys)
    ensures AddKeys([], keys) == keys
  {
    if keys != [] {
      var init := keys[..|keys| - 1];
      AddKeysToEmpty(init);
      assert keys[|keys| - 1] !in init;
      assert init + [keys[|keys| - 1]] == keys;
    }
  }

  lemma {:induction false} AddKeysPresent(cols: seq<string>, keys: seq<string>)
    requires forall k :: k in keys ==> k in cols
    ensures AddKeys(cols, keys) == cols
  {
    if keys != [] {
      AddKeysPresent(cols, keys[..|keys| - 1]);
      assert keys[|keys| - 1] in keys;
    }
  }

  /** When every row has the same distinct keys, those keys are the
      columns, in their order; no rows give no columns at all. */
  lemma {:induction false} UniformFrameColumns(keyLists: seq<seq<string>>, keys: seq<string>)
    requires Distinct(keys)
    requires forall i :: 0 <= i < |keyLists| ==> keyLists[i] == keys
    ensures FrameColumns(keyLists) == if keyLists == [] then [] else keys
  {
    if |keyLists| == 1 {
      assert keyLists[..0] == [];
      AddKeysToEmpty(keys);
    } else if |keyLists| > 1 {
      UniformFrameColumns(keyLists[..|keyLists| - 1], keys);
      AddKeysPresent(keys, keys);
    }
  }
}
