/**
 The expand step: an `ExpandOp` takes the root node's mapping and splits it
 into two mappings, `expand_1` and `expand_2`, either by a caller-supplied
 split function or by the default half split.
 */
module Expand {

  import opened Options
  import opened Dicts

  /**
   The pairs a dict comprehension `{k: d[k] for k in ks}` inserts, in order.
   */
  function Selected(ks: seq<string>, d: Dict): (ps: seq<(string, string)>)
    requires d.Wf() && forall k :: k in ks ==> k in d.values
    ensures KeysOf(ps) == ks
    ensures forall i :: 0 <= i < |ks| ==> ps[i].1 == d.values[ks[i]]
  {
    seq(|ks|, i requires 0 <= i < |ks| => (ks[i], d.values[ks[i]]))
  }

  /** `{k: d[k] for k in ks}`: the comprehension assigns its pairs one by one. */
  function FromKeys(ks: seq<string>, d: Dict): Dict
    requires d.Wf() && forall k :: k in ks ==> k in d.values
  {
    InsertAll(Empty(), Selected(ks, d))
  }

  /** For distinct keys of `d`, the comprehension keeps exactly them, in order, with their values. */
  lemma FromKeysSelects(ks: seq<string>, d: Dict)
    requires d.Wf() && Distinct(ks) && forall k :: k in ks ==> k in d.values
    ensures FromKeys(ks, d).Wf() && FromKeys(ks, d).keys == ks
    ensures forall k :: k in FromKeys(ks, d).values <==> k in ks
    ensures forall k :: k in FromKeys(ks, d).values ==> FromKeys(ks, d).values[k] == d.values[k]
  {
    var ps := Selected(ks, d);
    var r := InsertAll(Empty(), ps);
    assert Distinct(Empty().keys + KeysOf(ps)) by {
      assert Empty().keys + KeysOf(ps) == ks;
    }
    InsertAllFresh(Empty(), ps);
    InsertAllWf(Empty(), ps);
    forall k | k in r.values
      ensures r.values[k] == d.values[k]
    {
      var t :| 0 <= t < |ks| && ks[t] == k;
      SelectedLastWins(ks, d, t);
    }
  }

  /** The comprehension binds each selected key to its value in `d`. */
  lemma SelectedLastWins(ks: seq<string>, d: Dict, t: nat)
    requires d.Wf() && Distinct(ks) && forall k :: k in ks ==> k in d.values
    requires t < |ks|
    ensures ks[t] in InsertAll(Empty(), Selected(ks, d)).values
    ensures InsertAll(Empty(), Selected(ks, d)).values[ks[t]] == d.values[ks[t]]
  {
    var ps := Selected(ks, d);
    assert forall u :: t < u < |ps| ==> ps[u].0 != ps[t].0;
    InsertAllLastWins(Empty(), ps, t);
  }

  /**
   `default_split`: with `half = n // 2`, the first half holds the first `half`
   keys, the second the remaining `n - half`, in their original order and
   with their original values.
   */
  function DefaultSplit(d: Dict): (r: (Dict, Dict))
    requires d.Wf()
    ensures r.0.Wf() && r.1.Wf()
    ensures r.0.Len() == d.Len() / 2 && r.1.Len() == d.Len() - d.Len() / 2
    ensures r.0.keys + r.1.keys == d.keys
    ensures forall k :: k in r.0.values ==> k in d.values && r.0.values[k] == d.values[k]
    ensures forall k :: k in r.1.values ==> k in d.values && r.1.values[k] == d.values[k]
  {
    var half := d.Len() / 2;
    SlicesSelect(d, half);
    FromKeysSelects(d.keys[..half], d);
    FromKeysSelects(d.keys[half..], d);
    (FromKeys(d.keys[..half], d), FromKeys(d.keys[half..], d))
  }

  /** Both slices of the key order at `h` are distinct keys of `d` and together make the order. */
  lemma SlicesSelect(d: Dict, h: nat)
    requires d.Wf() && h <= d.Len()
    ensures Distinct(d.keys[..h]) && Distinct(d.keys[h..])
    ensures forall k :: k in d.keys[..h] ==> k in d.values
    ensures forall k :: k in d.keys[h..] ==> k in d.values
    ensures d.keys[..h] + d.keys[h..] == d.keys
  {
    var front, back := d.keys[..h], d.keys[h..];
    assert d.keys == front + back;
    forall i, j | 0 <= i < j < |back| ensures back[i] != back[j] {
      assert back[i] == d.keys[h + i] && back[j] == d.keys[h + j];
    }
  }

  /** The halves of the default split share no key and together hold every key. */
  lemma SplitPartition(d: Dict)
    requires d.Wf()
    ensures DefaultSplit(d).0.values.Keys !! DefaultSplit(d).1.values.Keys
    ensures DefaultSplit(d).0.values.Keys + DefaultSplit(d).1.values.Keys == d.values.Keys
  {
    var r := DefaultSplit(d);
    KeysPartition(r.0, r.1, d);
  }

  /** Two dicts whose orders concatenate to the order of `d` partition the keys of `d`. */
  lemma KeysPartition(e1: Dict, e2: Dict, d: Dict)
    requires e1.Wf() && e2.Wf() && d.Wf() && e1.keys + e2.keys == d.keys
    ensures e1.values.Keys !! e2.values.Keys
    ensures e1.values.Keys + e2.values.Keys == d.values.Keys
  {
    DistinctAppend(e1.keys, e2.keys);
    forall k ensures k in d.values <==> k in e1.keys || k in e2.keys {
      assert k in d.keys <==> k in e1.keys + e2.keys;
    }
  }

  /** An empty mapping splits into two empty ones; a single entry goes to the second half. */
  lemma SplitSmall(d: Dict)
    requires d.Wf() && d.Len() <= 1
    ensures DefaultSplit(d).0 == Empty()
    ensures DefaultSplit(d).1 == d
  {
    var r := DefaultSplit(d);
    assert r.0.keys == [];
    NoKeysIsEmpty(r.0);
    assert r.1.keys == d.keys by {
      assert r.0.keys + r.1.keys == r.1.keys;
    }
    SameKeysSameDict(r.1, d);
  }

  /** A well-formed mapping without keys is `{}`. */
  lemma NoKeysIsEmpty(d: Dict)
    requires d.Wf() && d.keys == []
    ensures d == Empty()
  {
    assert d.values == map[] by {
      assert forall k :: k !in d.values;
    }
  }

  /** Well-formed mappings with the same keys, and values taken from the second, are equal. */
  lemma SameKeysSameDict(d1: Dict, d2: Dict)
    requires d1.Wf() && d2.Wf() && d1.keys == d2.keys
    requires forall k :: k in d1.values ==> k in d2.values && d1.values[k] == d2.values[k]
    ensures d1 == d2
  {
    assert d1.values.Keys == d2.values.Keys by {
      forall k | k in d2.values ensures k in d1.values {
        assert k in d2.keys;
      }
    }
  }

  /**
   An `ExpandOp` after construction: the root's mapping, shared with the
   node, and the two halves computed once.
   */
  datatype ExpandOp = ExpandOp(valueDict: Dict, expand1: Dict, expand2: Dict)

  /**
   `ExpandOp(root_node, split_func)`: a supplied split function's pair is
   taken as it is, with no check of disjointness or coverage; without one the
   default split of the root's mapping is used. The root's mapping is not changed.
   */
  function NewExpandOp(root: Dict, splitFunc: Option<() -> (Dict, Dict)>): (op: ExpandOp)
    requires root.Wf()
    ensures op.valueDict == root
    ensures splitFunc.Some? ==> (op.expand1, op.expand2) == splitFunc.value()
    ensures splitFunc.None? ==> op.expand1.keys + op.expand2.keys == root.keys
    ensures splitFunc.None? ==> op.expand1.Len() == root.Len() / 2
    ensures splitFunc.None? ==> (op.expand1, op.expand2) == DefaultSplit(root)
  {
    var halves := if splitFunc.Some? then splitFunc.value() else DefaultSplit(root);
    ExpandOp(root, halves.0, halves.1)
  }
}
