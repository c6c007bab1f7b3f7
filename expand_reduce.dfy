/**
 The expand step followed by the reduce step: the root mapping is split in
 half by the default split, and the two halves are joined by the default
 merge into a fresh `ReduceOp`.
 */
module ExpandReduce {

  import opened Options
  import opened Dicts
  import opened Expand
  import opened Reduce

  /** The mapping the reduce step produces from the halves of `root`. */
  function SplitThenMerge(root: Dict): Dict
    requires root.Wf()
  {
    var halves := DefaultSplit(root);
    CrossMerge(halves.0, halves.1)
  }

  /**
   When no two pairs of a first-half key and a second-half key give the same
   composite key, the output has one entry per such pair:
   `(n // 2) * (n - n // 2)` entries.
   */
  lemma SplitThenMergeSize(root: Dict)
    requires root.Wf()
    requires JoinInjective(DefaultSplit(root).0.keys, DefaultSplit(root).1.keys)
    ensures SplitThenMerge(root).Len() == (root.Len() / 2) * (root.Len() - root.Len() / 2)
  {
    CrossMergeLen(DefaultSplit(root).0, DefaultSplit(root).1);
    HalvesProduct(root);
  }

  /** The product of the halves' sizes, in terms of the root's size. */
  lemma HalvesProduct(root: Dict)
    requires root.Wf()
    ensures DefaultSplit(root).0.Len() * DefaultSplit(root).1.Len() == (root.Len() / 2) * (root.Len() - root.Len() / 2)
  {
    MulSubst(DefaultSplit(root).0.Len(), DefaultSplit(root).1.Len(), root.Len());
  }

  /** Factors equal to `n // 2` and `n - n // 2` multiply to their product. */
  lemma MulSubst(p: nat, q: nat, n: nat)
    requires p == n / 2 && q == n - n / 2
    ensures p * q == (n / 2) * (n - n / 2)
  {
  }

  /** The same with the condition stated on the root's key order. */
  lemma SplitThenMergeSizeSlices(root: Dict)
    requires root.Wf()
    requires JoinInjective(root.keys[..root.Len() / 2], root.keys[root.Len() / 2..])
    ensures SplitThenMerge(root).Len() == (root.Len() / 2) * (root.Len() - root.Len() / 2)
  {
    HalvesAreSlices(root);
    SplitThenMergeSize(root);
  }

  /** In particular, first-half keys without a space give that size. */
  lemma SplitThenMergeSizeNoSpace(root: Dict)
    requires root.Wf()
    requires forall i :: 0 <= i < root.Len() / 2 ==> NoSeparator(root.keys[i])
    ensures SplitThenMerge(root).Len() == (root.Len() / 2) * (root.Len() - root.Len() / 2)
  {
    var halves := DefaultSplit(root);
    HalvesAreSlices(root);
    forall x | x in halves.0.keys ensures NoSeparator(x) {
      var i :| 0 <= i < |halves.0.keys| && halves.0.keys[i] == x;
    }
    NoSeparatorJoinInjective(halves.0.keys, halves.1.keys);
    SplitThenMergeSize(root);
  }

  /** Keys `["a b", "c"]` contain a space yet split and merge to one entry, `(2 // 2) * 1`. */
  lemma SpacedKeysWithoutCollision(root: Dict)
    requires root.keys == ["a b", "c"] && root.values == map["a b" := "1", "c" := "2"]
    ensures root.Wf() && SplitThenMerge(root).Len() == 1
  {
    assert root.Wf() && root.Len() == 2;
    assert JoinInjective(root.keys[..1], root.keys[1..]) by {
      assert root.keys[..1] == ["a b"] && root.keys[1..] == ["c"];
    }
    SplitThenMergeSizeSlices(root);
  }

  /**
   Every output key joins a key from the first `n // 2` positions of the root
   with a key from the remaining positions, and every such pair gives an
   output key.
   */
  lemma SplitThenMergeKeys(root: Dict, k: string)
    requires root.Wf()
    ensures k in SplitThenMerge(root).values <==>
            exists i, j :: 0 <= i < root.Len() / 2 <= j < root.Len() && k == Joined(root.keys[i], root.keys[j])
  {
    if exists i, j :: 0 <= i < root.Len() / 2 <= j < root.Len() && k == Joined(root.keys[i], root.keys[j]) {
      var i, j :| 0 <= i < root.Len() / 2 <= j < root.Len() && k == Joined(root.keys[i], root.keys[j]);
      PairInOutput(root, i, j);
    }
    if k in SplitThenMerge(root).values {
      var i, j := OutputFromPair(root, k);
    }
  }

  /** The halves' key orders are the two slices of the root's order. */
  lemma HalvesAreSlices(root: Dict)
    requires root.Wf()
    ensures DefaultSplit(root).0.keys == root.keys[..root.Len() / 2]
    ensures DefaultSplit(root).1.keys == root.keys[root.Len() / 2..]
  {
    var (e1, e2) := DefaultSplit(root);
    assert root.keys == e1.keys + e2.keys;
  }

  /** A first-half key joined with a second-half key is an output key. */
  lemma PairInOutput(root: Dict, i: nat, j: nat)
    requires root.Wf() && i < root.Len() / 2 <= j < root.Len()
    ensures Joined(root.keys[i], root.keys[j]) in SplitThenMerge(root).values
  {
    HalvesAreSlices(root);
    SlicePairJoined(root.keys, root.Len() / 2, DefaultSplit(root).0, DefaultSplit(root).1, i, j);
  }

  /** Slice positions `i` and `j` of `ks` give a key of the merge of the slices. */
  lemma SlicePairJoined(ks: seq<string>, h: nat, e1: Dict, e2: Dict, i: nat, j: nat)
    requires e1.Wf() && e2.Wf() && i < h <= j < |ks|
    requires e1.keys == ks[..h] && e2.keys == ks[h..]
    ensures Joined(ks[i], ks[j]) in CrossMerge(e1, e2).values
  {
    assert e1.keys[i] == ks[i] && e2.keys[j - h] == ks[j];
    CrossMergeHasPair(e1, e2, i, j - h);
  }

  /** An output key is a first-half key joined with a second-half key. */
  lemma OutputFromPair(root: Dict, k: string) returns (i: nat, j: nat)
    requires root.Wf() && k in SplitThenMerge(root).values
    ensures i < root.Len() / 2 <= j < root.Len() && k == Joined(root.keys[i], root.keys[j])
  {
    var h := root.Len() / 2;
    var halves := DefaultSplit(root);
    HalvesAreSlices(root);
    var i1, j1 := CrossMergeKeyPair(halves.0, halves.1, k);
    assert halves.0.keys[i1] == root.keys[i1] && halves.1.keys[j1] == root.keys[h + j1];
    i, j := i1, h + j1;
  }

  /** A root with at most one entry gives an empty output. */
  lemma SplitThenMergeSmall(root: Dict)
    requires root.Wf() && root.Len() <= 1
    ensures SplitThenMerge(root) == Empty()
  {
    SplitSmall(root);
    CrossMergeEmpty(Empty(), root);
  }

  /**
   The two operations wired together: an `ExpandOp` over the root with the
   default split, then a `ReduceOp` over its two halves with the default
   merge, whose owned mapping is the output above.
   */
  method Run(root: Dict) returns (reduce: ReduceOp)
    requires root.Wf()
    ensures reduce.Valid() && reduce.ValueDict() == SplitThenMerge(root)
  {
    var expand := NewExpandOp(root, None);
    reduce := new ReduceOp(expand.expand1, expand.expand2, None);
  }
}
