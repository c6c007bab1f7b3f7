/**
 The reduce step: a `ReduceOp` owns a mapping that starts empty and is
 filled by a cross-product join of two input mappings: for every `k1 -> v1`
 of the first and every `k2 -> v2` of the second, in that nesting, it assigns
 `"k1 k2" -> "v1 v2"`.
 */
module Reduce {

  import opened Options
  import opened Dicts

  /** `f"{x} {y}"`: two strings joined by one space. */
  function Joined(x: string, y: string): string {
    x + " " + y
  }

  /** The assignment the inner loop makes for outer item `x` and inner item `y`. */
  function Pair(x: (string, string), y: (string, string)): (string, string) {
    (Joined(x.0, y.0), Joined(x.1, y.1))
  }

  /** The inner loop's assignments for one outer item, in the inner items' order. */
  function Row(x: (string, string), ys: seq<(string, string)>): seq<(string, string)> {
    seq(|ys|, j requires 0 <= j < |ys| => Pair(x, ys[j]))
  }

  /** All assignments of the two loops: outer item major, inner item minor. */
  function Rows(xs: seq<(string, string)>, ys: seq<(string, string)>): seq<(string, string)>
    decreases |xs|
  {
    if xs == [] then [] else Rows(xs[..|xs| - 1], ys) + Row(xs[|xs| - 1], ys)
  }

  /** The mapping `acc` after the outer loop has run over the items `xs`, each time running the inner loop over `ys`. */
  function MergeItems(acc: Dict, xs: seq<(string, string)>, ys: seq<(string, string)>): Dict
    decreases |xs|
  {
    if xs == [] then acc else InsertAll(MergeItems(acc, xs[..|xs| - 1], ys), Row(xs[|xs| - 1], ys))
  }

  /** The owned mapping `acc` after `default_merge(a, b)`. */
  function Merge(acc: Dict, a: Dict, b: Dict): Dict
    requires a.Wf() && b.Wf()
  {
    MergeItems(acc, Items(a), Items(b))
  }

  /** The owned mapping after construction with the default merge: all assignments of the join, made into `{}`. */
  function CrossMerge(a: Dict, b: Dict): Dict
    requires a.Wf() && b.Wf()
  {
    InsertAll(Empty(), Rows(Items(a), Items(b)))
  }

  /** One more pass of the outer loop runs the inner loop for the next outer item. */
  lemma MergeItemsSnoc(acc: Dict, xs: seq<(string, string)>, ys: seq<(string, string)>, i: nat)
    requires i < |xs|
    ensures MergeItems(acc, xs[..i + 1], ys) == InsertAll(MergeItems(acc, xs[..i], ys), Row(xs[i], ys))
  {
    assert xs[..i + 1][..i] == xs[..i];
  }

  /** Running the loops is making all their assignments in order. */
  lemma {:induction false} MergeItemsRows(acc: Dict, xs: seq<(string, string)>, ys: seq<(string, string)>)
    ensures MergeItems(acc, xs, ys) == InsertAll(acc, Rows(xs, ys))
    decreases |xs|
  {
    if xs != [] {
      var n := |xs| - 1;
      MergeItemsRows(acc, xs[..n], ys);
      InsertAllAppend(acc, Rows(xs[..n], ys), Row(xs[n], ys));
    }
  }

  /** The loops keep the owned mapping well formed. */
  lemma MergeItemsWf(acc: Dict, xs: seq<(string, string)>, ys: seq<(string, string)>)
    requires acc.Wf()
    ensures MergeItems(acc, xs, ys).Wf()
  {
    MergeItemsRows(acc, xs, ys);
    InsertAllWf(acc, Rows(xs, ys));
  }

  /** The default merge into `{}` gives the join. */
  lemma MergeIntoEmpty(a: Dict, b: Dict)
    requires a.Wf() && b.Wf()
    ensures Merge(Empty(), a, b) == CrossMerge(a, b)
  {
    MergeItemsRows(Empty(), Items(a), Items(b));
  }

  /** A key without the separating space. */
  predicate NoSeparator(k: string) {
    ' ' !in k
  }

  /** No two different key pairs of `xs` and `ys` give the same composite key. */
  predicate JoinInjective(xs: seq<string>, ys: seq<string>) {
    forall x1, y1, x2, y2 ::
      x1 in xs && y1 in ys && x2 in xs && y2 in ys && Joined(x1, y1) == Joined(x2, y2)
      ==> x1 == x2 && y1 == y2
  }

  /** A joined string holds its left part, the space, then its right part. */
  lemma JoinedParts(x: string, y: string)
    requires NoSeparator(x)
    ensures |Joined(x, y)| == |x| + 1 + |y|
    ensures Joined(x, y)[..|x|] == x && Joined(x, y)[|x| + 1..] == y
    ensures Joined(x, y)[|x|] == ' ' && forall i :: 0 <= i < |x| ==> Joined(x, y)[i] != ' '
  {
    assert forall i :: 0 <= i < |x| ==> Joined(x, y)[i] == x[i];
  }

  /** When the left parts contain no space, the join can be undone. */
  lemma JoinedInjective(x1: string, y1: string, x2: string, y2: string)
    requires NoSeparator(x1) && NoSeparator(x2)
    requires Joined(x1, y1) == Joined(x2, y2)
    ensures x1 == x2 && y1 == y2
  {
    JoinedParts(x1, y1);
    JoinedParts(x2, y2);
    assert |x1| == |x2|;
  }

  /** First-input keys without a space rule out collisions of composite keys. */
  lemma NoSeparatorJoinInjective(xs: seq<string>, ys: seq<string>)
    requires forall x :: x in xs ==> NoSeparator(x)
    ensures JoinInjective(xs, ys)
  {
    forall x1, y1, x2, y2 |
      x1 in xs && y1 in ys && x2 in xs && y2 in ys && Joined(x1, y1) == Joined(x2, y2)
      ensures x1 == x2 && y1 == y2
    {
      JoinedInjective(x1, y1, x2, y2);
    }
  }

  /** Keys with a space can collide: `"a b" + " " + "c" == "a" + " " + "b c"`. */
  lemma SeparatorCollision()
    ensures !JoinInjective(["a b", "a"], ["c", "b c"])
  {
    assert Joined("a b", "c") == Joined("a", "b c");
  }

  /** Adding one outer item appends its row. */
  lemma RowsSnoc(xs: seq<(string, string)>, ys: seq<(string, string)>, i: nat)
    requires i < |xs|
    ensures Rows(xs[..i + 1], ys) == Rows(xs[..i], ys) + Row(xs[i], ys)
  {
    assert xs[..i + 1][..i] == xs[..i];
  }

  /** Adding one inner item appends its pair. */
  lemma RowSnoc(x: (string, string), ys: seq<(string, string)>, j: nat)
    requires j < |ys|
    ensures Row(x, ys[..j + 1]) == Row(x, ys[..j]) + [Pair(x, ys[j])]
  {
  }

  /**
   `i * m + j` written as repeated addition: the position of inner item `j`
   of outer item `i` when every outer item has `m` inner ones.
   */
  function Offset(i: nat, j: nat, m: nat): nat {
    if i == 0 then j else Offset(i - 1, j, m) + m
  }

  lemma {:induction false} OffsetIsProduct(i: nat, j: nat, m: nat)
    ensures Offset(i, j, m) == i * m + j
  {
    if i > 0 {
      OffsetIsProduct(i - 1, j, m);
    }
  }

  lemma {:induction false} OffsetShift(i: nat, j: nat, m: nat)
    ensures Offset(i, j, m) == Offset(i, 0, m) + j
  {
    if i > 0 {
      OffsetShift(i - 1, j, m);
    }
  }

  /** Positions `Offset(i, j, m)` with `j < m` are ordered lexicographically by `(i, j)`. */
  lemma {:induction false} LexOrder(i: nat, j: nat, i2: nat, j2: nat, m: nat)
    requires j < m && j2 < m && Offset(i, j, m) < Offset(i2, j2, m)
    ensures i < i2 || (i == i2 && j < j2)
  {
    if i > 0 && i2 > 0 {
      LexOrder(i - 1, j, i2 - 1, j2, m);
    }
  }

  /** The loops make `Offset(|xs|, 0, |ys|)`, that is `|xs| * |ys|`, assignments. */
  lemma {:induction false} RowsLength(xs: seq<(string, string)>, ys: seq<(string, string)>)
    ensures |Rows(xs, ys)| == Offset(|xs|, 0, |ys|)
  {
    if xs != [] {
      RowsLength(xs[..|xs| - 1], ys);
    }
  }

  /** Assignment number `Offset(i, j, |ys|)` is the one for outer item `i` and inner item `j`. */
  lemma {:induction false} RowsAt(xs: seq<(string, string)>, ys: seq<(string, string)>, i: nat, j: nat)
    requires i < |xs| && j < |ys|
    ensures Offset(i, j, |ys|) < |Rows(xs, ys)|
    ensures Rows(xs, ys)[Offset(i, j, |ys|)] == Pair(xs[i], ys[j])
  {
    var n := |xs| - 1;
    RowsLength(xs[..n], ys);
    OffsetShift(i, j, |ys|);
    if i < n {
      RowsAt(xs[..n], ys, i, j);
    }
  }

  /** Every assignment of the loops belongs to one outer item and one inner item. */
  lemma {:induction false} RowsIndex(xs: seq<(string, string)>, ys: seq<(string, string)>, u: nat)
    returns (i: nat, j: nat)
    requires u < |Rows(xs, ys)|
    ensures i < |xs| && j < |ys| && u == Offset(i, j, |ys|)
    ensures Rows(xs, ys)[u] == Pair(xs[i], ys[j])
  {
    var n := |xs| - 1;
    var front := Rows(xs[..n], ys);
    RowsLength(xs[..n], ys);
    if u < |front| {
      i, j := RowsIndex(xs[..n], ys, u);
    } else {
      i, j := n, u - |front|;
      OffsetShift(n, j, |ys|);
    }
  }

  /** The keys the loops assign are exactly the joins of an outer key with an inner key. */
  lemma {:induction false} RowsKeys(xs: seq<(string, string)>, ys: seq<(string, string)>, k: string)
    ensures k in KeysOf(Rows(xs, ys)) <==>
            exists i, j :: 0 <= i < |xs| && 0 <= j < |ys| && k == Joined(xs[i].0, ys[j].0)
  {
    if xs != [] {
      var n := |xs| - 1;
      assert k in KeysOf(Rows(xs, ys)) <==> k in KeysOf(Rows(xs[..n], ys)) || k in KeysOf(Row(xs[n], ys)) by {
        assert KeysOf(Rows(xs, ys)) == KeysOf(Rows(xs[..n], ys)) + KeysOf(Row(xs[n], ys));
      }
      RowsKeys(xs[..n], ys, k);
      RowKeys(xs[n], ys, k);
      if exists i, j :: 0 <= i < |xs| && 0 <= j < |ys| && k == Joined(xs[i].0, ys[j].0) {
        var i, j :| 0 <= i < |xs| && 0 <= j < |ys| && k == Joined(xs[i].0, ys[j].0);
        if i < n {
          assert xs[..n][i] == xs[i];
        }
      }
    }
  }

  /** The keys the inner loop assigns for outer item `x` are `x`'s key joined with each inner key. */
  lemma RowKeys(x: (string, string), ys: seq<(string, string)>, k: string)
    ensures k in KeysOf(Row(x, ys)) <==> exists j :: 0 <= j < |ys| && k == Joined(x.0, ys[j].0)
  {
    var row := Row(x, ys);
    if k in KeysOf(row) {
      var j :| 0 <= j < |ys| && KeysOf(row)[j] == k;
    }
    if exists j :: 0 <= j < |ys| && k == Joined(x.0, ys[j].0) {
      var j :| 0 <= j < |ys| && k == Joined(x.0, ys[j].0);
      assert KeysOf(row)[j] == k;
    }
  }

  /** Without collisions, the loops never assign the same key twice. */
  lemma {:induction false} RowsDistinct(xs: seq<(string, string)>, ys: seq<(string, string)>)
    requires Distinct(KeysOf(xs)) && Distinct(KeysOf(ys))
    requires JoinInjective(KeysOf(xs), KeysOf(ys))
    ensures Distinct(KeysOf(Rows(xs, ys)))
  {
    if xs != [] {
      var n := |xs| - 1;
      var front, last := Rows(xs[..n], ys), Row(xs[n], ys);
      PrefixJoinInjective(xs, ys, n);
      RowsDistinct(xs[..n], ys);
      RowDistinct(xs, ys, n);
      RowsRowDisjoint(xs, ys, n);
      DistinctConcat(KeysOf(front), KeysOf(last));
      assert KeysOf(Rows(xs, ys)) == KeysOf(front) + KeysOf(last);
    }
  }

  /** Dropping outer items keeps the keys distinct and the composite keys collision-free. */
  lemma PrefixJoinInjective(xs: seq<(string, string)>, ys: seq<(string, string)>, n: nat)
    requires n <= |xs| && Distinct(KeysOf(xs)) && JoinInjective(KeysOf(xs), KeysOf(ys))
    ensures Distinct(KeysOf(xs[..n])) && JoinInjective(KeysOf(xs[..n]), KeysOf(ys))
  {
    assert KeysOf(xs[..n]) == KeysOf(xs)[..n];
    forall x | x in KeysOf(xs[..n]) ensures x in KeysOf(xs) { }
  }

  /** The inner loop for one outer item assigns distinct keys. */
  lemma RowDistinct(xs: seq<(string, string)>, ys: seq<(string, string)>, n: nat)
    requires n < |xs| && Distinct(KeysOf(ys)) && JoinInjective(KeysOf(xs), KeysOf(ys))
    ensures Distinct(KeysOf(Row(xs[n], ys)))
  {
    var last := Row(xs[n], ys);
    assert KeysOf(xs)[n] == xs[n].0;
    forall p, q | 0 <= p < q < |ys| ensures KeysOf(last)[p] != KeysOf(last)[q] {
      assert KeysOf(ys)[p] == ys[p].0 && KeysOf(ys)[q] == ys[q].0;
    }
  }

  /** The keys of earlier outer items never come back for outer item `n`. */
  lemma RowsRowDisjoint(xs: seq<(string, string)>, ys: seq<(string, string)>, n: nat)
    requires n < |xs| && Distinct(KeysOf(xs)) && JoinInjective(KeysOf(xs), KeysOf(ys))
    ensures forall k :: k in KeysOf(Rows(xs[..n], ys)) ==> k !in KeysOf(Row(xs[n], ys))
  {
    var last := Row(xs[n], ys);
    forall k | k in KeysOf(Rows(xs[..n], ys)) ensures k !in KeysOf(last) {
      RowsKeys(xs[..n], ys, k);
      var i, j :| 0 <= i < n && 0 <= j < |ys| && k == Joined(xs[..n][i].0, ys[j].0);
      assert KeysOf(xs)[i] == xs[i].0 && KeysOf(ys)[j] == ys[j].0 && KeysOf(xs)[n] == xs[n].0;
      forall q | 0 <= q < |ys| ensures KeysOf(last)[q] != k {
        assert KeysOf(ys)[q] == ys[q].0;
      }
    }
  }

  /**
   Every pair of keys of the two inputs yields its composite key in the
   output, and every output key is such a composite.
   */
  lemma CrossMergeKeys(a: Dict, b: Dict, k: string)
    requires a.Wf() && b.Wf()
    ensures k in CrossMerge(a, b).values <==>
            exists i, j :: 0 <= i < a.Len() && 0 <= j < b.Len() && k == Joined(a.keys[i], b.keys[j])
  {
    var xs, ys := Items(a), Items(b);
    RowsKeys(xs, ys, k);
    InsertAllKeys(Empty(), Rows(xs, ys));
    if exists i, j :: 0 <= i < a.Len() && 0 <= j < b.Len() && k == Joined(a.keys[i], b.keys[j]) {
      var i, j :| 0 <= i < a.Len() && 0 <= j < b.Len() && k == Joined(a.keys[i], b.keys[j]);
      assert k == Joined(xs[i].0, ys[j].0);
    }
    if k in KeysOf(Rows(xs, ys)) {
      var i, j :| 0 <= i < |xs| && 0 <= j < |ys| && k == Joined(xs[i].0, ys[j].0);
      assert k == Joined(a.keys[i], b.keys[j]);
    }
  }

  /** An output key names the key pair it was joined from. */
  lemma CrossMergeKeyPair(a: Dict, b: Dict, k: string) returns (i: nat, j: nat)
    requires a.Wf() && b.Wf() && k in CrossMerge(a, b).values
    ensures i < a.Len() && j < b.Len() && k == Joined(a.keys[i], b.keys[j])
  {
    CrossMergeKeys(a, b, k);
    i, j :| 0 <= i < a.Len() && 0 <= j < b.Len() && k == Joined(a.keys[i], b.keys[j]);
  }

  /** Each key pair's composite key is an output key. */
  lemma CrossMergeHasPair(a: Dict, b: Dict, i: nat, j: nat)
    requires a.Wf() && b.Wf() && i < a.Len() && j < b.Len()
    ensures Joined(a.keys[i], b.keys[j]) in CrossMerge(a, b).values
  {
    CrossMergeKeys(a, b, Joined(a.keys[i], b.keys[j]));
  }

  /**
   The output has at most `len(a) * len(b)` entries, and exactly that many
   when no two key pairs give the same composite key.
   */
  lemma CrossMergeLen(a: Dict, b: Dict)
    requires a.Wf() && b.Wf()
    ensures CrossMerge(a, b).Len() <= a.Len() * b.Len()
    ensures JoinInjective(a.keys, b.keys) ==> CrossMerge(a, b).Len() == a.Len() * b.Len()
  {
    var xs, ys := Items(a), Items(b);
    var ps := Rows(xs, ys);
    ItemsOf(a);
    ItemsOf(b);
    RowsLength(xs, ys);
    OffsetIsProduct(|xs|, 0, |ys|);
    InsertAllLen(Empty(), ps);
    if JoinInjective(a.keys, b.keys) {
      RowsDistinct(xs, ys);
      assert Empty().keys + KeysOf(ps) == KeysOf(ps);
      InsertAllFresh(Empty(), ps);
    }
  }

  /** Without collisions the output's order is the loops' order of assignments. */
  lemma CrossMergeInLoopOrder(a: Dict, b: Dict)
    requires a.Wf() && b.Wf() && JoinInjective(a.keys, b.keys)
    ensures CrossMerge(a, b).keys == KeysOf(Rows(Items(a), Items(b)))
  {
    var ps := Rows(Items(a), Items(b));
    RowsDistinct(Items(a), Items(b));
    assert Empty().keys + KeysOf(ps) == KeysOf(ps);
    InsertAllFresh(Empty(), ps);
  }

  /**
   Without collisions the output is ordered first by the first input's keys,
   then by the second's: entry `i * len(b) + j` is the composite of key `i` of `a` and key `j` of `b`.
   */
  lemma CrossMergeOrder(a: Dict, b: Dict, i: nat, j: nat)
    requires a.Wf() && b.Wf() && JoinInjective(a.keys, b.keys)
    requires i < a.Len() && j < b.Len()
    ensures 0 <= i * b.Len() + j < CrossMerge(a, b).Len()
    ensures CrossMerge(a, b).keys[i * b.Len() + j] == Joined(a.keys[i], b.keys[j])
  {
    CrossMergeAt(a, b, i, j);
    OffsetIsProduct(i, j, b.Len());
  }

  /** `CrossMergeOrder` with the position written as `Offset(i, j, len(b))`. */
  lemma CrossMergeAt(a: Dict, b: Dict, i: nat, j: nat)
    requires a.Wf() && b.Wf() && JoinInjective(a.keys, b.keys)
    requires i < a.Len() && j < b.Len()
    ensures Offset(i, j, b.Len()) < CrossMerge(a, b).Len()
    ensures CrossMerge(a, b).keys[Offset(i, j, b.Len())] == Joined(a.keys[i], b.keys[j])
  {
    var xs, ys := Items(a), Items(b);
    CrossMergeInLoopOrder(a, b);
    RowsAt(xs, ys, i, j);
    assert xs[i].0 == KeysOf(xs)[i] && ys[j].0 == KeysOf(ys)[j];
  }

  /**
   The value of a composite key is the joined pair of values of the last
   key pair, in the loops' order, that produces it: a pair no later pair
   collides with keeps `"v1 v2"`.
   */
  lemma CrossMergeLastWins(a: Dict, b: Dict, i: nat, j: nat)
    requires a.Wf() && b.Wf() && i < a.Len() && j < b.Len()
    requires forall i2, j2 ::
      0 <= i2 < a.Len() && 0 <= j2 < b.Len() && (i < i2 || (i == i2 && j < j2))
      ==> Joined(a.keys[i2], b.keys[j2]) != Joined(a.keys[i], b.keys[j])
    ensures Joined(a.keys[i], b.keys[j]) in CrossMerge(a, b).values
    ensures CrossMerge(a, b).values[Joined(a.keys[i], b.keys[j])] ==
            Joined(a.values[a.keys[i]], b.values[b.keys[j]])
  {
    var ps := Rows(Items(a), Items(b));
    LastLoopAssignment(a, b, i, j);
    var t: nat :| LastAssignmentAt(ps, t, Pair(Items(a)[i], Items(b)[j]));
    InsertAllLastWins(Empty(), ps, t);
  }

  /** If no later key pair collides, the assignment for `(i, j)` is the last one to its key. */
  lemma LastLoopAssignment(a: Dict, b: Dict, i: nat, j: nat)
    requires a.Wf() && b.Wf() && i < a.Len() && j < b.Len()
    requires forall i2, j2 ::
      0 <= i2 < a.Len() && 0 <= j2 < b.Len() && (i < i2 || (i == i2 && j < j2))
      ==> Joined(a.keys[i2], b.keys[j2]) != Joined(a.keys[i], b.keys[j])
    ensures exists t: nat :: LastAssignmentAt(Rows(Items(a), Items(b)), t, Pair(Items(a)[i], Items(b)[j]))
  {
    var xs, ys := Items(a), Items(b);
    var ps := Rows(xs, ys);
    var t := Offset(i, j, b.Len());
    RowsAt(xs, ys, i, j);
    assert xs[i].0 == KeysOf(xs)[i] && ys[j].0 == KeysOf(ys)[j];
    forall u | t < u < |ps| ensures ps[u].0 != ps[t].0 {
      var i2, j2 := RowsIndex(xs, ys, u);
      LexOrder(i, j, i2, j2, |ys|);
      assert xs[i2].0 == KeysOf(xs)[i2] && ys[j2].0 == KeysOf(ys)[j2];
    }
    assert LastAssignmentAt(ps, t, Pair(xs[i], ys[j]));
  }

  /** Assignment `t` of `ps` is `p`, and no later assignment is to the same key. */
  predicate LastAssignmentAt(ps: seq<(string, string)>, t: nat, p: (string, string)) {
    t < |ps| && ps[t] == p && forall u :: t < u < |ps| ==> ps[u].0 != p.0
  }

  /** Without collisions every composite key holds `"v1 v2"`. */
  lemma CrossMergeValue(a: Dict, b: Dict, i: nat, j: nat)
    requires a.Wf() && b.Wf() && JoinInjective(a.keys, b.keys)
    requires i < a.Len() && j < b.Len()
    ensures Joined(a.keys[i], b.keys[j]) in CrossMerge(a, b).values
    ensures CrossMerge(a, b).values[Joined(a.keys[i], b.keys[j])] ==
            Joined(a.values[a.keys[i]], b.values[b.keys[j]])
  {
    forall i2, j2 |
      0 <= i2 < a.Len() && 0 <= j2 < b.Len() && (i < i2 || (i == i2 && j < j2))
      ensures Joined(a.keys[i2], b.keys[j2]) != Joined(a.keys[i], b.keys[j])
    {
      assert a.keys[i2] in a.keys && b.keys[j2] in b.keys;
      assert a.keys[i] in a.keys && b.keys[j] in b.keys;
    }
    CrossMergeLastWins(a, b, i, j);
  }

  /** If either input is empty, so is the output. */
  lemma CrossMergeEmpty(a: Dict, b: Dict)
    requires a.Wf() && b.Wf() && (a.Len() == 0 || b.Len() == 0)
    ensures CrossMerge(a, b) == Empty()
  {
    RowsLength(Items(a), Items(b));
    OffsetIsProduct(a.Len(), 0, b.Len());
    assert Rows(Items(a), Items(b)) == [];
  }

  /** Two different key pairs with the same composite key leave fewer than `len(a) * len(b)` entries. */
  lemma CrossMergeCollision(a: Dict, b: Dict, i: nat, j: nat, i2: nat, j2: nat)
    requires a.Wf() && b.Wf()
    requires i < a.Len() && j < b.Len() && i2 < a.Len() && j2 < b.Len() && (i, j) != (i2, j2)
    requires Joined(a.keys[i], b.keys[j]) == Joined(a.keys[i2], b.keys[j2])
    ensures CrossMerge(a, b).Len() < a.Len() * b.Len()
  {
    var xs, ys := Items(a), Items(b);
    assert xs[i].0 == KeysOf(xs)[i] && ys[j].0 == KeysOf(ys)[j];
    assert xs[i2].0 == KeysOf(xs)[i2] && ys[j2].0 == KeysOf(ys)[j2];
    var t, t2 := RowsRepeat(xs, ys, i, j, i2, j2);
    InsertAllLenRepeat(Empty(), Rows(xs, ys), t, t2);
    RowsLength(xs, ys);
    OffsetIsProduct(a.Len(), 0, b.Len());
  }

  /** Two different item pairs with the same composite key make two assignments to it. */
  lemma RowsRepeat(xs: seq<(string, string)>, ys: seq<(string, string)>, i: nat, j: nat, i2: nat, j2: nat)
    returns (t: nat, t2: nat)
    requires i < |xs| && j < |ys| && i2 < |xs| && j2 < |ys| && (i, j) != (i2, j2)
    requires Joined(xs[i].0, ys[j].0) == Joined(xs[i2].0, ys[j2].0)
    ensures t < t2 < |Rows(xs, ys)| && Rows(xs, ys)[t].0 == Rows(xs, ys)[t2].0
  {
    RowsAt(xs, ys, i, j);
    RowsAt(xs, ys, i2, j2);
    t, t2 := Offset(i, j, |ys|), Offset(i2, j2, |ys|);
    OffsetUnique(i, j, i2, j2, |ys|);
    if t2 < t {
      t, t2 := t2, t;
    }
  }

  /** Different `(i, j)` with `j < m` have different positions. */
  lemma {:induction false} OffsetUnique(i: nat, j: nat, i2: nat, j2: nat, m: nat)
    requires j < m && j2 < m && (i, j) != (i2, j2)
    ensures Offset(i, j, m) != Offset(i2, j2, m)
  {
    if i > 0 && i2 > 0 {
      OffsetUnique(i - 1, j, i2 - 1, j2, m);
    } else if i > 0 {
      OffsetShift(i, j, m);
      OffsetShift(i - 1, j, m);
    } else if i2 > 0 {
      OffsetShift(i2, j2, m);
      OffsetShift(i2 - 1, j2, m);
    }
  }

  /**
   A collision: `{"a b": "1", "a": "2"}` joined with `{"c": "3", "b c": "4"}`
   assigns `"a b c"` twice, so the output has three entries, not four, and
   `"a b c"` ends with the later pair's `"2 4"`.
   */
  lemma CollisionOverwrites(a: Dict, b: Dict)
    requires a.keys == ["a b", "a"] && a.values == map["a b" := "1", "a" := "2"]
    requires b.keys == ["c", "b c"] && b.values == map["c" := "3", "b c" := "4"]
    ensures a.Wf() && b.Wf()
    ensures CrossMerge(a, b).Len() < a.Len() * b.Len()
    ensures "a b c" in CrossMerge(a, b).values && CrossMerge(a, b).values["a b c"] == "2 4"
  {
    assert a.Wf() && b.Wf();
    assert Joined(a.keys[0], b.keys[0]) == "a b c" == Joined(a.keys[1], b.keys[1]);
    CrossMergeCollision(a, b, 0, 0, 1, 1);
    CrossMergeLastWins(a, b, 1, 1);
  }

  /**
   A `ReduceOp`: its owned mapping `value_dict` (the insertion order `order`
   and the bindings `entries`) starts empty and is filled by the merge at
   construction.
   */
  class ReduceOp {
    var order: seq<string>
    var entries: map<string, string>
    /** The caller's `merge_func`, or `None` for `default_merge`. */
    const mergeFunc: Option<(Dict, Dict) -> Dict>

    /** The owned mapping as a dict value. */
    function ValueDict(): Dict
      reads this
    {
      Dict(order, entries)
    }

    predicate Valid()
      reads this
    {
      ValueDict().Wf()
    }

    /**
     `ReduceOp(expand_1, expand_2, merge_func)`: the owned mapping starts as
     `{}`; without an override the default merge fills it with the join of the
     two inputs. An override is called with the two inputs only and its result
     is dropped, so the owned mapping stays `{}`.
     */
    constructor (expand1: Dict, expand2: Dict, mergeFunc: Option<(Dict, Dict) -> Dict>)
      requires expand1.Wf() && expand2.Wf()
      ensures this.mergeFunc == mergeFunc && Valid()
      ensures mergeFunc.None? ==> ValueDict() == CrossMerge(expand1, expand2)
      ensures mergeFunc.Some? ==> ValueDict() == Empty()
    {
      this.mergeFunc := mergeFunc;
      order := [];
      entries := map[];
      new;
      if mergeFunc.None? {
        var _ := DefaultMerge(expand1, expand2);
        MergeIntoEmpty(expand1, expand2);
      } else {
        var _ := mergeFunc.value(expand1, expand2);
      }
    }

    /**
     `default_merge`: for every item of the first input, then every item of
     the second, assigns the joined key to the joined value in the owned
     mapping, and returns that mapping.
     */
    method DefaultMerge(expand1: Dict, expand2: Dict) returns (r: Dict)
      requires Valid() && expand1.Wf() && expand2.Wf()
      modifies this
      ensures Valid()
      ensures ValueDict() == Merge(old(ValueDict()), expand1, expand2)
      ensures r == ValueDict()
    {
      ghost var start := ValueDict();
      var items1, items2 := Items(expand1), Items(expand2);
      var i := 0;
      while i < |items1|
        invariant i <= |items1|
        invariant ValueDict() == MergeItems(start, items1[..i], items2)
      {
        MergeRow(items1[i], items2);
        assert ValueDict() == MergeItems(start, items1[..i + 1], items2) by {
          MergeItemsSnoc(start, items1, items2, i);
        }
        i := i + 1;
      }
      assert ValueDict() == MergeItems(start, items1, items2) by {
        assert items1[..i] == items1;
      }
      MergeItemsWf(start, items1, items2);
      r := ValueDict();
    }

    /** The inner loop of `default_merge` for one item `(k1, v1)` of the first input. */
    method MergeRow(item1: (string, string), items2: seq<(string, string)>)
      modifies this
      ensures ValueDict() == InsertAll(old(ValueDict()), Row(item1, items2))
    {
      ghost var start := ValueDict();
      var (k1, v1) := item1;
      var j := 0;
      while j < |items2|
        invariant j <= |items2|
        invariant ValueDict() == InsertAll(start, Row(item1, items2[..j]))
      {
        var (k2, v2) := items2[j];
        var k, v := Joined(k1, k2), Joined(v1, v2);
        ghost var before := ValueDict();
        if k !in entries {
          order := order + [k];
        }
        entries := entries[k := v];
        assert ValueDict() == Insert(before, k, v);
        assert ValueDict() == InsertAll(start, Row(item1, items2[..j + 1])) by {
          RowSnoc(item1, items2, j);
          InsertAllSnoc(start, Row(item1, items2[..j]), Pair(item1, items2[j]));
        }
        j := j + 1;
      }
      assert items2[..j] == items2;
    }
  }
}
