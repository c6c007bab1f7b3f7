/** The usual optional value; `None` stands for Python's `None` argument. */
module Options {

  datatype Option<+T> = None | Some(value: T)
}

/**
 This module models Python's `dict` as the core uses it: an insertion-ordered
 mapping from string keys to string values, updated by item assignment.
 */
module Dicts {

  /** `keys` is the iteration (insertion) order, `values` the binding of each key. */
  datatype Dict = Dict(keys: seq<string>, values: map<string, string>) {

    /** Keys are unique, and the order lists exactly the bound keys. */
    predicate Wf() {
      && Distinct(keys)
      && (forall k :: k in values ==> k in keys)
      && (forall i :: 0 <= i < |keys| ==> keys[i] in values)
    }

    /** `len(d)` */
    function Len(): nat {
      |keys|
    }
  }

  predicate Distinct(s: seq<string>) {
    forall i, j :: 0 <= i < j < |s| ==> s[i] != s[j]
  }

  /** `{}` */
  function Empty(): (d: Dict)
    ensures d.Wf() && d.Len() == 0
    ensures forall k :: k !in d.values
  {
    Dict([], map[])
  }

  /** The keys of a sequence of key/value pairs, in order. */
  function KeysOf(ps: seq<(string, string)>): (ks: seq<string>)
    ensures |ks| == |ps|
    ensures forall i :: 0 <= i < |ps| ==> ks[i] == ps[i].0
  {
    seq(|ps|, i requires 0 <= i < |ps| => ps[i].0)
  }

  /** `d.items()`: the pairs of `d` in iteration order. */
  function Items(d: Dict): seq<(string, string)>
    requires d.Wf()
  {
    seq(|d.keys|, i requires 0 <= i < |d.keys| => (d.keys[i], d.values[d.keys[i]]))
  }

  /** `d.items()` lists every key of `d` in order, each with its value. */
  lemma ItemsOf(d: Dict)
    requires d.Wf()
    ensures KeysOf(Items(d)) == d.keys
    ensures forall i :: 0 <= i < |Items(d)| ==> Items(d)[i].1 == d.values[d.keys[i]]
  {
  }

  /** `d[k] = v` */
  function Insert(d: Dict, k: string, v: string): (r: Dict)
    ensures k in r.values && r.values[k] == v
  {
    Dict(if k in d.values then d.keys else d.keys + [k], d.values[k := v])
  }

  /** Assignment keeps a dict well formed. */
  lemma InsertWf(d: Dict, k: string, v: string)
    requires d.Wf()
    ensures Insert(d, k, v).Wf()
  {
    if k !in d.values {
      assert k !in d.keys;
      DistinctConcat(d.keys, [k]);
    }
  }

  /** The assignments `d[k] = v` for every `(k, v)` of `ps`, first to last. */
  function InsertAll(d: Dict, ps: seq<(string, string)>): Dict
    decreases |ps|
  {
    if ps == [] then d
    else
      var n := |ps| - 1;
      Insert(InsertAll(d, ps[..n]), ps[n].0, ps[n].1)
  }

  /** After the assignments, the bound keys are the old ones and the assigned ones. */
  lemma {:induction false} InsertAllKeys(d: Dict, ps: seq<(string, string)>)
    ensures forall k :: k in InsertAll(d, ps).values <==> k in d.values || k in KeysOf(ps)
    decreases |ps|
  {
    if ps != [] {
      var n := |ps| - 1;
      assert KeysOf(ps) == KeysOf(ps[..n]) + [ps[n].0];
      InsertAllKeys(d, ps[..n]);
    }
  }

  /** Assignments keep a dict well formed. */
  lemma {:induction false} InsertAllWf(d: Dict, ps: seq<(string, string)>)
    requires d.Wf()
    ensures InsertAll(d, ps).Wf()
    decreases |ps|
  {
    if ps != [] {
      var n := |ps| - 1;
      InsertAllWf(d, ps[..n]);
      InsertWf(InsertAll(d, ps[..n]), ps[n].0, ps[n].1);
    }
  }

  /** One more assignment after a sequence of them. */
  lemma InsertAllSnoc(d: Dict, ps: seq<(string, string)>, p: (string, string))
    ensures InsertAll(d, ps + [p]) == Insert(InsertAll(d, ps), p.0, p.1)
  {
    assert (ps + [p])[..|ps|] == ps;
  }

  /** Two sequences of assignments run one after the other. */
  lemma {:induction false} InsertAllAppend(d: Dict, ps: seq<(string, string)>, qs: seq<(string, string)>)
    ensures InsertAll(d, ps + qs) == InsertAll(InsertAll(d, ps), qs)
    decreases |qs|
  {
    if qs == [] {
      assert ps + qs == ps;
    } else {
      var n := |qs| - 1;
      assert (ps + qs)[..|ps + qs| - 1] == ps + qs[..n];
      InsertAllAppend(d, ps, qs[..n]);
    }
  }

  /** The last assignment to a key decides its value. */
  lemma {:induction false} InsertAllLastWins(d: Dict, ps: seq<(string, string)>, t: nat)
    requires t < |ps|
    requires forall u :: t < u < |ps| ==> ps[u].0 != ps[t].0
    ensures ps[t].0 in InsertAll(d, ps).values
    ensures InsertAll(d, ps).values[ps[t].0] == ps[t].1
  {
    var n := |ps| - 1;
    if t < n {
      InsertAllLastWins(d, ps[..n], t);
    }
  }

  /** A key that no pair assigns keeps its value. */
  lemma {:induction false} InsertAllUntouched(d: Dict, ps: seq<(string, string)>, k: string)
    requires k in d.values && k !in KeysOf(ps)
    ensures k in InsertAll(d, ps).values && InsertAll(d, ps).values[k] == d.values[k]
  {
    InsertAllKeys(d, ps);
    if ps != [] {
      var n := |ps| - 1;
      assert KeysOf(ps) == KeysOf(ps[..n]) + [ps[n].0];
      InsertAllUntouched(d, ps[..n], k);
    }
  }

  /** Without repeated keys, every assignment appends its key to the order. */
  lemma {:induction false} InsertAllFresh(d: Dict, ps: seq<(string, string)>)
    requires d.Wf() && Distinct(d.keys + KeysOf(ps))
    ensures InsertAll(d, ps).keys == d.keys + KeysOf(ps)
  {
    if ps != [] {
      var n := |ps| - 1;
      assert KeysOf(ps) == KeysOf(ps[..n]) + [ps[n].0];
      assert d.keys + KeysOf(ps) == (d.keys + KeysOf(ps[..n])) + [ps[n].0];
      assert Distinct(d.keys + KeysOf(ps[..n])) by {
        var s := d.keys + KeysOf(ps[..n]);
        forall i, j | 0 <= i < j < |s| ensures s[i] != s[j] {
          assert s[i] == (d.keys + KeysOf(ps))[i] && s[j] == (d.keys + KeysOf(ps))[j];
        }
      }
      InsertAllFresh(d, ps[..n]);
      InsertAllKeys(d, ps[..n]);
      var prev := d.keys + KeysOf(ps[..n]);
      assert ps[n].0 !in prev by {
        forall i | 0 <= i < |prev| ensures prev[i] != ps[n].0 {
          assert (d.keys + KeysOf(ps))[i] == prev[i];
          assert (d.keys + KeysOf(ps))[|prev|] == ps[n].0;
        }
      }
    }
  }

  /** The two parts of a sequence without repetitions share no element. */
  lemma DistinctAppend(s: seq<string>, t: seq<string>)
    requires Distinct(s + t)
    ensures forall k :: k in s ==> k !in t
  {
    forall i, j | 0 <= i < |s| && 0 <= j < |t| ensures s[i] != t[j] {
      assert (s + t)[i] == s[i] && (s + t)[|s| + j] == t[j];
    }
  }

  /** Two sequences without repetitions and without common elements concatenate to one. */
  lemma DistinctConcat(s: seq<string>, t: seq<string>)
    requires Distinct(s) && Distinct(t)
    requires forall k :: k in s ==> k !in t
    ensures Distinct(s + t)
  {
    forall i, j | 0 <= i < j < |s + t| ensures (s + t)[i] != (s + t)[j] {
      if j < |s| {
        assert (s + t)[i] == s[i] && (s + t)[j] == s[j];
      } else if i < |s| {
        assert (s + t)[i] == s[i] && (s + t)[j] == t[j - |s|];
        assert s[i] in s && t[j - |s|] in t;
      } else {
        assert (s + t)[i] == t[i - |s|] && (s + t)[j] == t[j - |s|];
      }
    }
  }

  /** Each assignment adds at most one key. */
  lemma {:induction false} InsertAllLen(d: Dict, ps: seq<(string, string)>)
    ensures InsertAll(d, ps).Len() <= d.Len() + |ps|
  {
    if ps != [] {
      InsertAllLen(d, ps[..|ps| - 1]);
    }
  }

  /** The last assignment adds an entry exactly when its key is new. */
  lemma InsertAllLast(d: Dict, ps: seq<(string, string)>)
    requires ps != []
    ensures var prev := InsertAll(d, ps[..|ps| - 1]);
      InsertAll(d, ps).Len() == prev.Len() + (if ps[|ps| - 1].0 in prev.values then 0 else 1)
  {
  }

  /** Two assignments to the same key add at most one entry between them. */
  lemma InsertAllLenRepeat(d: Dict, ps: seq<(string, string)>, t1: nat, t2: nat)
    requires t1 < t2 < |ps| && ps[t1].0 == ps[t2].0
    ensures InsertAll(d, ps).Len() < d.Len() + |ps|
  {
    var front, back := ps[..t2 + 1], ps[t2 + 1..];
    var mid := InsertAll(d, front);
    assert mid.Len() < d.Len() + |front| by {
      assert front[t1] == ps[t1] && front[t2] == ps[t2];
      RepeatedLast(d, front, t1);
    }
    assert InsertAll(mid, back).Len() <= mid.Len() + |back| by {
      InsertAllLen(mid, back);
    }
    assert InsertAll(d, ps) == InsertAll(mid, back) by {
      assert ps == front + back;
      InsertAllAppend(d, front, back);
    }
  }

  /** An assignment to a key assigned before adds no entry. */
  lemma RepeatedLast(d: Dict, ps: seq<(string, string)>, t1: nat)
    requires t1 < |ps| - 1 && ps[t1].0 == ps[|ps| - 1].0
    ensures InsertAll(d, ps).Len() < d.Len() + |ps|
  {
    var n := |ps| - 1;
    InsertAllLen(d, ps[..n]);
    InsertAllKeys(d, ps[..n]);
    assert ps[n].0 in KeysOf(ps[..n]) by {
      assert KeysOf(ps[..n])[t1] == ps[n].0;
    }
    InsertAllLast(d, ps);
  }

  /** A sequence without repetitions has as many distinct elements as entries. */
  lemma {:induction false} DistinctCount(s: seq<string>)
    requires Distinct(s)
    ensures |set k | k in s| == |s|
  {
    if s != [] {
      var n := |s| - 1;
      assert Distinct(s[..n]);
      DistinctCount(s[..n]);
      assert (set k | k in s) == (set k | k in s[..n]) + {s[n]};
      assert s[n] !in (set k | k in s[..n]);
    }
  }

  /** `len(d)` is both the length of the order and the number of bound keys. */
  lemma LenIsCount(d: Dict)
    requires d.Wf()
    ensures |d.values| == d.Len()
  {
    DistinctCount(d.keys);
    assert d.values.Keys == set k | k in d.keys;
  }
}
