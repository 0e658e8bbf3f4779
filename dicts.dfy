/** Python's `dict` as the program uses it: an insertion-ordered mapping.
    Assigning to a key already present replaces its value and keeps its
    position; assigning to a new key appends it. */
module Dicts {
  import opened Seqs

  datatype Option<T> = None | Some(value: T)

  ghost predicate UniqueKeys<K, V>(d: seq<(K, V)>) {
    forall i, j :: 0 <= i < j < |d| ==> d[i].0 != d[j].0
  }

  type Dict<K, V> = d: seq<(K, V)> | UniqueKeys(d) witness []

  /** `list(d.keys())`, in insertion order. */
  function Keys<K, V>(d: seq<(K, V)>): (r: seq<K>)
    ensures |r| == |d|
    ensures forall i :: 0 <= i < |d| ==> r[i] == d[i].0
  {
    seq(|d|, i requires 0 <= i < |d| => d[i].0)
  }

  ghost function KeySet<K, V>(d: seq<(K, V)>): set<K> {
    set i | 0 <= i < |d| :: d[i].0
  }

  lemma KeySetCons<K, V>(d: seq<(K, V)>)
    requires |d| > 0
    ensures KeySet(d) == {d[0].0} + KeySet(d[1..])
  {
    forall k | k in KeySet(d) ensures k in {d[0].0} + KeySet(d[1..]) {
      var i :| 0 <= i < |d| && d[i].0 == k;
      if i > 0 { assert d[1..][i - 1].0 == k; }
    }
    forall k | k in KeySet(d[1..]) ensures k in KeySet(d) {
      var i :| 0 <= i < |d[1..]| && d[1..][i].0 == k;
      assert d[i + 1].0 == k;
    }
  }

  /** Position of the first entry for `k`, or -1 when there is none. */
  function IndexOf<K(==), V>(d: seq<(K, V)>, k: K): (i: int)
    ensures -1 <= i < |d|
    ensures i >= 0 ==> d[i].0 == k && forall j :: 0 <= j < i ==> d[j].0 != k
    ensures i < 0 <==> k !in KeySet(d)
  {
    if |d| == 0 then -1
    else if d[0].0 == k then 0
    else
      var i := IndexOf(d[1..], k);
      KeySetCons(d);
      if i < 0 then -1 else i + 1
  }

  /** `d.get(k)`. */
  function Get<K(==), V>(d: seq<(K, V)>, k: K): (r: Option<V>)
    ensures r.None? <==> k !in KeySet(d)
  {
    var i := IndexOf(d, k);
    if i < 0 then None else Some(d[i].1)
  }

  /** Looking up the key of an entry finds that entry's value. */
  lemma GetAt<K, V>(d: Dict<K, V>, i: int)
    requires 0 <= i < |d|
    ensures Get(d, d[i].0) == Some(d[i].1)
  {
    var j := IndexOf(d, d[i].0);
    assert j >= 0 && d[j].0 == d[i].0;
  }

  /** `d[k] = v`. */
  function Put<K(==,!new), V>(d: Dict<K, V>, k: K, v: V): (r: Dict<K, V>)
    ensures Get(r, k) == Some(v)
    ensures Keys(r) == if k in KeySet(d) then Keys(d) else Keys(d) + [k]
    ensures KeySet(r) == KeySet(d) + {k}
  {
    var i := IndexOf(d, k);
    if i >= 0 then
      var r := d[i := (k, v)];
      assert Keys(r) == Keys(d);
      assert KeySet(r) == KeySet(d) by {
        assert forall j :: 0 <= j < |d| ==> r[j].0 == d[j].0;
      }
      r
    else
      var r := d + [(k, v)];
      assert Keys(r) == Keys(d) + [k];
      assert KeySet(r) == KeySet(d) + {k} by {
        assert forall j :: 0 <= j < |d| ==> r[j].0 == d[j].0;
        assert r[|d|].0 == k;
      }
      r
  }

  lemma PutSame<K(!new), V>(d: Dict<K, V>, k: K, v: V)
    ensures Get(Put(d, k, v), k) == Some(v)
  {
  }

  /** `d[k] = v` leaves every other key's value alone. */
  lemma PutOther<K(!new), V>(d: Dict<K, V>, k: K, v: V, other: K)
    requires other != k
    ensures Get(Put(d, k, v), other) == Get(d, other)
  {
    var r := Put(d, k, v);
    if other in KeySet(d) {
      var j :| 0 <= j < |d| && d[j].0 == other;
      assert r[j] == d[j];
      GetAt(d, j);
      GetAt(r, j);
    } else {
      assert other !in KeySet(r);
    }
  }

  /** `d[k] = v` keeps the other entries and adds or replaces one. */
  lemma PutEntries<K(!new), V>(d: Dict<K, V>, k: K, v: V)
    ensures forall e :: e in Put(d, k, v) ==> e == (k, v) || e in d
  {
    var i := IndexOf(d, k);
    var r := Put(d, k, v);
    forall e | e in r ensures e == (k, v) || e in d {
      var j :| 0 <= j < |r| && r[j] == e;
      if i >= 0 {
        assert r == d[i := (k, v)];
        if j != i { assert e == d[j]; }
      } else {
        assert r == d + [(k, v)];
        if j < |d| { assert e == d[j]; }
      }
    }
  }

  /** A dict's key list has no repetitions. */
  lemma KeysDistinct<K, V>(d: Dict<K, V>)
    ensures forall i, j :: 0 <= i < j < |d| ==> Keys(d)[i] != Keys(d)[j]
    ensures KeySet(d) == set k | k in Keys(d)
  {
    assert forall k :: k in KeySet(d) ==> k in Keys(d) by {
      forall k | k in KeySet(d) ensures k in Keys(d) {
        var i :| 0 <= i < |d| && d[i].0 == k;
        assert Keys(d)[i] == k;
      }
    }
  }

  /** The dict built by assigning `d[ks[i]] = vs[i]` for each `i` in turn,
      starting from `{}`. */
  function Assign<K(==,!new), V>(ks: seq<K>, vs: seq<V>): Dict<K, V>
    requires |ks| == |vs|
  {
    if |ks| == 0 then []
    else
      var n := |ks| - 1;
      Put(Assign(ks[..n], vs[..n]), ks[n], vs[n])
  }

  /** One more assignment extends the fold by one step. */
  lemma AssignSnoc<K(!new), V>(ks: seq<K>, vs: seq<V>, i: int)
    requires |ks| == |vs| && 0 <= i < |ks|
    ensures Assign(ks[..i + 1], vs[..i + 1]) == Put(Assign(ks[..i], vs[..i]), ks[i], vs[i])
  {
    assert ks[..i + 1][..i] == ks[..i] && vs[..i + 1][..i] == vs[..i];
  }

  /** Every value in the dict is one of the assigned values. */
  lemma {:induction false} AssignValues<K(!new), V>(ks: seq<K>, vs: seq<V>)
    requires |ks| == |vs|
    ensures forall e :: e in Assign(ks, vs) ==> e.1 in vs
  {
    if |ks| > 0 {
      var n := |ks| - 1;
      var d := Assign(ks[..n], vs[..n]);
      AssignValues(ks[..n], vs[..n]);
      PutEntries(d, ks[n], vs[n]);
      assert Assign(ks, vs) == Put(d, ks[n], vs[n]);
      forall e | e in Assign(ks, vs) ensures e.1 in vs {
        if e in d {
          assert e.1 in vs[..n];
        } else {
          assert e.1 == vs[n];
        }
      }
    }
  }

  /** The keys are the assigned keys in order of first assignment, each once. */
  lemma {:induction false} AssignKeys<K(!new), V>(ks: seq<K>, vs: seq<V>)
    requires |ks| == |vs|
    ensures Keys(Assign(ks, vs)) == Dedup(ks)
    ensures KeySet(Assign(ks, vs)) == Elements(ks)
  {
    if |ks| > 0 {
      var n := |ks| - 1;
      var init, values := ks[..n], vs[..n];
      var d := Assign(init, values);
      AssignKeys(init, values);
      assert Assign(ks, vs) == Put(d, ks[n], vs[n]);
      assert ks[n] in KeySet(d) <==> ks[n] in Dedup(init);
      ElementsSnoc(ks);
    }
  }

  /** There are as many entries as distinct keys. */
  lemma AssignSize<K(!new), V>(ks: seq<K>, vs: seq<V>)
    requires |ks| == |vs|
    ensures |Assign(ks, vs)| == |Elements(ks)|
  {
    AssignKeys(ks, vs);
    DistinctCardinality(Dedup(ks));
    assert Elements(Dedup(ks)) == Elements(ks);
  }

  /** The last assignment is the one that is looked up. */
  lemma AssignLast<K(!new), V>(ks: seq<K>, vs: seq<V>)
    requires |ks| == |vs| && |ks| > 0
    ensures Get(Assign(ks, vs), ks[|ks| - 1]) == Some(vs[|vs| - 1])
  {
    var n := |ks| - 1;
    PutSame(Assign(ks[..n], vs[..n]), ks[n], vs[n]);
  }

  /** An earlier assignment survives a later one to another key. */
  lemma AssignEarlier<K(!new), V>(ks: seq<K>, vs: seq<V>, i: int)
    requires |ks| == |vs| && 0 <= i < |ks| - 1
    requires ks[|ks| - 1] != ks[i]
    requires Get(Assign(ks[..|ks| - 1], vs[..|vs| - 1]), ks[i]) == Some(vs[i])
    ensures Get(Assign(ks, vs), ks[i]) == Some(vs[i])
  {
    var n := |ks| - 1;
    PutOther(Assign(ks[..n], vs[..n]), ks[n], vs[n], ks[i]);
  }

  /** A key maps to the value of its last assignment. */
  lemma {:induction false} AssignLastWins<K(!new), V>(ks: seq<K>, vs: seq<V>, i: int)
    requires |ks| == |vs| && 0 <= i < |ks|
    requires forall j :: i < j < |ks| ==> ks[j] != ks[i]
    ensures Get(Assign(ks, vs), ks[i]) == Some(vs[i])
  {
    var n := |ks| - 1;
    if i == n {
      AssignLast(ks, vs);
    } else {
      var init, values := ks[..n], vs[..n];
      assert init[i] == ks[i] && values[i] == vs[i];
      assert forall j :: i < j < |init| ==> init[j] != init[i] by {
        assert forall j :: i < j < |init| ==> init[j] == ks[j];
      }
      AssignLastWins(init, values, i);
      AssignEarlier(ks, vs, i);
    }
  }
}
