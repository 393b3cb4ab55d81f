/** pandas' `merge(..., how='left')` on sequences of rows: every left row, in
    order, paired with each right value its key finds (in the right table's
    order), or once with a missing value when its key finds nothing. */
module Joins {
  import opened Common

  /** The values of the rows whose key is `k`, in table order. */
  function Lookup<R, K(==), V>(rows: seq<R>, key: R -> K, k: K, val: R -> V): seq<V>
    decreases |rows|
  {
    if rows == [] then []
    else (if key(rows[0]) == k then [val(rows[0])] else []) + Lookup(rows[1..], key, k, val)
  }

  /** No two rows share a key. */
  predicate UniqueKeys<R, K(==)>(rows: seq<R>, key: R -> K)
  {
    forall i, j :: 0 <= i < j < |rows| ==> key(rows[i]) != key(rows[j])
  }

  /** The one value of a lookup that found at most one row, or missing. */
  function First<V>(vs: seq<V>): Option<V>
  {
    if vs == [] then None else Some(vs[0])
  }

  /** One left row paired with each value found for it, or once with a
      missing value. */
  function Expand<L, V>(l: L, vs: seq<V>): (r: seq<(L, Option<V>)>)
    ensures |r| == if vs == [] then 1 else |vs|
    ensures forall k :: 0 <= k < |r| ==> r[k].0 == l
    ensures vs == [] ==> r == [(l, None)]
    ensures forall k :: 0 <= k < |vs| ==> r[k].1 == Some(vs[k])
  {
    if vs == [] then [(l, None)]
    else seq(|vs|, k requires 0 <= k < |vs| => (l, Some(vs[k])))
  }

  /** The left merge of `left` with the values `hits` finds for each row. */
  function LeftJoin<L, V>(left: seq<L>, hits: L -> seq<V>): (r: seq<(L, Option<V>)>)
    ensures |r| >= |left|
    decreases |left|
  {
    if left == [] then []
    else Expand(left[0], hits(left[0])) + LeftJoin(left[1..], hits)
  }

  /** A value is found for `k` exactly when some row has key `k` and that value. */
  lemma {:induction false} LookupFinds<R, K, V>(rows: seq<R>, key: R -> K, k: K, val: R -> V, v: V)
    ensures v in Lookup(rows, key, k, val) <==>
      exists i :: 0 <= i < |rows| && key(rows[i]) == k && val(rows[i]) == v
    decreases |rows|
  {
    if rows != [] {
      LookupFinds(rows[1..], key, k, val, v);
      if v in Lookup(rows[1..], key, k, val) {
        var i :| 0 <= i < |rows[1..]| && key(rows[1..][i]) == k && val(rows[1..][i]) == v;
        assert key(rows[i + 1]) == k && val(rows[i + 1]) == v;
      }
      if exists i :: 0 <= i < |rows| && key(rows[i]) == k && val(rows[i]) == v {
        var i :| 0 <= i < |rows| && key(rows[i]) == k && val(rows[i]) == v;
        if i > 0 {
          assert key(rows[1..][i - 1]) == k && val(rows[1..][i - 1]) == v;
        }
      }
    }
  }

  /** When no row has key `k` the lookup finds nothing. */
  lemma {:induction false} LookupMiss<R, K, V>(rows: seq<R>, key: R -> K, k: K, val: R -> V)
    requires forall i :: 0 <= i < |rows| ==> key(rows[i]) != k
    ensures Lookup(rows, key, k, val) == []
    decreases |rows|
  {
    if rows != [] {
      LookupMiss(rows[1..], key, k, val);
    }
  }

  /** With unique keys a lookup finds at most one value. */
  lemma {:induction false} LookupUnique<R, K, V>(rows: seq<R>, key: R -> K, k: K, val: R -> V)
    requires UniqueKeys(rows, key)
    ensures |Lookup(rows, key, k, val)| <= 1
    decreases |rows|
  {
    if rows != [] {
      if key(rows[0]) == k {
        forall i | 0 <= i < |rows[1..]| ensures key(rows[1..][i]) != k {
          assert key(rows[0]) != key(rows[i + 1]);
        }
        LookupMiss(rows[1..], key, k, val);
      } else {
        LookupUnique(rows[1..], key, k, val);
      }
    }
  }

  /** Every output row comes from a left row; it carries a value exactly when
      that value was found for that row, and a missing value only when
      nothing was found. */
  lemma {:induction false} LeftJoinRows<L, V>(left: seq<L>, hits: L -> seq<V>, j: int)
    requires 0 <= j < |LeftJoin(left, hits)|
    ensures LeftJoin(left, hits)[j].0 in left
    ensures LeftJoin(left, hits)[j].1.Some? ==>
      LeftJoin(left, hits)[j].1.value in hits(LeftJoin(left, hits)[j].0)
    ensures LeftJoin(left, hits)[j].1.None? ==> hits(LeftJoin(left, hits)[j].0) == []
    decreases |left|
  {
    var e := Expand(left[0], hits(left[0]));
    if j >= |e| {
      LeftJoinRows(left[1..], hits, j - |e|);
    }
  }

  /** No left row is dropped: each one appears in the output, and with a
      missing value when nothing was found for it. */
  lemma {:induction false} LeftJoinKeepsRows<L, V>(left: seq<L>, hits: L -> seq<V>, i: int)
    requires 0 <= i < |left|
    ensures exists j :: 0 <= j < |LeftJoin(left, hits)| && LeftJoin(left, hits)[j].0 == left[i]
    ensures hits(left[i]) == [] ==>
      exists j :: 0 <= j < |LeftJoin(left, hits)| && LeftJoin(left, hits)[j] == (left[i], None)
    decreases |left|
  {
    var e := Expand(left[0], hits(left[0]));
    var r := LeftJoin(left, hits);
    if i == 0 {
      assert r[0] == e[0];
    } else {
      LeftJoinKeepsRows(left[1..], hits, i - 1);
      var j :| 0 <= j < |LeftJoin(left[1..], hits)| && LeftJoin(left[1..], hits)[j].0 == left[i];
      assert r[|e| + j] == LeftJoin(left[1..], hits)[j];
      if hits(left[i]) == [] {
        var j' :| 0 <= j' < |LeftJoin(left[1..], hits)| && LeftJoin(left[1..], hits)[j'] == (left[i], None);
        assert r[|e| + j'] == LeftJoin(left[1..], hits)[j'];
      }
    }
  }

  /** When every left row finds at most one value, the merge has exactly one
      row per left row, in order, carrying that value or a missing one. */
  lemma {:induction false} LeftJoinOneToOne<L, V>(left: seq<L>, hits: L -> seq<V>)
    requires forall i :: 0 <= i < |left| ==> |hits(left[i])| <= 1
    ensures |LeftJoin(left, hits)| == |left|
    ensures forall i :: 0 <= i < |left| ==> LeftJoin(left, hits)[i] == (left[i], First(hits(left[i])))
    decreases |left|
  {
    if left != [] {
      LeftJoinOneToOne(left[1..], hits);
      var e := Expand(left[0], hits(left[0]));
      assert e == [(left[0], First(hits(left[0])))];
      forall i | 0 <= i < |left| ensures LeftJoin(left, hits)[i] == (left[i], First(hits(left[i]))) {
        if i > 0 {
          assert left[1..][i - 1] == left[i];
        }
      }
    }
  }
}
