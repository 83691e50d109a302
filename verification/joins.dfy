/** Left joins of the row stream with a reference table, as `join(..., how="left")` performs them:
    each left row is paired with every matching right row, or with null when none matches. */
module Joins {
  import opened Wrappers

  /** The right rows whose key is `key`, in table order. */
  function Matching<R, K(==)>(right: seq<R>, key: K, rk: R -> K): (ms: seq<R>)
    ensures forall i :: 0 <= i < |ms| ==> rk(ms[i]) == key && ms[i] in right
    ensures forall j :: 0 <= j < |right| && rk(right[j]) == key ==> right[j] in ms
  {
    if right == [] then []
    else
      var rest := Matching(right[1..], key, rk);
      assert forall j :: 1 <= j < |right| ==> right[j] == right[1..][j - 1];
      if rk(right[0]) == key then [right[0]] + rest else rest
  }

  /** The join output for a single left row: one pair per match, or one pair with null. */
  function JoinOne<L, R, K(==)>(l: L, right: seq<R>, lk: L -> K, rk: R -> K): (r: seq<(L, Option<R>)>)
    ensures |r| >= 1
  {
    var ms := Matching(right, lk(l), rk);
    if ms == [] then [(l, None)] else seq(|ms|, i requires 0 <= i < |ms| => (l, Some(ms[i])))
  }

  /** A left join. */
  function LeftJoin<L, R, K(==)>(left: seq<L>, right: seq<R>, lk: L -> K, rk: R -> K): (r: seq<(L, Option<R>)>)
    ensures |r| >= |left|
  {
    if left == [] then [] else JoinOne(left[0], right, lk, rk) + LeftJoin(left[1..], right, lk, rk)
  }

  /** What each joined pair holds: a left row, and either a right row with the same key or null
      exactly when no right row has that key. */
  lemma {:induction false} LeftJoinPairs<L, R, K>(left: seq<L>, right: seq<R>, lk: L -> K, rk: R -> K)
    ensures forall p :: p in LeftJoin(left, right, lk, rk) ==> p.0 in left
    ensures forall p :: p in LeftJoin(left, right, lk, rk) && p.1.Some? ==> p.1.value in right && rk(p.1.value) == lk(p.0)
    ensures forall p :: p in LeftJoin(left, right, lk, rk) && p.1.None? ==> forall j :: 0 <= j < |right| ==> rk(right[j]) != lk(p.0)
  {
    if left != [] {
      LeftJoinPairs(left[1..], right, lk, rk);
      var one := JoinOne(left[0], right, lk, rk);
      var ms := Matching(right, lk(left[0]), rk);
      forall p | p in one
        ensures p.0 == left[0]
        ensures p.1.Some? ==> p.1.value in right && rk(p.1.value) == lk(p.0)
        ensures p.1.None? ==> forall j :: 0 <= j < |right| ==> rk(right[j]) != lk(p.0)
      {
        if ms != [] {
          var i :| 0 <= i < |ms| && one[i] == p;
        }
      }
      assert forall p :: p in LeftJoin(left, right, lk, rk) ==> p in one || p in LeftJoin(left[1..], right, lk, rk);
    }
  }

  /** A miss never drops a row: every left row appears in the join output. */
  lemma {:induction false} LeftJoinKeepsRows<L, R, K>(left: seq<L>, right: seq<R>, lk: L -> K, rk: R -> K)
    ensures forall l :: l in left ==> exists p :: p in LeftJoin(left, right, lk, rk) && p.0 == l
  {
    if left != [] {
      LeftJoinKeepsRows(left[1..], right, lk, rk);
      var r := LeftJoin(left, right, lk, rk);
      var one := JoinOne(left[0], right, lk, rk);
      assert r[0] == one[0] && one[0].0 == left[0];
      forall l | l in left ensures exists p :: p in r && p.0 == l {
        if l != left[0] {
          assert l in left[1..];
          var p :| p in LeftJoin(left[1..], right, lk, rk) && p.0 == l;
          assert p in r;
        }
      }
    }
  }

  /** The join keeps the left order: it distributes over concatenation. */
  lemma {:induction false} LeftJoinConcat<L, R, K>(a: seq<L>, b: seq<L>, right: seq<R>, lk: L -> K, rk: R -> K)
    ensures LeftJoin(a + b, right, lk, rk) == LeftJoin(a, right, lk, rk) + LeftJoin(b, right, lk, rk)
  {
    if a == [] {
      assert a + b == b;
    } else {
      assert (a + b)[1..] == a[1..] + b;
      LeftJoinConcat(a[1..], b, right, lk, rk);
    }
  }

  /** No two right rows share a key. */
  predicate UniqueKeys<R, K(==)>(right: seq<R>, rk: R -> K)
  {
    forall i, j :: 0 <= i < j < |right| ==> rk(right[i]) != rk(right[j])
  }

  /** The right row with key `key`, if any (the first one when keys repeat). */
  function Lookup<R, K(==)>(right: seq<R>, key: K, rk: R -> K): (r: Option<R>)
    ensures r.Some? ==> r.value in right && rk(r.value) == key
    ensures r.None? ==> forall j :: 0 <= j < |right| ==> rk(right[j]) != key
  {
    var ms := Matching(right, key, rk);
    if ms == [] then None else Some(ms[0])
  }

  lemma {:induction false} MatchingNone<R, K>(right: seq<R>, key: K, rk: R -> K)
    requires forall j :: 0 <= j < |right| ==> rk(right[j]) != key
    ensures Matching(right, key, rk) == []
  {
    if right != [] {
      MatchingNone(right[1..], key, rk);
    }
  }

  lemma {:induction false} MatchingUnique<R, K>(right: seq<R>, key: K, rk: R -> K)
    requires UniqueKeys(right, rk)
    ensures |Matching(right, key, rk)| <= 1
  {
    if right != [] {
      MatchingUnique(right[1..], key, rk);
      if rk(right[0]) == key {
        forall j | 0 <= j < |right| - 1 ensures rk(right[1..][j]) != key {
          assert right[1..][j] == right[j + 1];
        }
        MatchingNone(right[1..], key, rk);
      }
    }
  }

  /** With unique right keys a left join is one-to-one: the i-th output is the i-th row with its lookup. */
  lemma {:induction false} LeftJoinUnique<L, R, K>(left: seq<L>, right: seq<R>, lk: L -> K, rk: R -> K)
    requires UniqueKeys(right, rk)
    ensures |LeftJoin(left, right, lk, rk)| == |left|
    ensures forall i :: 0 <= i < |left| ==> LeftJoin(left, right, lk, rk)[i] == (left[i], Lookup(right, lk(left[i]), rk))
  {
    if left != [] {
      LeftJoinUnique(left[1..], right, lk, rk);
      MatchingUnique(right, lk(left[0]), rk);
      var r := LeftJoin(left, right, lk, rk);
      assert JoinOne(left[0], right, lk, rk) == [(left[0], Lookup(right, lk(left[0]), rk))];
      forall i | 0 <= i < |left| ensures r[i] == (left[i], Lookup(right, lk(left[i]), rk)) {
        if i > 0 {
          assert r[i] == LeftJoin(left[1..], right, lk, rk)[i - 1];
        }
      }
    }
  }
}
