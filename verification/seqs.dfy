/** Sequence helpers shared by the pipeline stages: order-preserving filter, flatten, deduplication. */
module Seqs {

  /** No element occurs twice. */
  predicate NoDup<T(==)>(s: seq<T>)
  {
    forall i, j :: 0 <= i < j < |s| ==> s[i] != s[j]
  }

  /** Keeps exactly the elements satisfying `p`, in their original order (a row filter). */
  function Filter<T>(s: seq<T>, p: T -> bool): (r: seq<T>)
    ensures |r| <= |s|
    ensures forall k :: 0 <= k < |r| ==> p(r[k])
  {
    if s == [] then []
    else if p(s[0]) then [s[0]] + Filter(s[1..], p)
    else Filter(s[1..], p)
  }

  /** Exactly the elements of `s` that satisfy `p` survive the filter. */
  lemma {:induction false} FilterMembers<T>(s: seq<T>, p: T -> bool)
    ensures forall x :: x in Filter(s, p) <==> x in s && p(x)
  {
    if s != [] {
      FilterMembers(s[1..], p);
      assert s == [s[0]] + s[1..];
    }
  }

  /** The filter distributes over concatenation: kept elements stay in their original order. */
  lemma {:induction false} FilterConcat<T>(a: seq<T>, b: seq<T>, p: T -> bool)
    ensures Filter(a + b, p) == Filter(a, p) + Filter(b, p)
  {
    if a == [] {
      assert a + b == b;
    } else {
      assert (a + b)[1..] == a[1..] + b;
      FilterConcat(a[1..], b, p);
    }
  }

  /** Position `i` is the only one of `s` whose element satisfies `p`. */
  predicate OnlyAt<T>(s: seq<T>, p: T -> bool, i: int)
    requires 0 <= i < |s|
  {
    p(s[i]) && forall j :: 0 <= j < |s| && j != i ==> !p(s[j])
  }

  /** The filter keeps exactly one element iff exactly one position satisfies `p`, and it then keeps
      that position's element. */
  lemma {:induction false} FilterSingleton<T(!new)>(s: seq<T>, p: T -> bool)
    ensures |Filter(s, p)| == 1 <==> exists i :: 0 <= i < |s| && OnlyAt(s, p, i)
    ensures forall i :: 0 <= i < |s| && OnlyAt(s, p, i) ==> Filter(s, p) == [s[i]]
  {
    if s != [] {
      var t := s[1..];
      FilterSingleton(t, p);
      forall i | 1 <= i < |s| ensures OnlyAt(s, p, i) <==> !p(s[0]) && OnlyAt(t, p, i - 1) {
        assert forall j :: 1 <= j < |s| ==> s[j] == t[j - 1];
        if !p(s[0]) && OnlyAt(t, p, i - 1) {
          forall j | 0 <= j < |s| && j != i ensures !p(s[j]) {
            if j > 0 {
              assert s[j] == t[j - 1];
            }
          }
        }
      }
      if p(s[0]) {
        if Filter(t, p) == [] {
          FilterMembers(t, p);
          forall j | 0 < j < |s| ensures !p(s[j]) {
            assert s[j] == t[j - 1];
            assert s[j] in t;
          }
          assert OnlyAt(s, p, 0);
        } else {
          FilterMembers(t, p);
          var y := Filter(t, p)[0];
          assert y in Filter(t, p);
          var k :| 0 <= k < |t| && t[k] == y;
          assert s[k + 1] == y && p(y);
          assert !OnlyAt(s, p, 0);
        }
      } else {
        assert !OnlyAt(s, p, 0);
        if exists k :: 0 <= k < |t| && OnlyAt(t, p, k) {
          var k :| 0 <= k < |t| && OnlyAt(t, p, k);
          assert OnlyAt(s, p, k + 1);
        }
      }
    }
  }

  /** The filter keeps every occurrence of an element satisfying `p` and none of the others:
      it neither repeats nor loses a row. */
  lemma {:induction false} FilterCount<T>(s: seq<T>, p: T -> bool)
    ensures forall x :: multiset(Filter(s, p))[x] == if p(x) then multiset(s)[x] else 0
  {
    if s != [] {
      FilterCount(s[1..], p);
      assert s == [s[0]] + s[1..];
      assert multiset(s) == multiset{s[0]} + multiset(s[1..]);
      if p(s[0]) {
        assert multiset(Filter(s, p)) == multiset{s[0]} + multiset(Filter(s[1..], p));
      }
    }
  }

  /** Concatenation of the members, in order. */
  function Flatten<T>(u: seq<seq<T>>): seq<T>
  {
    if u == [] then [] else Flatten(u[..|u| - 1]) + u[|u| - 1]
  }

  /** An element is in the flattening exactly when it is in some member. */
  lemma {:induction false} FlattenMembers<T>(u: seq<seq<T>>)
    ensures forall x :: x in Flatten(u) <==> exists m :: m in u && x in m
  {
    if u != [] {
      var init := u[..|u| - 1];
      FlattenMembers(init);
      assert u == init + [u[|u| - 1]];
    }
  }

  /** The elements of `s` without repetitions, each kept at its first occurrence. */
  function Dedup<T(==)>(s: seq<T>): (r: seq<T>)
    ensures NoDup(r)
    ensures forall i :: 0 <= i < |s| ==> s[i] in r
    ensures forall k :: 0 <= k < |r| ==> r[k] in s
  {
    if s == [] then []
    else
      var init := s[..|s| - 1];
      var front := Dedup(init);
      var x := s[|s| - 1];
      assert forall i :: 0 <= i < |s| - 1 ==> s[i] == init[i];
      if x in front then front else front + [x]
  }

  /** An element is kept by Dedup exactly when it occurs. */
  lemma DedupMembers<T>(s: seq<T>)
    ensures forall x :: x in Dedup(s) <==> x in s
  {
    forall x | x in s ensures x in Dedup(s) {
      var i :| 0 <= i < |s| && s[i] == x;
    }
  }

  /** Position of the first occurrence of `x` in `s`. */
  function IndexOf<T(==)>(s: seq<T>, x: T): (k: nat)
    requires x in s
    ensures k < |s| && s[k] == x && x !in s[..k]
  {
    if s[0] == x then 0
    else
      var k := IndexOf(s[1..], x);
      assert s[..k + 1] == [s[0]] + s[1..][..k];
      k + 1
  }

  lemma IndexOfUnique<T>(s: seq<T>, x: T, k: nat)
    requires k < |s| && s[k] == x && x !in s[..k]
    ensures IndexOf(s, x) == k
  {
  }

  /** Appending an element does not move the first occurrence of anything already present. */
  lemma IndexOfAppend<T>(s: seq<T>, x: T, y: T)
    requires y in s
    ensures y in s + [x] && IndexOf(s + [x], y) == IndexOf(s, y)
  {
    var k := IndexOf(s, y);
    assert (s + [x])[..k] == s[..k];
    IndexOfUnique(s + [x], y, k);
  }

  /** Dedup lists the elements in the order of their first occurrence in `s`. */
  lemma {:induction false} DedupFirstOccurrenceOrder<T>(s: seq<T>)
    ensures forall i, j :: 0 <= i < j < |Dedup(s)| ==> IndexOf(s, Dedup(s)[i]) < IndexOf(s, Dedup(s)[j])
  {
    if s != [] {
      var init := s[..|s| - 1];
      var x := s[|s| - 1];
      assert s == init + [x];
      DedupFirstOccurrenceOrder(init);
      var front := Dedup(init);
      var r := Dedup(s);
      forall y | y in front ensures IndexOf(s, y) == IndexOf(init, y) {
        IndexOfAppend(init, x, y);
      }
      forall i, j | 0 <= i < j < |front| ensures IndexOf(s, front[i]) < IndexOf(s, front[j]) {
        assert front[i] in front && front[j] in front;
      }
      if x !in front {
        assert r == front + [x];
        IndexOfUnique(s, x, |init|);
        forall y | y in front ensures IndexOf(s, y) < IndexOf(s, x) {
          assert IndexOf(init, y) < |init|;
        }
        OrderedAppend(s, front, x);
      }
    }
  }

  /** Appending an element that occurs after everything already listed keeps first-occurrence order. */
  lemma OrderedAppend<T>(s: seq<T>, front: seq<T>, x: T)
    requires x in s && forall y :: y in front ==> y in s
    requires forall i, j :: 0 <= i < j < |front| ==> IndexOf(s, front[i]) < IndexOf(s, front[j])
    requires forall y :: y in front ==> IndexOf(s, y) < IndexOf(s, x)
    ensures forall i, j :: 0 <= i < j < |front + [x]| ==> IndexOf(s, (front + [x])[i]) < IndexOf(s, (front + [x])[j])
  {
    var r := front + [x];
    forall i, j | 0 <= i < j < |r| ensures IndexOf(s, r[i]) < IndexOf(s, r[j]) {
      assert r[i] == front[i] && r[i] in front;
      if j < |front| {
        assert r[j] == front[j];
      }
    }
  }

  /** Appending the next element to a deduplicated prefix: the step of an append-if-absent loop. */
  lemma DedupSnoc<T>(s: seq<T>, x: T)
    ensures Dedup(s + [x]) == if x in Dedup(s) then Dedup(s) else Dedup(s) + [x]
  {
    assert (s + [x])[..|s + [x]| - 1] == s;
  }
}
