/** Replication of non-instanced rows: a row of a field stored once for all instances is fanned out
    to every target instance. */
module Replication {
  import opened Wrappers
  import opened Tables
  import opened Joins

  function PropField(p: FieldProp): int { p.fieldID }

  /** The rows left-joined with the field-properties table on FieldID = field_id. */
  function JoinProps(rows: seq<Row>, props: seq<FieldProp>): (r: seq<(Row, Option<FieldProp>)>)
    ensures |r| >= |rows|
    ensures forall x :: x in rows ==> exists p :: p in r && p.0 == x
  {
    LeftJoinKeepsRows(rows, props, RowField, PropField);
    LeftJoin(rows, props, RowField, PropField)
  }

  /** `repeat_instances`: the configured InstanceIDs, or instances 0 to 3 when none are configured. */
  function Targets(instanceIDs: seq<int>): (r: seq<int>)
    ensures |r| > 0
    ensures instanceIDs != [] ==> r == instanceIDs
    ensures instanceIDs == [] ==> r == [0, 1, 2, 3]
  {
    if instanceIDs != [] then instanceIDs else [0, 1, 2, 3]
  }

  /** `instanced == 0`; a missing properties line (null) is not non-instanced. */
  predicate NonInstanced(j: (Row, Option<FieldProp>))
  {
    j.1.Some? && j.1.value.instanced == 0
  }

  /** One joined row after `repeat_by("repeats")`, the InstanceID replacement guarded by list length > 1,
      and `explode`: a non-instanced row becomes one row per target instance, except that with a single
      target the row keeps its own InstanceID. */
  function FanOut(j: (Row, Option<FieldProp>), targets: seq<int>): (r: seq<Row>)
    requires |targets| > 0
    ensures NonInstanced(j) && |targets| > 1 ==>
      |r| == |targets| && forall k :: 0 <= k < |r| ==> r[k] == j.0.(instanceID := targets[k])
    ensures !(NonInstanced(j) && |targets| > 1) ==> r == [j.0]
  {
    var repeats := if NonInstanced(j) then |targets| else 1;
    var instances := if repeats > 1 then targets else seq(repeats, _ => j.0.instanceID);
    seq(repeats, k requires 0 <= k < repeats => j.0.(instanceID := instances[k]))
  }

  /** The replication stage over the joined rows (the `instanced` column is dropped afterwards). */
  function Replicate(js: seq<(Row, Option<FieldProp>)>, targets: seq<int>): (r: seq<Row>)
    requires |targets| > 0
    ensures |r| >= |js|
    ensures |targets| == 1 ==> |r| == |js|
  {
    if js == [] then [] else FanOut(js[0], targets) + Replicate(js[1..], targets)
  }

  /** Number of non-instanced joined rows. */
  function NonInstancedCount(js: seq<(Row, Option<FieldProp>)>): (n: nat)
    ensures n <= |js|
  {
    if js == [] then 0 else (if NonInstanced(js[0]) then 1 else 0) + NonInstancedCount(js[1..])
  }

  /** The fan-out is exact: each non-instanced row contributes one row per target, every other row one. */
  lemma {:induction false} ReplicateCount(js: seq<(Row, Option<FieldProp>)>, targets: seq<int>)
    requires |targets| > 1
    ensures |Replicate(js, targets)| == |js| + (|targets| - 1) * NonInstancedCount(js)
  {
    if js != [] {
      ReplicateCount(js[1..], targets);
      var c := NonInstancedCount(js[1..]);
      var f := |FanOut(js[0], targets)|;
      assert |Replicate(js, targets)| == f + |Replicate(js[1..], targets)|;
      if NonInstanced(js[0]) {
        assert f == |targets| && NonInstancedCount(js) == c + 1;
        MulSucc(|targets| - 1, c);
      } else {
        assert f == 1 && NonInstancedCount(js) == c;
      }
    }
  }

  lemma MulSucc(m: int, c: int)
    ensures m * (c + 1) == m * c + m
  {
  }

  /** With a single target instance nothing changes, not even the InstanceID of non-instanced rows. */
  lemma {:induction false} ReplicateSingleTarget(js: seq<(Row, Option<FieldProp>)>, targets: seq<int>)
    requires |targets| == 1
    ensures Replicate(js, targets) == seq(|js|, i requires 0 <= i < |js| => js[i].0)
  {
    if js != [] {
      ReplicateSingleTarget(js[1..], targets);
    }
  }

  /** Output row `o` is one that joined row `j` produces: a copy differing at most in InstanceID,
      which is a target instance when `j` is fanned out. */
  predicate Produces(j: (Row, Option<FieldProp>), targets: seq<int>, o: Row)
  {
    if NonInstanced(j) && |targets| > 1 then o.instanceID in targets && o == j.0.(instanceID := o.instanceID)
    else o == j.0
  }

  /** Exactly the rows produced by some joined row come out of the replication stage. */
  lemma {:induction false} ReplicateMembers(js: seq<(Row, Option<FieldProp>)>, targets: seq<int>)
    requires |targets| > 0
    ensures forall o :: o in Replicate(js, targets) <==> exists j :: j in js && Produces(j, targets, o)
  {
    if js != [] {
      ReplicateMembers(js[1..], targets);
      var fan := FanOut(js[0], targets);
      forall o ensures o in fan <==> Produces(js[0], targets, o) {
        if NonInstanced(js[0]) && |targets| > 1 && Produces(js[0], targets, o) {
          var k :| 0 <= k < |targets| && targets[k] == o.instanceID;
          assert fan[k] == o;
        }
      }
      forall o ensures (exists j :: j in js && Produces(j, targets, o)) <==>
        Produces(js[0], targets, o) || exists j :: j in js[1..] && Produces(j, targets, o)
      {
        assert forall j :: j in js <==> j == js[0] || j in js[1..] by {
          assert js == [js[0]] + js[1..];
        }
      }
    }
  }

  /** The stage keeps the row order: it distributes over concatenation. */
  lemma {:induction false} ReplicateConcat(a: seq<(Row, Option<FieldProp>)>, b: seq<(Row, Option<FieldProp>)>, targets: seq<int>)
    requires |targets| > 0
    ensures Replicate(a + b, targets) == Replicate(a, targets) + Replicate(b, targets)
  {
    if a == [] {
      assert a + b == b;
    } else {
      assert (a + b)[1..] == a[1..] + b;
      ReplicateConcat(a[1..], b, targets);
    }
  }
}
