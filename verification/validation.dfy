/** The configuration validators: collecting the item types of a union of list types, and checking
    that a list is homogeneous in one of the allowed types. Python types are tags, and `isinstance` is
    a relation between items and tags. */
module Validation {
  import opened Wrappers
  import opened Seqs

  /** A Python type: `NoneType`, or a class known by its name. */
  datatype TypeTag = NoneType | ClassTag(name: string)

  /** The `TypeError` the validator raises, carrying the allowed types it names. */
  datatype TypeError = TypeError(types: seq<Option<TypeTag>>)

  /** The item types of the union's members (each member given by its type arguments), each listed
      once, in order of first occurrence. */
  method ParseListItemTypes(unionArgs: seq<seq<TypeTag>>) returns (itemTypes: seq<TypeTag>)
    ensures itemTypes == Dedup(Flatten(unionArgs))
    ensures NoDup(itemTypes)
    ensures forall t :: t in itemTypes <==> exists m :: m in unionArgs && t in m
    ensures forall i, j :: 0 <= i < j < |itemTypes| ==>
      IndexOf(Flatten(unionArgs), itemTypes[i]) < IndexOf(Flatten(unionArgs), itemTypes[j])
  {
    itemTypes := [];
    for m := 0 to |unionArgs|
      invariant itemTypes == Dedup(Flatten(unionArgs[..m]))
    {
      var listType := unionArgs[m];
      ghost var before := Flatten(unionArgs[..m]);
      assert before + listType[..0] == before;
      for k := 0 to |listType|
        invariant itemTypes == Dedup(before + listType[..k])
      {
        AppendStep(before, listType, k);
        if listType[k] !in itemTypes {
          itemTypes := itemTypes + [listType[k]];
        }
      }
      FlattenStep(unionArgs, m);
    }
    assert unionArgs[..|unionArgs|] == unionArgs;
    DedupFlattenFacts(unionArgs);
  }

  /** The inner loop's step: one more item type of the current member. */
  lemma AppendStep(before: seq<TypeTag>, listType: seq<TypeTag>, k: nat)
    requires k < |listType|
    ensures Dedup(before + listType[..k + 1]) ==
      if listType[k] in Dedup(before + listType[..k]) then Dedup(before + listType[..k])
      else Dedup(before + listType[..k]) + [listType[k]]
  {
    assert before + listType[..k + 1] == (before + listType[..k]) + [listType[k]];
    DedupSnoc(before + listType[..k], listType[k]);
  }

  /** The outer loop's step: one more union member. */
  lemma FlattenStep(u: seq<seq<TypeTag>>, m: nat)
    requires m < |u|
    ensures Flatten(u[..m + 1]) == Flatten(u[..m]) + u[m][..|u[m]|]
  {
    assert u[..m + 1][..m] == u[..m];
    assert u[m][..|u[m]|] == u[m];
  }

  /** What deduplicating the flattened members yields: no repetition, exactly the member items, and
      first-occurrence order. */
  lemma DedupFlattenFacts(u: seq<seq<TypeTag>>)
    ensures NoDup(Dedup(Flatten(u)))
    ensures forall t :: t in Dedup(Flatten(u)) <==> exists m :: m in u && t in m
    ensures forall i, j :: 0 <= i < j < |Dedup(Flatten(u))| ==>
      IndexOf(Flatten(u), Dedup(Flatten(u))[i]) < IndexOf(Flatten(u), Dedup(Flatten(u))[j])
  {
    FlattenMembers(u);
    DedupMembers(Flatten(u));
    DedupFirstOccurrenceOrder(Flatten(u));
  }

  /** `None` in the allowed types stands for `NoneType`. */
  function Resolve(t: Option<TypeTag>): (r: TypeTag)
    ensures t.None? ==> r == NoneType
    ensures t.Some? ==> r == t.value
  {
    if t.None? then NoneType else t.value
  }

  /** Every item is an instance of `t`. */
  predicate AllInstances<Item>(items: seq<Item>, t: TypeTag, isInstance: (Item, TypeTag) -> bool)
  {
    forall i :: 0 <= i < |items| ==> isInstance(items[i], t)
  }

  /** The list is non-empty and one single allowed type matches all of its items. */
  predicate Homogeneous<Item>(items: seq<Item>, types: seq<Option<TypeTag>>, isInstance: (Item, TypeTag) -> bool)
  {
    |items| > 0 && exists k :: 0 <= k < |types| && AllInstances(items, Resolve(types[k]), isInstance)
  }

  /** Returns normally exactly for a homogeneous list and raises `TypeError` otherwise; in particular an
      empty list always raises, as the early return happens only at the last index. */
  method AllItemsMatchType<Item>(items: seq<Item>, types: seq<Option<TypeTag>>, isInstance: (Item, TypeTag) -> bool)
    returns (r: Outcome<TypeError>)
    ensures r.Pass? <==> Homogeneous(items, types, isInstance)
    ensures r.Fail? ==> r.error == TypeError(types)
  {
    for k := 0 to |types|
      invariant forall k' :: 0 <= k' < k ==> !(|items| > 0 && AllInstances(items, Resolve(types[k']), isInstance))
    {
      var itemType := types[k];
      if itemType.None? {
        itemType := Some(NoneType);
      }
      for i := 0 to |items|
        invariant forall i' :: 0 <= i' < i ==> isInstance(items[i'], itemType.value)
        invariant i == |items| ==> |items| == 0
      {
        if !isInstance(items[i], itemType.value) {
          break;
        } else if i == |items| - 1 {
          assert AllInstances(items, Resolve(types[k]), isInstance);
          return Pass;
        }
      }
      assert !(|items| > 0 && AllInstances(items, Resolve(types[k]), isInstance));
    }
    return Fail(TypeError(types));
  }

  /** A list mixing two types raises even when each of its items matches an allowed type. */
  lemma MixedListRejected()
    ensures var isInstance := (x: TypeTag, t: TypeTag) => x == t;
      var items := [ClassTag("int"), ClassTag("str")];
      var types := [Some(ClassTag("int")), Some(ClassTag("str"))];
      (forall i :: 0 <= i < |items| ==> exists k :: 0 <= k < |types| && isInstance(items[i], Resolve(types[k]))) &&
      !Homogeneous(items, types, isInstance)
  {
    var isInstance := (x: TypeTag, t: TypeTag) => x == t;
    var items := [ClassTag("int"), ClassTag("str")];
    var types := [Some(ClassTag("int")), Some(ClassTag("str"))];
    assert isInstance(items[0], Resolve(types[0])) && isInstance(items[1], Resolve(types[1]));
    assert !isInstance(items[1], Resolve(types[0])) && !isInstance(items[0], Resolve(types[1]));
  }

  /** A `None` among the allowed types accepts a list of `None` items. */
  lemma NoneEntryAcceptsNones<Item>(items: seq<Item>, types: seq<Option<TypeTag>>, isInstance: (Item, TypeTag) -> bool, k: nat)
    requires |items| > 0 && k < |types| && types[k].None?
    requires forall i :: 0 <= i < |items| ==> isInstance(items[i], NoneType)
    ensures Homogeneous(items, types, isInstance)
  {
    assert AllInstances(items, Resolve(types[k]), isInstance);
  }
}
