/** The extraction itself: the configuration whose ID lists it extends in place, the narrow pipeline
    from raw rows to the five output columns, and the run that adds contraction, pivot and coercion. */
module Extract {
  import opened Wrappers
  import opened Tables
  import opened Seqs
  import opened Text
  import opened Categories
  import opened Filters
  import opened Joins
  import opened Replication
  import opened Decoding
  import opened Contraction
  import opened Wide

  /** The IDs read from the SubjectIDFiles, file after file; a missing file contributes nothing. */
  function Loaded(files: seq<Option<seq<int>>>): seq<int>
  {
    if files == [] then []
    else
      var last := files[|files| - 1];
      Loaded(files[..|files| - 1]) + (if last.Some? then last.value else [])
  }

  /** Every SubjectIDFiles entry exists. */
  predicate AllPresent(files: seq<Option<seq<int>>>)
  {
    forall i :: 0 <= i < |files| ==> files[i].Some?
  }

  /** The configuration. The SubjectIDs, FieldIDs and Categories lists are extended in place during a
      run; the other options are only read. */
  class Config {
    var subjectIDs: seq<int>
    var fieldIDs: seq<int>
    var categories: seq<int>
    const settings: Settings

    constructor (subjectIDs: seq<int>, fieldIDs: seq<int>, categories: seq<int>, settings: Settings)
      ensures this.subjectIDs == subjectIDs && this.fieldIDs == fieldIDs && this.categories == categories
      ensures this.settings == settings
    {
      this.subjectIDs := subjectIDs;
      this.fieldIDs := fieldIDs;
      this.categories := categories;
      this.settings := settings;
    }

    /** Appends the IDs of each SubjectIDFiles entry in turn; the first missing file stops the run,
        after the IDs of the files before it have been appended. */
    method LoadSubjectIDFiles(files: seq<Option<seq<int>>>) returns (r: Outcome<Error>)
      modifies this
      ensures r.Pass? <==> AllPresent(files)
      ensures r.Pass? ==> subjectIDs == old(subjectIDs) + Loaded(files)
      ensures r.Fail? ==> exists i :: 0 <= i < |files| && files[i].None? && AllPresent(files[..i]) &&
                                      r.error == MissingInputFile(i) && subjectIDs == old(subjectIDs) + Loaded(files[..i])
      ensures fieldIDs == old(fieldIDs) && categories == old(categories)
    {
      for i := 0 to |files|
        invariant AllPresent(files[..i])
        invariant subjectIDs == old(subjectIDs) + Loaded(files[..i])
        invariant fieldIDs == old(fieldIDs) && categories == old(categories)
      {
        if files[i].None? {
          return Fail(MissingInputFile(i));
        }
        assert files[..i + 1][..i] == files[..i];
        subjectIDs := subjectIDs + files[i].value;
      }
      assert files[..|files|] == files;
      return Pass;
    }

    /** The category closure loop: appends the unlisted children of listed categories until a pass
        appends nothing. */
    method ExpandCategories(tree: seq<CategoryEdge>)
      modifies this
      ensures categories == Close(old(categories), tree)
      ensures subjectIDs == old(subjectIDs) && fieldIDs == old(fieldIDs)
    {
      var oldLength := 0;
      while |categories| > oldLength
        invariant Close(categories, tree) == Close(old(categories), tree)
        invariant oldLength <= |categories|
        invariant oldLength == |categories| && oldLength > 0 ==> NewChildren(categories, tree) == []
        invariant subjectIDs == old(subjectIDs) && fieldIDs == old(fieldIDs)
        decreases |Pending(categories, tree)|, |categories| - oldLength
      {
        oldLength := |categories|;
        var next := NewChildren(categories, tree);
        if next != [] {
          PendingShrinks(categories, tree);
        } else {
          assert categories + next == categories;
        }
        categories := categories + next;
      }
      if categories == [] {
        NewChildrenNone([], tree);
      }
    }

    /** Appends the FieldIDs of the dictionary lines whose category is listed. */
    method ExpandFieldIDs(dict: seq<DictEntry>)
      modifies this
      ensures fieldIDs == old(fieldIDs) + FieldsInCategories(dict, categories)
      ensures subjectIDs == old(subjectIDs) && categories == old(categories)
    {
      fieldIDs := fieldIDs + FieldsInCategories(dict, categories);
    }
  }

  /** The SubjectID then FieldID filters, applied before replication. */
  function Prefilter(data: seq<Row>, subjectIDs: seq<int>, fieldIDs: seq<int>): seq<Row>
  {
    KeepMembers(KeepMembers(data, SubjectColumn, subjectIDs), FieldColumn, fieldIDs)
  }

  /** The replication of non-instanced rows, when configured. */
  function Replicated(rows: seq<Row>, s: Settings, props: seq<FieldProp>): seq<Row>
  {
    if s.replicateNonInstanced then Replicate(JoinProps(rows, props), Targets(s.instanceIDs)) else rows
  }

  /** The InstanceID and ArrayID filters and the empty-string drop, applied after replication. */
  function Postfilter(rows: seq<Row>, s: Settings): seq<Row>
  {
    DropEmpty(KeepMembers(KeepMembers(rows, InstanceColumn, s.instanceIDs), ArrayColumn, s.arrayIDs), s.dropEmptyStrings)
  }

  /** The lazy plan up to the projection on the five output columns, as the narrow result it yields. */
  function Narrow(data: seq<Row>, subjectIDs: seq<int>, fieldIDs: seq<int>, s: Settings, props: seq<FieldProp>,
                  dict: seq<DictEntry>, codings: seq<CodingEntry>, parseNum: string -> Option<real>): (r: seq<NarrowRow>)
    ensures forall o :: o in r ==>
      (s.instanceIDs != [] ==> o.instanceID in s.instanceIDs) && (s.arrayIDs != [] ==> o.arrayID in s.arrayIDs)
  {
    var kept := Postfilter(Replicated(Prefilter(data, subjectIDs, fieldIDs), s, props), s);
    DecodeStagesKeepKeys(kept, s, dict, codings, parseNum);
    PostfilterMembers(Replicated(Prefilter(data, subjectIDs, fieldIDs), s, props), s);
    DecodeStages(Postfilter(Replicated(Prefilter(data, subjectIDs, fieldIDs), s, props), s), s, dict, codings, parseNum)
  }

  lemma PrefilterMembers(data: seq<Row>, subjectIDs: seq<int>, fieldIDs: seq<int>)
    ensures forall x :: x in Prefilter(data, subjectIDs, fieldIDs) <==>
      x in data && (subjectIDs != [] ==> x.subjectID in subjectIDs) && (fieldIDs != [] ==> x.fieldID in fieldIDs)
  {
    var bySubject := KeepMembers(data, SubjectColumn, subjectIDs);
    forall x ensures x in Prefilter(data, subjectIDs, fieldIDs) <==>
      x in bySubject && (fieldIDs == [] || x.fieldID in fieldIDs)
    {
    }
  }

  lemma PostfilterMembers(rows: seq<Row>, s: Settings)
    ensures forall x :: x in Postfilter(rows, s) <==>
      x in rows && (s.instanceIDs != [] ==> x.instanceID in s.instanceIDs) &&
      (s.arrayIDs != [] ==> x.arrayID in s.arrayIDs) && (s.dropEmptyStrings ==> x.fieldValue != "")
  {
    var byInstance := KeepMembers(rows, InstanceColumn, s.instanceIDs);
    var byArray := KeepMembers(byInstance, ArrayColumn, s.arrayIDs);
    forall x ensures x in Postfilter(rows, s) <==> x in byArray && (!s.dropEmptyStrings || x.fieldValue != "") {
    }
    forall x ensures x in byArray <==> x in byInstance && (s.arrayIDs == [] || x.arrayID in s.arrayIDs) {
    }
  }

  /** `y` is `x`, or a copy of it moved to a target instance by replication. */
  predicate CopyOf(y: Row, x: Row, s: Settings)
  {
    y == x.(instanceID := y.instanceID) &&
    (y.instanceID == x.instanceID ||
     (s.replicateNonInstanced && |Targets(s.instanceIDs)| > 1 && y.instanceID in Targets(s.instanceIDs)))
  }

  /** A replicated row is a raw row, or a copy of one moved to a target instance. */
  lemma ReplicatedFrom(rows: seq<Row>, s: Settings, props: seq<FieldProp>, y: Row)
    requires y in Replicated(rows, s, props)
    ensures exists x :: x in rows && CopyOf(y, x, s)
  {
    if s.replicateNonInstanced {
      var joined := JoinProps(rows, props);
      ReplicateMembers(joined, Targets(s.instanceIDs));
      LeftJoinPairs(rows, props, RowField, PropField);
      var j :| j in joined && Produces(j, Targets(s.instanceIDs), y);
      assert j.0 in rows && CopyOf(y, j.0, s);
    } else {
      assert CopyOf(y, y, s);
    }
  }

  /** Output row `o` comes from raw row `x` through every filter the configuration switches on. */
  predicate Admitted(o: NarrowRow, x: Row, subjectIDs: seq<int>, fieldIDs: seq<int>, s: Settings, dict: seq<DictEntry>)
  {
    o.subjectID == x.subjectID && o.arrayID == x.arrayID &&
    NamedAs(o.fieldID, x.fieldID, s.recodeFieldNames, dict) &&
    (subjectIDs != [] ==> x.subjectID in subjectIDs) &&
    (fieldIDs != [] ==> x.fieldID in fieldIDs) &&
    (s.instanceIDs != [] ==> o.instanceID in s.instanceIDs) &&
    (s.arrayIDs != [] ==> x.arrayID in s.arrayIDs) &&
    (s.dropEmptyStrings ==> x.fieldValue != "") &&
    (o.instanceID == x.instanceID ||
     (s.replicateNonInstanced && |Targets(s.instanceIDs)| > 1 && o.instanceID in Targets(s.instanceIDs)))
  }

  /** Every narrow row comes from a raw row that passes every configured filter; only replication
      changes an InstanceID, and only to a target instance. */
  lemma NarrowSound(data: seq<Row>, subjectIDs: seq<int>, fieldIDs: seq<int>, s: Settings, props: seq<FieldProp>,
                    dict: seq<DictEntry>, codings: seq<CodingEntry>, parseNum: string -> Option<real>)
    ensures forall o :: o in Narrow(data, subjectIDs, fieldIDs, s, props, dict, codings, parseNum) ==>
      exists x :: x in data && Admitted(o, x, subjectIDs, fieldIDs, s, dict) && ValuedFrom(o, x, s, dict, codings, parseNum)
  {
    var pre := Prefilter(data, subjectIDs, fieldIDs);
    var replicated := Replicated(pre, s, props);
    var kept := Postfilter(replicated, s);
    var out := DecodeStages(kept, s, dict, codings, parseNum);
    DecodeStagesMembers(kept, s, dict, codings, parseNum);
    DecodeFacts(kept, dict, codings);
    PrefilterMembers(data, subjectIDs, fieldIDs);
    PostfilterMembers(replicated, s);
    forall o | o in out
      ensures exists x :: x in data && Admitted(o, x, subjectIDs, fieldIDs, s, dict) && ValuedFrom(o, x, s, dict, codings, parseNum)
    {
      var d :| d in Decode(kept, dict, codings) && Survives(d, s, parseNum) && o == NarrowOf(d, s);
      var y := d.row;
      FieldKeyNamed(d, s.recodeFieldNames, dict, codings);
      assert DerivedFrom(o, y, s, dict);
      ReplicatedFrom(pre, s, props, y);
      var x :| x in pre && CopyOf(y, x, s);
      AdmittedThrough(o, y, x, subjectIDs, fieldIDs, s, dict);
      ValuedThrough(o, d, x, s, dict, codings, parseNum);
    }
  }

  /** The FieldValue of output row `o` is what the stages make of raw row `x`: `x` with some dictionary
      line and Meaning the joins can attach, surviving both null-code drops, recoded and substituted. */
  ghost predicate ValuedFrom(o: NarrowRow, x: Row, s: Settings, dict: seq<DictEntry>, codings: seq<CodingEntry>,
                             parseNum: string -> Option<real>)
  {
    exists d: Decoded :: d.row == x && DecodedFrom(d, dict, codings) && Survives(d, s, parseNum) && o.fieldValue == FinalValue(d, s)
  }

  /** Replication changes only the InstanceID, which neither lookup, drop nor substitution reads. */
  lemma ValuedThrough(o: NarrowRow, d: Decoded, x: Row, s: Settings, dict: seq<DictEntry>, codings: seq<CodingEntry>,
                      parseNum: string -> Option<real>)
    requires DecodedFrom(d, dict, codings) && Survives(d, s, parseNum) && o == NarrowOf(d, s)
    requires CopyOf(d.row, x, s)
    ensures ValuedFrom(o, x, s, dict, codings, parseNum)
  {
    var e := d.(row := x);
    assert e.row.fieldID == d.row.fieldID && e.row.fieldValue == d.row.fieldValue;
    assert DecodedFrom(e, dict, codings) && Survives(e, s, parseNum) && o.fieldValue == FinalValue(e, s);
  }

  /** A narrow row derived from a row `y` that passed the late filters, where `y` is a copy of a raw row
      `x` that passed the early ones, is admitted from `x`. */
  lemma AdmittedThrough(o: NarrowRow, y: Row, x: Row, subjectIDs: seq<int>, fieldIDs: seq<int>, s: Settings,
                        dict: seq<DictEntry>)
    requires DerivedFrom(o, y, s, dict) && CopyOf(y, x, s)
    requires (subjectIDs != [] ==> x.subjectID in subjectIDs) && (fieldIDs != [] ==> x.fieldID in fieldIDs)
    requires (s.instanceIDs != [] ==> y.instanceID in s.instanceIDs) && (s.arrayIDs != [] ==> y.arrayID in s.arrayIDs)
    requires s.dropEmptyStrings ==> y.fieldValue != ""
    ensures Admitted(o, x, subjectIDs, fieldIDs, s, dict)
  {
    assert y.fieldID == x.fieldID;
  }

  /** With a single configured InstanceID, replication moves no row to it: a narrow row admitted from a raw
      row (as `NarrowSound` finds one for every narrow row) has that row's own InstanceID, the configured
      one, so a non-instanced field recorded at another instance is lost. */
  lemma SingleInstanceNoFanOut(o: NarrowRow, x: Row, subjectIDs: seq<int>, fieldIDs: seq<int>, s: Settings,
                               dict: seq<DictEntry>)
    requires |s.instanceIDs| == 1
    requires Admitted(o, x, subjectIDs, fieldIDs, s, dict)
    ensures o.instanceID == x.instanceID == s.instanceIDs[0]
  {
    assert Targets(s.instanceIDs) == s.instanceIDs;
  }

  /** Raw row `x` passes every configured filter (replication off). */
  predicate Passes(x: Row, subjectIDs: seq<int>, fieldIDs: seq<int>, s: Settings)
  {
    (subjectIDs != [] ==> x.subjectID in subjectIDs) &&
    (fieldIDs != [] ==> x.fieldID in fieldIDs) &&
    (s.instanceIDs != [] ==> x.instanceID in s.instanceIDs) &&
    (s.arrayIDs != [] ==> x.arrayID in s.arrayIDs) &&
    (s.dropEmptyStrings ==> x.fieldValue != "")
  }

  /** Without replication or null-code drops, and with the reference tables keyed as the UK Biobank
      ships them, every raw row that passes the filters reaches the narrow result. */
  lemma NarrowComplete(data: seq<Row>, subjectIDs: seq<int>, fieldIDs: seq<int>, s: Settings, props: seq<FieldProp>,
                       dict: seq<DictEntry>, codings: seq<CodingEntry>, parseNum: string -> Option<real>)
    requires !s.replicateNonInstanced
    requires s.dropNullStrings == [] && s.dropNullNumerics == []
    requires UniqueKeys(dict, EntryField) && UniqueKeys(codings, EntryKey)
    ensures forall x :: x in data && Passes(x, subjectIDs, fieldIDs, s) ==>
      exists o :: o in Narrow(data, subjectIDs, fieldIDs, s, props, dict, codings, parseNum) &&
                  DerivedFrom(o, x, s, dict) && o == NarrowOf(Lookups(x, dict, codings), s)
  {
    var pre := Prefilter(data, subjectIDs, fieldIDs);
    var kept := Postfilter(pre, s);
    var out := DecodeStages(kept, s, dict, codings, parseNum);
    DecodeStagesOneToOne(kept, s, dict, codings, parseNum);
    PrefilterMembers(data, subjectIDs, fieldIDs);
    PostfilterMembers(pre, s);
    forall x | x in data && Passes(x, subjectIDs, fieldIDs, s)
      ensures exists o :: o in out && DerivedFrom(o, x, s, dict) && o == NarrowOf(Lookups(x, dict, codings), s)
    {
      assert x in kept;
      PositionwiseReaches(kept, out, x, s, dict, codings);
    }
  }

  /** A row of a table that the stages map position by position reaches their output. */
  lemma PositionwiseReaches(kept: seq<Row>, out: seq<NarrowRow>, x: Row, s: Settings, dict: seq<DictEntry>,
                            codings: seq<CodingEntry>)
    requires |out| == |kept| && forall i :: 0 <= i < |kept| ==> DerivedFrom(out[i], kept[i], s, dict)
    requires forall i :: 0 <= i < |kept| ==> out[i] == NarrowOf(Lookups(kept[i], dict, codings), s)
    requires x in kept
    ensures exists o :: o in out && DerivedFrom(o, x, s, dict) && o == NarrowOf(Lookups(x, dict, codings), s)
  {
    var i :| 0 <= i < |kept| && kept[i] == x;
    assert out[i] in out;
  }

  /** With no filter, replication or null-code drop configured, the narrow result holds one row per raw
      row, in order. */
  lemma NarrowKeepsAll(data: seq<Row>, s: Settings, props: seq<FieldProp>,
                       dict: seq<DictEntry>, codings: seq<CodingEntry>, parseNum: string -> Option<real>)
    requires s.instanceIDs == [] && s.arrayIDs == [] && !s.replicateNonInstanced && !s.dropEmptyStrings
    requires s.dropNullStrings == [] && s.dropNullNumerics == []
    requires UniqueKeys(dict, EntryField) && UniqueKeys(codings, EntryKey)
    ensures |Narrow(data, [], [], s, props, dict, codings, parseNum)| == |data|
    ensures forall i :: 0 <= i < |data| ==> DerivedFrom(Narrow(data, [], [], s, props, dict, codings, parseNum)[i], data[i], s, dict)
    ensures forall i :: 0 <= i < |data| ==>
      Narrow(data, [], [], s, props, dict, codings, parseNum)[i] == NarrowOf(Lookups(data[i], dict, codings), s)
  {
    DecodeStagesOneToOne(data, s, dict, codings, parseNum);
  }

  /** What a run returns: the narrow table, the wide table when asked for, and the contracted
      dictionary and codings. */
  datatype Extraction = Extraction(narrow: seq<NarrowRow>, wide: Option<WideTable>,
                                   dictionary: seq<DictEntry>, codings: seq<CodingEntry>)

  const CategoryTreeTable := "category tree"
  const FieldPropertiesTable := "field properties"

  /** The per-column coercion a run applies: by the contracted dictionary's ValueTypes. */
  function Coercion(dict: seq<DictEntry>, s: Settings, cast: (ColumnType, seq<Cell>) -> Option<seq<Cell>>)
    : Wide.Column -> Result<Wide.Column, Error>
  {
    (c: Wide.Column) => CoerceColumn(c, dict, s.convertCompoundToList, cast)
  }

  /** The wide table `w` is pivot `p` with every column coerced. */
  predicate CoercedFrom(w: WideTable, p: WideTable, dict: seq<DictEntry>, s: Settings,
                        cast: (ColumnType, seq<Cell>) -> Option<seq<Cell>>)
  {
    w.keys == p.keys && |w.columns| == |p.columns| &&
    forall j :: 0 <= j < |p.columns| ==>
      CoerceColumn(p.columns[j], dict, s.convertCompoundToList, cast).Ok? &&
      w.columns[j] == CoerceColumn(p.columns[j], dict, s.convertCompoundToList, cast).value
  }

  /** One run of the extraction. Reference tables the run needs but does not have, and missing
      SubjectIDFiles, stop it; so does a wide column whose ValueType lookup or type-table entry fails.
      A failed cast leaves its column as text. */
  method Extract(config: Config, data: seq<Row>, dict: seq<DictEntry>, codings: seq<CodingEntry>,
                 tree: Option<seq<CategoryEdge>>, props: Option<seq<FieldProp>>,
                 subjectIDFiles: seq<Option<seq<int>>>, parseNum: string -> Option<real>,
                 cast: (ColumnType, seq<Cell>) -> Option<seq<Cell>>) returns (r: Result<Extraction, Error>)
    modifies config
    ensures !AllPresent(subjectIDFiles) ==>
      exists i :: 0 <= i < |subjectIDFiles| && subjectIDFiles[i].None? && AllPresent(subjectIDFiles[..i]) &&
                  r == Err(MissingInputFile(i)) && config.subjectIDs == old(config.subjectIDs) + Loaded(subjectIDFiles[..i])
    ensures !AllPresent(subjectIDFiles) || tree.None? ==>
      config.categories == old(config.categories) && config.fieldIDs == old(config.fieldIDs)
    ensures AllPresent(subjectIDFiles) ==> config.subjectIDs == old(config.subjectIDs) + Loaded(subjectIDFiles)
    ensures AllPresent(subjectIDFiles) && old(config.categories) != [] && tree.None? ==>
      r == Err(ReferenceDataUnavailable(CategoryTreeTable))
    ensures AllPresent(subjectIDFiles) && old(config.categories) != [] && tree.Some? ==>
      config.categories == Close(old(config.categories), tree.value) &&
      config.fieldIDs == old(config.fieldIDs) + FieldsInCategories(dict, config.categories)
    ensures old(config.categories) == [] ==> config.categories == [] && config.fieldIDs == old(config.fieldIDs)
    ensures (AllPresent(subjectIDFiles) && (old(config.categories) == [] || tree.Some?) &&
             config.settings.replicateNonInstanced && props.None?) ==>
      r == Err(ReferenceDataUnavailable(FieldPropertiesTable))
    ensures r.Ok? ==> AllPresent(subjectIDFiles)
    ensures (AllPresent(subjectIDFiles) && (old(config.categories) == [] || tree.Some?) &&
             (!config.settings.replicateNonInstanced || props.Some?) &&
             (config.settings.wide && config.settings.recodeWideColumnValueTypes ==>
                AllCoerce(Pivot(Narrow(data, config.subjectIDs, config.fieldIDs, config.settings,
                                       if props.Some? then props.value else [], dict, codings, parseNum)).columns,
                          Coercion(ContractDictionary(dict, config.fieldIDs), config.settings, cast)))) ==>
      r.Ok?
    ensures r.Ok? ==> r.value.narrow == Narrow(data, config.subjectIDs, config.fieldIDs, config.settings,
                                               if props.Some? then props.value else [], dict, codings, parseNum)
    ensures r.Ok? ==> r.value.dictionary == ContractDictionary(dict, config.fieldIDs)
    ensures r.Ok? ==> r.value.codings == ContractCodings(codings, r.value.dictionary, config.fieldIDs)
    ensures r.Ok? ==> (r.value.wide.Some? <==> config.settings.wide)
    ensures r.Ok? && r.value.wide.Some? && !config.settings.recodeWideColumnValueTypes ==>
      r.value.wide.value == Pivot(r.value.narrow)
    ensures r.Ok? && r.value.wide.Some? && config.settings.recodeWideColumnValueTypes ==>
      CoercedFrom(r.value.wide.value, Pivot(r.value.narrow), r.value.dictionary, config.settings, cast)
    ensures (r.Err? && config.settings.wide && config.settings.recodeWideColumnValueTypes &&
             !r.error.MissingInputFile? && !r.error.ReferenceDataUnavailable?) ==>
      var p := Pivot(Narrow(data, config.subjectIDs, config.fieldIDs, config.settings,
                            if props.Some? then props.value else [], dict, codings, parseNum));
      exists j :: 0 <= j < |p.columns| &&
        FirstFailure(p.columns, Coercion(ContractDictionary(dict, config.fieldIDs), config.settings, cast), j, r.error)
  {
    var s := config.settings;
    var loaded := config.LoadSubjectIDFiles(subjectIDFiles);
    if loaded.Fail? {
      return Err(loaded.error);
    }
    if config.categories != [] {
      if tree.None? {
        return Err(ReferenceDataUnavailable(CategoryTreeTable));
      }
      config.ExpandCategories(tree.value);
      config.ExpandFieldIDs(dict);
    }
    if s.replicateNonInstanced && props.None? {
      return Err(ReferenceDataUnavailable(FieldPropertiesTable));
    }
    var narrow := Narrow(data, config.subjectIDs, config.fieldIDs, s,
                         if props.Some? then props.value else [], dict, codings, parseNum);
    var dictionary := ContractDictionary(dict, config.fieldIDs);
    var usedCodings := ContractCodings(codings, dictionary, config.fieldIDs);
    if !s.wide {
      return Ok(Extraction(narrow, None, dictionary, usedCodings));
    }
    var wide := Pivot(narrow);
    if s.recodeWideColumnValueTypes {
      var coerced := CoerceColumns(wide, Coercion(dictionary, s, cast));
      if coerced.Err? {
        return Err(coerced.error);
      }
      wide := coerced.value;
    }
    return Ok(Extraction(narrow, Some(wide), dictionary, usedCodings));
  }
}
