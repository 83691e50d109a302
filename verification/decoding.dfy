/** Decoding: the joins with the dictionary and the coding table, the null-code drops, value recoding,
    the "Less than" substitution, field-name recoding and the projection to the five output columns. */
module Decoding {
  import opened Wrappers
  import opened Tables
  import opened Seqs
  import opened Joins
  import opened Text

  /** A row with what the joins attached: its dictionary line (Field, ValueType, Coding) and its Meaning. */
  datatype Decoded = Decoded(row: Row, entry: Option<DictEntry>, meaning: Option<string>)

  function EntryField(e: DictEntry): int { e.fieldID }

  /** The Coding column after the dictionary join: null on a dictionary miss or for an uncoded field. */
  function CodingOf(e: Option<DictEntry>): Option<int>
  {
    if e.Some? then e.value.coding else None
  }

  function ValueTypeOf(e: Option<DictEntry>): Option<string>
  {
    if e.Some? then Some(e.value.valueType) else None
  }

  /** Left key of the coding join, (Coding, FieldValue); a null Coding matches no coding line. */
  function CodingKey(p: (Row, Option<DictEntry>)): (Option<int>, string)
  {
    (CodingOf(p.1), p.0.fieldValue)
  }

  /** Right key of the coding join, (Coding, Value). */
  function EntryKey(c: CodingEntry): (Option<int>, string)
  {
    (Some(c.coding), c.value)
  }

  function MeaningOf(c: Option<CodingEntry>): Option<string>
  {
    if c.Some? then Some(c.value.meaning) else None
  }

  /** The dictionary join on FieldID followed by the coding join on (Coding, FieldValue) = (Coding, Value). */
  function Decode(rows: seq<Row>, dict: seq<DictEntry>, codings: seq<CodingEntry>): (r: seq<Decoded>)
    ensures |r| >= |rows|
  {
    var withDict := LeftJoin(rows, dict, RowField, EntryField);
    var withCoding := LeftJoin(withDict, codings, CodingKey, EntryKey);
    seq(|withCoding|, i requires 0 <= i < |withCoding| =>
      Decoded(withCoding[i].0.0, withCoding[i].0.1, MeaningOf(withCoding[i].1)))
  }

  /** What a decoded row carries: the dictionary line of its FieldID, null exactly on a dictionary miss,
      and the Meaning of the coding line matching (Coding, FieldValue), null exactly when there is none. */
  predicate DecodedFrom(d: Decoded, dict: seq<DictEntry>, codings: seq<CodingEntry>)
  {
    (d.entry.Some? ==> d.entry.value in dict && d.entry.value.fieldID == d.row.fieldID) &&
    (d.entry.None? ==> forall j :: 0 <= j < |dict| ==> dict[j].fieldID != d.row.fieldID) &&
    (d.meaning.Some? ==> exists c :: c in codings && Some(c.coding) == CodingOf(d.entry) &&
                                     c.value == d.row.fieldValue && c.meaning == d.meaning.value) &&
    (d.meaning.None? ==> forall j :: 0 <= j < |codings| ==>
                           !(Some(codings[j].coding) == CodingOf(d.entry) && codings[j].value == d.row.fieldValue))
  }

  /** Every decoded row comes from an input row and holds what the two lookups give. */
  lemma DecodeFacts(rows: seq<Row>, dict: seq<DictEntry>, codings: seq<CodingEntry>)
    ensures forall d :: d in Decode(rows, dict, codings) ==> d.row in rows && DecodedFrom(d, dict, codings)
  {
    var withDict := LeftJoin(rows, dict, RowField, EntryField);
    var withCoding := LeftJoin(withDict, codings, CodingKey, EntryKey);
    LeftJoinPairs(rows, dict, RowField, EntryField);
    LeftJoinPairs(withDict, codings, CodingKey, EntryKey);
    var r := Decode(rows, dict, codings);
    forall d | d in r ensures d.row in rows && DecodedFrom(d, dict, codings) {
      var i :| 0 <= i < |r| && r[i] == d;
      assert withCoding[i] in withCoding;
      assert withCoding[i].0 in withDict;
    }
  }

  /** A dictionary or coding miss never drops a row: every input row is still there after decoding. */
  lemma DecodeKeepsRows(rows: seq<Row>, dict: seq<DictEntry>, codings: seq<CodingEntry>)
    ensures forall x :: x in rows ==> exists d :: d in Decode(rows, dict, codings) && d.row == x
  {
    var withDict := LeftJoin(rows, dict, RowField, EntryField);
    var withCoding := LeftJoin(withDict, codings, CodingKey, EntryKey);
    LeftJoinKeepsRows(rows, dict, RowField, EntryField);
    LeftJoinKeepsRows(withDict, codings, CodingKey, EntryKey);
    var r := Decode(rows, dict, codings);
    forall x | x in rows ensures exists d :: d in r && d.row == x {
      var p :| p in withDict && p.0 == x;
      var q :| q in withCoding && q.0 == p;
      var i :| 0 <= i < |withCoding| && withCoding[i] == q;
      assert r[i] in r;
    }
  }

  /** A row with the dictionary line of its FieldID and the Meaning of its (Coding, FieldValue), looked up
      in tables with unique keys. */
  function Lookups(x: Row, dict: seq<DictEntry>, codings: seq<CodingEntry>): Decoded
  {
    var e := Lookup(dict, x.fieldID, EntryField);
    Decoded(x, e, MeaningOf(Lookup(codings, (CodingOf(e), x.fieldValue), EntryKey)))
  }

  /** With a dictionary keyed by FieldID and a coding table keyed by (Coding, Value), decoding is
      one-to-one: the i-th decoded row is the i-th input row with its two lookups. */
  lemma DecodeUnique(rows: seq<Row>, dict: seq<DictEntry>, codings: seq<CodingEntry>)
    requires UniqueKeys(dict, EntryField)
    requires UniqueKeys(codings, EntryKey)
    ensures |Decode(rows, dict, codings)| == |rows|
    ensures forall i :: 0 <= i < |rows| ==> Decode(rows, dict, codings)[i] == Lookups(rows[i], dict, codings)
  {
    var withDict := LeftJoin(rows, dict, RowField, EntryField);
    LeftJoinUnique(rows, dict, RowField, EntryField);
    LeftJoinUnique(withDict, codings, CodingKey, EntryKey);
  }

  /** `Meaning.is_in(nulls)`; a null Meaning is not in any list. */
  predicate MeaningListed(d: Decoded, nulls: seq<string>)
  {
    d.meaning.Some? && d.meaning.value in nulls
  }

  function MeaningNotListed(nulls: seq<string>): Decoded -> bool
  {
    (d: Decoded) => !MeaningListed(d, nulls)
  }

  /** `drop_null_strings`: removes exactly the rows whose Meaning is listed; no-op for an empty list. */
  function DropNullStrings(ds: seq<Decoded>, nulls: seq<string>): (r: seq<Decoded>)
    ensures nulls == [] ==> r == ds
    ensures forall d :: d in r <==> d in ds && !MeaningListed(d, nulls)
  {
    if nulls == [] then ds
    else
      FilterMembers(ds, MeaningNotListed(nulls));
      Filter(ds, MeaningNotListed(nulls))
  }

  /** The drop neither repeats nor loses a kept row. */
  lemma DropNullStringsCount(ds: seq<Decoded>, nulls: seq<string>)
    ensures forall d :: multiset(DropNullStrings(ds, nulls))[d] == if !MeaningListed(d, nulls) then multiset(ds)[d] else 0
  {
    if nulls != [] {
      FilterCount(ds, MeaningNotListed(nulls));
    }
  }

  /** The drop keeps the surviving rows in their original order. */
  lemma DropNullStringsConcat(a: seq<Decoded>, b: seq<Decoded>, nulls: seq<string>)
    ensures DropNullStrings(a + b, nulls) == DropNullStrings(a, nulls) + DropNullStrings(b, nulls)
  {
    if nulls != [] {
      FilterConcat(a, b, MeaningNotListed(nulls));
    }
  }

  /** `FieldValue.cast(Float64, strict=False).is_in(nulls)`: an unparsable value is null and never listed. */
  predicate NumberListed(d: Decoded, nulls: seq<real>, parseNum: string -> Option<real>)
  {
    parseNum(d.row.fieldValue).Some? && parseNum(d.row.fieldValue).value in nulls
  }

  function NumberNotListed(nulls: seq<real>, parseNum: string -> Option<real>): Decoded -> bool
  {
    (d: Decoded) => !NumberListed(d, nulls, parseNum)
  }

  /** `drop_null_numerics`: removes exactly the rows whose value parses to a listed number; no-op for an empty list. */
  function DropNullNumerics(ds: seq<Decoded>, nulls: seq<real>, parseNum: string -> Option<real>): (r: seq<Decoded>)
    ensures nulls == [] ==> r == ds
    ensures forall d :: d in r <==> d in ds && !NumberListed(d, nulls, parseNum)
  {
    if nulls == [] then ds
    else
      FilterMembers(ds, NumberNotListed(nulls, parseNum));
      Filter(ds, NumberNotListed(nulls, parseNum))
  }

  /** The drop neither repeats nor loses a kept row. */
  lemma DropNullNumericsCount(ds: seq<Decoded>, nulls: seq<real>, parseNum: string -> Option<real>)
    ensures forall d :: multiset(DropNullNumerics(ds, nulls, parseNum))[d] == if !NumberListed(d, nulls, parseNum) then multiset(ds)[d] else 0
  {
    if nulls != [] {
      FilterCount(ds, NumberNotListed(nulls, parseNum));
    }
  }

  /** The drop keeps the surviving rows in their original order. */
  lemma DropNullNumericsConcat(a: seq<Decoded>, b: seq<Decoded>, nulls: seq<real>, parseNum: string -> Option<real>)
    ensures DropNullNumerics(a + b, nulls, parseNum) == DropNullNumerics(a, nulls, parseNum) + DropNullNumerics(b, nulls, parseNum)
  {
    if nulls != [] {
      FilterConcat(a, b, NumberNotListed(nulls, parseNum));
    }
  }

  /** `d` and `e` agree on everything but the FieldValue. */
  predicate SameButValue(d: Decoded, e: Decoded)
  {
    e == d.(row := d.row.(fieldValue := e.row.fieldValue))
  }

  /** `recode_data_values`: FieldValue becomes Meaning exactly where Meaning is not null. */
  function RecodeValues(ds: seq<Decoded>, on: bool): (r: seq<Decoded>)
    ensures |r| == |ds|
    ensures forall i :: 0 <= i < |ds| ==> SameButValue(ds[i], r[i])
    ensures forall i :: 0 <= i < |ds| ==>
      r[i].row.fieldValue == if on && ds[i].meaning.Some? then ds[i].meaning.value else ds[i].row.fieldValue
  {
    if !on then ds
    else
      seq(|ds|, i requires 0 <= i < |ds| =>
        var d := ds[i];
        d.(row := d.row.(fieldValue := if d.meaning.Some? then d.meaning.value else d.row.fieldValue)))
  }

  /** Recoding twice is recoding once. */
  lemma RecodeValuesIdempotent(ds: seq<Decoded>, on: bool)
    ensures RecodeValues(RecodeValues(ds, on), on) == RecodeValues(ds, on)
  {
    var once := RecodeValues(ds, on);
    var twice := RecodeValues(once, on);
    forall i | 0 <= i < |ds| ensures twice[i] == once[i] {
      assert once[i].meaning == ds[i].meaning;
    }
  }

  const LessThan := "Less than"

  /** The guard of the substitution: FieldValue starts with "Less than" and ValueType is `valueType`. */
  predicate LessThanApplies(d: Decoded, valueType: string)
  {
    StartsWith(d.row.fieldValue, LessThan) && ValueTypeOf(d.entry) == Some(valueType)
  }

  /** `convert_less_than_value_*`: when a substitute is set, rows passing the guard get it as FieldValue. */
  function SubstituteLessThan(ds: seq<Decoded>, substitute: Option<string>, valueType: string): (r: seq<Decoded>)
    ensures |r| == |ds|
    ensures forall i :: 0 <= i < |ds| ==> SameButValue(ds[i], r[i])
    ensures forall i :: 0 <= i < |ds| ==>
      r[i].row.fieldValue == if substitute.Some? && LessThanApplies(ds[i], valueType) then substitute.value else ds[i].row.fieldValue
  {
    if substitute.None? then ds
    else
      seq(|ds|, i requires 0 <= i < |ds| =>
        var d := ds[i];
        if LessThanApplies(d, valueType) then d.(row := d.row.(fieldValue := substitute.value)) else d)
  }

  /** The Integer and Continuous substitutions touch disjoint rows, so running them in either order agrees. */
  lemma LessThanStagesCommute(ds: seq<Decoded>, integer: Option<string>, continuous: Option<string>)
    ensures SubstituteLessThan(SubstituteLessThan(ds, integer, "Integer"), continuous, "Continuous")
         == SubstituteLessThan(SubstituteLessThan(ds, continuous, "Continuous"), integer, "Integer")
  {
    var a1 := SubstituteLessThan(ds, integer, "Integer");
    var a := SubstituteLessThan(a1, continuous, "Continuous");
    var b1 := SubstituteLessThan(ds, continuous, "Continuous");
    var b := SubstituteLessThan(b1, integer, "Integer");
    forall i | 0 <= i < |ds| ensures a[i] == b[i] {
      assert a1[i].entry == ds[i].entry && b1[i].entry == ds[i].entry;
    }
  }

  /** The example of the substitution: "Less than 5" becomes the integer substitute on an Integer field
      and stays as it is on a Continuous field when only the integer substitute is configured. */
  lemma LessThanExample(x: Row, e: DictEntry)
    requires x.fieldValue == "Less than 5"
    ensures e.valueType == "Integer" ==>
      SubstituteLessThan([Decoded(x, Some(e), None)], Some("1"), "Integer")[0].row.fieldValue == "1"
    ensures e.valueType == "Continuous" ==>
      SubstituteLessThan([Decoded(x, Some(e), None)], Some("1"), "Integer")[0].row.fieldValue == "Less than 5"
  {
    assert StartsWith(x.fieldValue, LessThan) by {
      assert x.fieldValue[..|LessThan|] == LessThan;
    }
  }

  /** `recode_field_names`: `Field + "_" + str(FieldID)`, null when the dictionary has no Field. */
  function FieldKeyOf(d: Decoded, recodeNames: bool): (k: FieldKey)
    ensures !recodeNames ==> k == Numeric(d.row.fieldID)
    ensures recodeNames ==> (k.NullKey? <==> d.entry.None?)
    ensures recodeNames && d.entry.Some? ==> k == Named(d.entry.value.field + "_" + IntString(d.row.fieldID))
  {
    if !recodeNames then Numeric(d.row.fieldID)
    else if d.entry.Some? then Named(d.entry.value.field + "_" + IntString(d.row.fieldID))
    else NullKey
  }

  /** The recoded name gives back the FieldID: its last `_`-separated part is `str(FieldID)`,
      because decimal ids contain no `_`, and that text parses back to the id. */
  lemma RecodedNameRoundTrip(d: Decoded)
    requires d.entry.Some?
    ensures LastSegment(FieldKeyOf(d, true).name, '_') == IntString(d.row.fieldID)
    ensures ParseInt(LastSegment(FieldKeyOf(d, true).name, '_')) == d.row.fieldID
  {
    LastSegmentAfter(d.entry.value.field, '_', IntString(d.row.fieldID));
    IntStringRoundTrip(d.row.fieldID);
  }

  /** `select(["SubjectID", "InstanceID", "ArrayID", "FieldID", "FieldValue"])`. */
  function Project(ds: seq<Decoded>, recodeNames: bool): (r: seq<NarrowRow>)
    ensures |r| == |ds|
    ensures forall i :: 0 <= i < |ds| ==>
      r[i].subjectID == ds[i].row.subjectID && r[i].instanceID == ds[i].row.instanceID &&
      r[i].arrayID == ds[i].row.arrayID && r[i].fieldValue == ds[i].row.fieldValue
    ensures forall i :: 0 <= i < |ds| ==> r[i].fieldID == FieldKeyOf(ds[i], recodeNames)
  {
    seq(|ds|, i requires 0 <= i < |ds| =>
      var d := ds[i];
      NarrowRow(d.row.subjectID, d.row.instanceID, d.row.arrayID, FieldKeyOf(d, recodeNames), d.row.fieldValue))
  }

  /** The FieldValue a decoded row ends with: its Meaning when value recoding is on and it has one,
      otherwise its own value; then, when that starts with "Less than", the Integer substitute on an
      Integer field or the Continuous substitute on a Continuous field, where one is configured. */
  function FinalValue(d: Decoded, s: Settings): string
  {
    var v := if s.recodeDataValues && d.meaning.Some? then d.meaning.value else d.row.fieldValue;
    if StartsWith(v, LessThan) && s.lessThanInteger.Some? && ValueTypeOf(d.entry) == Some("Integer") then
      s.lessThanInteger.value
    else if StartsWith(v, LessThan) && s.lessThanContinuous.Some? && ValueTypeOf(d.entry) == Some("Continuous") then
      s.lessThanContinuous.value
    else v
  }

  /** The narrow row a decoded row becomes, stated row by row. */
  function NarrowOf(d: Decoded, s: Settings): NarrowRow
  {
    NarrowRow(d.row.subjectID, d.row.instanceID, d.row.arrayID, FieldKeyOf(d, s.recodeFieldNames), FinalValue(d, s))
  }

  /** A decoded row survives both null-code drops. */
  predicate Survives(d: Decoded, s: Settings, parseNum: string -> Option<real>)
  {
    !MeaningListed(d, s.dropNullStrings) && !NumberListed(d, s.dropNullNumerics, parseNum)
  }

  /** The stages after the drops: value recoding, the Integer then the Continuous substitution,
      field-name recoding and projection. Together they turn each row into its `NarrowOf`. */
  function Finish(ds: seq<Decoded>, s: Settings): (r: seq<NarrowRow>)
    ensures |r| == |ds|
    ensures forall i :: 0 <= i < |ds| ==> r[i] == NarrowOf(ds[i], s)
  {
    var recoded := RecodeValues(ds, s.recodeDataValues);
    var integer := SubstituteLessThan(recoded, s.lessThanInteger, "Integer");
    var substituted := SubstituteLessThan(integer, s.lessThanContinuous, "Continuous");
    var r := Project(substituted, s.recodeFieldNames);
    assert forall i :: 0 <= i < |ds| ==> r[i] == NarrowOf(ds[i], s) by {
      forall i | 0 <= i < |ds| ensures r[i] == NarrowOf(ds[i], s) {
        assert substituted[i].entry == integer[i].entry == recoded[i].entry == ds[i].entry;
        assert substituted[i].row.fieldID == ds[i].row.fieldID;
        assert FieldKeyOf(substituted[i], s.recodeFieldNames) == FieldKeyOf(ds[i], s.recodeFieldNames);
      }
    }
    r
  }

  /** The decoding steps in their order: joins, null drops, then `Finish`. */
  function DecodeStages(rows: seq<Row>, s: Settings, dict: seq<DictEntry>, codings: seq<CodingEntry>,
                        parseNum: string -> Option<real>): (r: seq<NarrowRow>)
    ensures |r| <= |Decode(rows, dict, codings)|
    ensures s.dropNullStrings == [] && s.dropNullNumerics == [] ==> |r| == |Decode(rows, dict, codings)|
  {
    var joined := Decode(rows, dict, codings);
    Finish(DropNullNumerics(DropNullStrings(joined, s.dropNullStrings), s.dropNullNumerics, parseNum), s)
  }

  /** A narrow row leaves the decoding stages iff it is `NarrowOf` a decoded row that survives both drops. */
  lemma DecodeStagesMembers(rows: seq<Row>, s: Settings, dict: seq<DictEntry>, codings: seq<CodingEntry>,
                            parseNum: string -> Option<real>)
    ensures forall o :: o in DecodeStages(rows, s, dict, codings, parseNum) <==>
      exists d :: d in Decode(rows, dict, codings) && Survives(d, s, parseNum) && o == NarrowOf(d, s)
  {
    var joined := Decode(rows, dict, codings);
    var kept := DropNullNumerics(DropNullStrings(joined, s.dropNullStrings), s.dropNullNumerics, parseNum);
    var out := Finish(kept, s);
    assert forall d :: d in kept <==> d in joined && Survives(d, s, parseNum);
    forall o ensures o in out <==> exists d :: d in kept && o == NarrowOf(d, s) {
      if o in out {
        var i :| 0 <= i < |out| && out[i] == o;
        assert kept[i] in kept;
      }
      if exists d :: d in kept && o == NarrowOf(d, s) {
        var d :| d in kept && o == NarrowOf(d, s);
        var i :| 0 <= i < |kept| && kept[i] == d;
        assert out[i] == o;
      }
    }
  }

  /** The FieldID column `k` of a row with FieldID `fieldID`: the id itself without recoding; with
      recoding, `Field + "_" + str(FieldID)` for the field's dictionary line, or null exactly when the
      dictionary has no line for it. */
  predicate NamedAs(k: FieldKey, fieldID: int, recodeNames: bool, dict: seq<DictEntry>)
  {
    (!recodeNames ==> k == Numeric(fieldID)) &&
    (recodeNames ==> (k.NullKey? <==> forall j :: 0 <= j < |dict| ==> dict[j].fieldID != fieldID)) &&
    (recodeNames && !k.NullKey? ==>
       exists e :: e in dict && e.fieldID == fieldID && k == Named(e.field + "_" + IntString(fieldID)))
  }

  /** The FieldID column of a decoded row is named as its dictionary line says. */
  lemma FieldKeyNamed(d: Decoded, recodeNames: bool, dict: seq<DictEntry>, codings: seq<CodingEntry>)
    requires DecodedFrom(d, dict, codings)
    ensures NamedAs(FieldKeyOf(d, recodeNames), d.row.fieldID, recodeNames, dict)
  {
    if recodeNames && d.entry.Some? {
      var j :| 0 <= j < |dict| && dict[j] == d.entry.value;
      assert dict[j].fieldID == d.row.fieldID;
    }
  }

  /** Output row `o` keeps the SubjectID, InstanceID and ArrayID of input row `x`, and its FieldID
      column is the one `x` is named by. */
  predicate DerivedFrom(o: NarrowRow, x: Row, s: Settings, dict: seq<DictEntry>)
  {
    o.subjectID == x.subjectID && o.instanceID == x.instanceID && o.arrayID == x.arrayID &&
    NamedAs(o.fieldID, x.fieldID, s.recodeFieldNames, dict)
  }

  /** Decoding never alters SubjectID, InstanceID or ArrayID: every output row derives from an input row. */
  lemma DecodeStagesKeepKeys(rows: seq<Row>, s: Settings, dict: seq<DictEntry>, codings: seq<CodingEntry>,
                             parseNum: string -> Option<real>)
    ensures forall o :: o in DecodeStages(rows, s, dict, codings, parseNum) ==> exists x :: x in rows && DerivedFrom(o, x, s, dict)
  {
    var joined := Decode(rows, dict, codings);
    var kept := DropNullNumerics(DropNullStrings(joined, s.dropNullStrings), s.dropNullNumerics, parseNum);
    var out := Finish(kept, s);
    DecodeFacts(rows, dict, codings);
    forall o | o in out ensures exists x :: x in rows && DerivedFrom(o, x, s, dict) {
      var i :| 0 <= i < |out| && out[i] == o;
      var d := kept[i];
      assert d in kept;
      assert d in joined;
      FieldKeyNamed(d, s.recodeFieldNames, dict, codings);
      assert DerivedFrom(o, d.row, s, dict);
    }
  }

  /** With no null codes to drop and tables keyed as the reference data is, decoding keeps every row
      in place: output row i is input row i with its two lookups, recoded, substituted and named. */
  lemma DecodeStagesOneToOne(rows: seq<Row>, s: Settings, dict: seq<DictEntry>, codings: seq<CodingEntry>,
                             parseNum: string -> Option<real>)
    requires s.dropNullStrings == [] && s.dropNullNumerics == []
    requires UniqueKeys(dict, EntryField)
    requires UniqueKeys(codings, EntryKey)
    ensures |DecodeStages(rows, s, dict, codings, parseNum)| == |rows|
    ensures forall i :: 0 <= i < |rows| ==> DerivedFrom(DecodeStages(rows, s, dict, codings, parseNum)[i], rows[i], s, dict)
    ensures forall i :: 0 <= i < |rows| ==>
      DecodeStages(rows, s, dict, codings, parseNum)[i] == NarrowOf(Lookups(rows[i], dict, codings), s)
  {
    DecodeUnique(rows, dict, codings);
    var joined := Decode(rows, dict, codings);
    var out := Finish(joined, s);
    DecodeFacts(rows, dict, codings);
    forall i | 0 <= i < |rows| ensures DerivedFrom(out[i], rows[i], s, dict) {
      assert joined[i] in joined;
      FieldKeyNamed(joined[i], s.recodeFieldNames, dict, codings);
    }
  }
}
