/** The wide result: the pivot of the narrow rows on (SubjectID, InstanceID, ArrayID) with one column per
    FieldID, and the per-column type coercion whose failures stay confined to their column. */
module Wide {
  import opened Wrappers
  import opened Tables
  import opened Seqs
  import opened Text

  /** The pivot index (SubjectID, InstanceID, ArrayID). */
  datatype Key = Key(subjectID: int, instanceID: int, arrayID: int)

  function KeyOf(o: NarrowRow): Key
  {
    Key(o.subjectID, o.instanceID, o.arrayID)
  }

  /** The column name a FieldID value becomes: `str(FieldID)`, the recoded name, or "null". */
  function ColumnName(f: FieldKey): string
  {
    match f
    case Numeric(id) => IntString(id)
    case Named(name) => name
    case NullKey => "null"
  }

  /** Column types of the wide table. */
  datatype ColumnType = Utf8 | Date | Datetime | Float64 | Int64 | Categorical | ListUtf8

  /** A cell: null, text as pivoted, the parts of a split Compound value, or a value converted to `dtype`. */
  datatype Cell = Null | Str(s: string) | Parts(items: seq<string>) | Typed(dtype: ColumnType, source: string)

  datatype Column = Column(name: string, dtype: ColumnType, cells: seq<Cell>)

  /** One row per key (the three index columns), then the value columns. */
  datatype WideTable = WideTable(keys: seq<Key>, columns: seq<Column>)

  /** The cell of the pivot at (k, f): the value of the first narrow row with that key and FieldID, or null. */
  function CellAt(narrow: seq<NarrowRow>, k: Key, f: FieldKey): (c: Cell)
    ensures c.Null? || c.Str?
  {
    if narrow == [] then Null
    else if KeyOf(narrow[0]) == k && narrow[0].fieldID == f then Str(narrow[0].fieldValue)
    else CellAt(narrow[1..], k, f)
  }

  /** The distinct keys, in order of first occurrence. */
  function PivotKeys(narrow: seq<NarrowRow>): seq<Key>
  {
    Dedup(seq(|narrow|, i requires 0 <= i < |narrow| => KeyOf(narrow[i])))
  }

  /** The distinct FieldIDs, in order of first occurrence. */
  function PivotFields(narrow: seq<NarrowRow>): seq<FieldKey>
  {
    Dedup(seq(|narrow|, i requires 0 <= i < |narrow| => narrow[i].fieldID))
  }

  /** `pivot(index=[SubjectID, InstanceID, ArrayID], values=FieldValue, columns=FieldID)`. */
  function Pivot(narrow: seq<NarrowRow>): (w: WideTable)
    ensures NoDup(w.keys)
    ensures forall k :: k in w.keys <==> exists o :: o in narrow && KeyOf(o) == k
    ensures |w.columns| == |PivotFields(narrow)|
    ensures forall j :: 0 <= j < |w.columns| ==>
      w.columns[j].name == ColumnName(PivotFields(narrow)[j]) && w.columns[j].dtype == Utf8 &&
      |w.columns[j].cells| == |w.keys|
  {
    var keys := PivotKeys(narrow);
    var fields := PivotFields(narrow);
    var ks := seq(|narrow|, i requires 0 <= i < |narrow| => KeyOf(narrow[i]));
    assert forall k :: k in keys <==> exists o :: o in narrow && KeyOf(o) == k by {
      forall k | k in keys ensures exists o :: o in narrow && KeyOf(o) == k {
        var i :| 0 <= i < |ks| && ks[i] == k;
        assert narrow[i] in narrow;
      }
      forall o | o in narrow ensures KeyOf(o) in keys {
        var i :| 0 <= i < |narrow| && narrow[i] == o;
        assert ks[i] == KeyOf(o);
      }
    }
    WideTable(keys, seq(|fields|, j requires 0 <= j < |fields| =>
      Column(ColumnName(fields[j]), Utf8, seq(|keys|, i requires 0 <= i < |keys| => CellAt(narrow, keys[i], fields[j])))))
  }

  /** The FieldIDs of the pivot are exactly those of the narrow rows, each once. */
  lemma PivotFieldsExact(narrow: seq<NarrowRow>)
    ensures NoDup(PivotFields(narrow))
    ensures forall f :: f in PivotFields(narrow) <==> exists o :: o in narrow && o.fieldID == f
  {
    var fs := seq(|narrow|, i requires 0 <= i < |narrow| => narrow[i].fieldID);
    forall f | f in PivotFields(narrow) ensures exists o :: o in narrow && o.fieldID == f {
      var i :| 0 <= i < |fs| && fs[i] == f;
      assert narrow[i] in narrow;
    }
    forall o | o in narrow ensures o.fieldID in PivotFields(narrow) {
      var i :| 0 <= i < |narrow| && narrow[i] == o;
      assert fs[i] == o.fieldID;
    }
  }

  /** No two narrow rows share both key and FieldID (the case where the pivot needs no aggregation). */
  predicate NoDuplicateEntries(narrow: seq<NarrowRow>)
  {
    forall i, j :: 0 <= i < j < |narrow| ==> KeyOf(narrow[i]) != KeyOf(narrow[j]) || narrow[i].fieldID != narrow[j].fieldID
  }

  /** A cell is null exactly when no row has its key and FieldID; otherwise it holds the value of such a row. */
  lemma {:induction false} CellAtExact(narrow: seq<NarrowRow>, k: Key, f: FieldKey)
    ensures CellAt(narrow, k, f).Null? <==> forall o :: o in narrow ==> KeyOf(o) != k || o.fieldID != f
    ensures CellAt(narrow, k, f).Str? ==>
      exists o :: o in narrow && KeyOf(o) == k && o.fieldID == f && o.fieldValue == CellAt(narrow, k, f).s
  {
    if narrow != [] {
      CellAtExact(narrow[1..], k, f);
      assert forall o :: o in narrow <==> o == narrow[0] || o in narrow[1..] by {
        assert narrow == [narrow[0]] + narrow[1..];
      }
    }
  }

  /** First write wins: a text cell holds the value of the earliest narrow row with its key and FieldID. */
  lemma {:induction false} CellAtFirst(narrow: seq<NarrowRow>, k: Key, f: FieldKey)
    ensures CellAt(narrow, k, f).Str? ==>
      exists i :: 0 <= i < |narrow| && KeyOf(narrow[i]) == k && narrow[i].fieldID == f &&
        CellAt(narrow, k, f) == Str(narrow[i].fieldValue) &&
        forall j :: 0 <= j < i ==> KeyOf(narrow[j]) != k || narrow[j].fieldID != f
  {
    if narrow != [] {
      if KeyOf(narrow[0]) == k && narrow[0].fieldID == f {
        assert CellAt(narrow, k, f) == Str(narrow[0].fieldValue);
      } else if CellAt(narrow, k, f).Str? {
        var rest := narrow[1..];
        CellAtFirst(rest, k, f);
        var i :| 0 <= i < |rest| && KeyOf(rest[i]) == k && rest[i].fieldID == f &&
          CellAt(rest, k, f) == Str(rest[i].fieldValue) &&
          forall j :: 0 <= j < i ==> KeyOf(rest[j]) != k || rest[j].fieldID != f;
        assert narrow[i + 1] == rest[i];
        forall j | 0 <= j < i + 1 ensures KeyOf(narrow[j]) != k || narrow[j].fieldID != f {
          if j > 0 {
            assert narrow[j] == rest[j - 1];
          }
        }
      }
    }
  }

  /** Without duplicate entries, a cell holds the value of the one row with its key and FieldID. */
  lemma {:induction false} CellAtUnique(narrow: seq<NarrowRow>, k: Key, f: FieldKey)
    requires NoDuplicateEntries(narrow)
    ensures forall o :: o in narrow && KeyOf(o) == k && o.fieldID == f ==> CellAt(narrow, k, f) == Str(o.fieldValue)
  {
    if narrow != [] {
      assert NoDuplicateEntries(narrow[1..]) by {
        forall i, j | 0 <= i < j < |narrow[1..]|
          ensures KeyOf(narrow[1..][i]) != KeyOf(narrow[1..][j]) || narrow[1..][i].fieldID != narrow[1..][j].fieldID
        {
          assert narrow[1..][i] == narrow[i + 1] && narrow[1..][j] == narrow[j + 1];
        }
      }
      CellAtUnique(narrow[1..], k, f);
      forall o | o in narrow && KeyOf(o) == k && o.fieldID == f ensures CellAt(narrow, k, f) == Str(o.fieldValue) {
        var j :| 0 <= j < |narrow| && narrow[j] == o;
        if j > 0 {
          assert o in narrow[1..] by { assert narrow[1..][j - 1] == o; }
        }
      }
    }
  }

  /** Row `i`, column `j` of the pivot is where `o` belongs, and it holds o's value. */
  predicate FoundAt(narrow: seq<NarrowRow>, o: NarrowRow, i: int, j: int)
  {
    var w := Pivot(narrow);
    0 <= i < |w.keys| && 0 <= j < |w.columns| && w.keys[i] == KeyOf(o) &&
    PivotFields(narrow)[j] == o.fieldID && w.columns[j].cells[i] == Str(o.fieldValue)
  }

  /** The pivot keeps every row: without duplicate entries, a narrow row's value is the cell at its key and
      FieldID. */
  lemma PivotFindsRow(narrow: seq<NarrowRow>, o: NarrowRow)
    requires NoDuplicateEntries(narrow)
    requires o in narrow
    ensures exists i, j :: FoundAt(narrow, o, i, j)
  {
    var w := Pivot(narrow);
    var fields := PivotFields(narrow);
    var ks := seq(|narrow|, i requires 0 <= i < |narrow| => KeyOf(narrow[i]));
    var fs := seq(|narrow|, i requires 0 <= i < |narrow| => narrow[i].fieldID);
    var n :| 0 <= n < |narrow| && narrow[n] == o;
    assert ks[n] == KeyOf(o) && fs[n] == o.fieldID;
    assert w.keys == Dedup(ks) && fields == Dedup(fs);
    var i :| 0 <= i < |w.keys| && w.keys[i] == KeyOf(o);
    var j :| 0 <= j < |fields| && fields[j] == o.fieldID;
    CellAtUnique(narrow, KeyOf(o), o.fieldID);
    assert w.columns[j].cells[i] == CellAt(narrow, KeyOf(o), o.fieldID);
    assert FoundAt(narrow, o, i, j);
  }

  /** The pivot invents nothing: a non-null cell is the value of a narrow row with that key and FieldID,
      and a null cell means there is no such row. */
  lemma PivotCellFromRow(narrow: seq<NarrowRow>, i: int, j: int)
    requires 0 <= i < |Pivot(narrow).keys| && 0 <= j < |Pivot(narrow).columns|
    ensures Pivot(narrow).columns[j].cells[i].Null? <==>
      forall o :: o in narrow ==> KeyOf(o) != Pivot(narrow).keys[i] || o.fieldID != PivotFields(narrow)[j]
    ensures Pivot(narrow).columns[j].cells[i].Str? ==>
      exists o :: o in narrow && KeyOf(o) == Pivot(narrow).keys[i] && o.fieldID == PivotFields(narrow)[j] &&
        Pivot(narrow).columns[j].cells[i] == Str(o.fieldValue)
  {
    var w := Pivot(narrow);
    CellAtExact(narrow, w.keys[i], PivotFields(narrow)[j]);
    assert w.columns[j].cells[i] == CellAt(narrow, w.keys[i], PivotFields(narrow)[j]);
  }

  /** Two fields of one subject, instance and array pivot to a single row with one column per field. */
  lemma PivotExample()
    ensures Pivot([NarrowRow(1, 0, 0, Named("10"), "5"), NarrowRow(1, 0, 0, Named("20"), "7")]) ==
      WideTable([Key(1, 0, 0)], [Column("10", Utf8, [Str("5")]), Column("20", Utf8, [Str("7")])])
  {
    var narrow := [NarrowRow(1, 0, 0, Named("10"), "5"), NarrowRow(1, 0, 0, Named("20"), "7")];
    var ks := PivotKeys(narrow);
    var fs := PivotFields(narrow);
    PivotKeysExample(narrow);
    PivotFieldsExample(narrow);
    var w := Pivot(narrow);
    assert w.keys == [Key(1, 0, 0)];
    assert CellAt(narrow, Key(1, 0, 0), Named("10")) == Str("5");
    assert CellAt(narrow, Key(1, 0, 0), Named("20")) == Str("7");
    assert w.columns[0] == Column("10", Utf8, [Str("5")]);
    assert w.columns[1] == Column("20", Utf8, [Str("7")]);
  }

  lemma PivotKeysExample(narrow: seq<NarrowRow>)
    requires narrow == [NarrowRow(1, 0, 0, Named("10"), "5"), NarrowRow(1, 0, 0, Named("20"), "7")]
    ensures PivotKeys(narrow) == [Key(1, 0, 0)]
  {
    var ks := seq(|narrow|, i requires 0 <= i < |narrow| => KeyOf(narrow[i]));
    assert ks == [Key(1, 0, 0), Key(1, 0, 0)];
    assert ks[..1] == [Key(1, 0, 0)] && ks[..1][..0] == [];
    assert Dedup(ks[..1]) == [Key(1, 0, 0)];
  }

  lemma PivotFieldsExample(narrow: seq<NarrowRow>)
    requires narrow == [NarrowRow(1, 0, 0, Named("10"), "5"), NarrowRow(1, 0, 0, Named("20"), "7")]
    ensures PivotFields(narrow) == [Named("10"), Named("20")]
  {
    var fs := seq(|narrow|, i requires 0 <= i < |narrow| => narrow[i].fieldID);
    assert fs == [Named("10"), Named("20")];
    assert fs[..1] == [Named("10")] && fs[..1][..0] == [];
    assert Dedup(fs[..1]) == [Named("10")];
  }

  /** The ValueTypes the type table lists. */
  const KnownValueTypes := ["Date", "Time", "Continuous", "Text", "Integer", "Categorical multiple",
                            "Categorical single", "Compound"]

  /** The type table: the column type for a ValueType, none for a ValueType it does not list. */
  function DtypeFor(valueType: string): (t: Option<ColumnType>)
    ensures t.Some? <==> valueType in KnownValueTypes
    ensures t.Some? ==> t.value != ListUtf8
    ensures t == Some(Categorical) <==> valueType == "Categorical multiple" || valueType == "Categorical single"
    ensures t == Some(Utf8) <==> valueType == "Text" || valueType == "Compound"
    ensures t == Some(Int64) <==> valueType == "Integer"
    ensures t == Some(Float64) <==> valueType == "Continuous"
    ensures t == Some(Date) <==> valueType == "Date"
    ensures t == Some(Datetime) <==> valueType == "Time"
  {
    match valueType
    case "Date" => Some(Date)
    case "Time" => Some(Datetime)
    case "Continuous" => Some(Float64)
    case "Text" => Some(Utf8)
    case "Integer" => Some(Int64)
    case "Categorical multiple" => Some(Categorical)
    case "Categorical single" => Some(Categorical)
    case "Compound" => Some(Utf8)
    case _ => None
  }

  function IdRendersAs(text: string): DictEntry -> bool
  {
    (e: DictEntry) => IntString(e.fieldID) == text
  }

  /** Line `i` is the only dictionary line whose `str(FieldID)` is `text`. */
  predicate SoleLine(dict: seq<DictEntry>, text: string, i: int)
    requires 0 <= i < |dict|
  {
    IntString(dict[i].fieldID) == text &&
    forall j :: 0 <= j < |dict| && j != i ==> IntString(dict[j].fieldID) != text
  }

  /** The ValueType of the dictionary line whose `str(FieldID)` is the column name's last `_` part;
      `.item()` raises unless there is exactly one such line. */
  function ValueTypeFor(dict: seq<DictEntry>, name: string): (r: Result<string, Error>)
    ensures r.Ok? <==> exists i :: 0 <= i < |dict| && SoleLine(dict, LastSegment(name, '_'), i)
    ensures forall i :: 0 <= i < |dict| && SoleLine(dict, LastSegment(name, '_'), i) ==> r == Ok(dict[i].valueType)
    ensures r.Err? ==> r.error == ValueTypeLookup(name)
  {
    var text := LastSegment(name, '_');
    var ms := Filter(dict, IdRendersAs(text));
    MatchesOfText(dict, text);
    if |ms| == 1 then
      assert exists i :: 0 <= i < |dict| && SoleLine(dict, LastSegment(name, '_'), i);
      Ok(ms[0].valueType)
    else Err(ValueTypeLookup(name))
  }

  /** The dictionary lines rendering as `text` are a single line exactly when one line is the sole one. */
  lemma MatchesOfText(dict: seq<DictEntry>, text: string)
    ensures |Filter(dict, IdRendersAs(text))| == 1 <==> exists i :: 0 <= i < |dict| && SoleLine(dict, text, i)
    ensures forall i :: 0 <= i < |dict| && SoleLine(dict, text, i) ==> Filter(dict, IdRendersAs(text)) == [dict[i]]
  {
    var p := IdRendersAs(text);
    FilterSingleton(dict, p);
    assert forall i :: 0 <= i < |dict| ==> (OnlyAt(dict, p, i) <==> SoleLine(dict, text, i));
    if |Filter(dict, p)| == 1 {
      var i :| 0 <= i < |dict| && OnlyAt(dict, p, i);
      assert SoleLine(dict, text, i);
    }
  }

  /** With FieldIDs unique in the dictionary, a column whose name ends in `_` and a field's FieldID,
      or is that FieldID, finds that field's line. */
  lemma ValueTypeForLine(dict: seq<DictEntry>, e: DictEntry, name: string)
    requires e in dict
    requires forall i, j :: 0 <= i < j < |dict| ==> dict[i].fieldID != dict[j].fieldID
    requires LastSegment(name, '_') == IntString(e.fieldID)
    ensures ValueTypeFor(dict, name) == Ok(e.valueType)
  {
    var j :| 0 <= j < |dict| && dict[j] == e;
    forall k | 0 <= k < |dict| && k != j ensures IntString(dict[k].fieldID) != IntString(e.fieldID) {
      IntStringInjective(dict[k].fieldID, e.fieldID);
    }
    assert SoleLine(dict, LastSegment(name, '_'), j);
  }

  /** With FieldIDs unique in the dictionary, the column of a field finds that field's line. */
  lemma ValueTypeForField(dict: seq<DictEntry>, e: DictEntry)
    requires e in dict
    requires forall i, j :: 0 <= i < j < |dict| ==> dict[i].fieldID != dict[j].fieldID
    ensures ValueTypeFor(dict, ColumnName(Numeric(e.fieldID))) == Ok(e.valueType)
  {
    LastSegmentWhole(ColumnName(Numeric(e.fieldID)), '_');
    ValueTypeForLine(dict, e, ColumnName(Numeric(e.fieldID)));
  }

  /** The same holds for the recoded `<Field>_<FieldID>` column of a field. */
  lemma ValueTypeForRecoded(dict: seq<DictEntry>, e: DictEntry)
    requires e in dict
    requires forall i, j :: 0 <= i < j < |dict| ==> dict[i].fieldID != dict[j].fieldID
    ensures ValueTypeFor(dict, ColumnName(Named(e.field + "_" + IntString(e.fieldID)))) == Ok(e.valueType)
  {
    LastSegmentAfter(e.field, '_', IntString(e.fieldID));
    ValueTypeForLine(dict, e, ColumnName(Named(e.field + "_" + IntString(e.fieldID))));
  }

  /** `try: cast except ComputeError: pass`: the cast result, or the column untouched when the cast fails. */
  function Attempt(col: Column, t: ColumnType, cast: (ColumnType, seq<Cell>) -> Option<seq<Cell>>): (r: Column)
    ensures r.name == col.name
    ensures cast(t, col.cells).None? ==> r == col
    ensures cast(t, col.cells).Some? ==> r.dtype == t && r.cells == cast(t, col.cells).value
  {
    match cast(t, col.cells)
    case None => col
    case Some(cells) => Column(col.name, t, cells)
  }

  /** `str.split(",")` on every text cell; it cannot fail. */
  function SplitColumn(col: Column): (r: Column)
    ensures r.name == col.name && r.dtype == ListUtf8 && |r.cells| == |col.cells|
    ensures forall i :: 0 <= i < |col.cells| && col.cells[i].Str? ==>
      r.cells[i].Parts? && |r.cells[i].items| > 0 && Join(r.cells[i].items, ',') == col.cells[i].s &&
      (forall k :: 0 <= k < |r.cells[i].items| ==> ',' !in r.cells[i].items[k])
  {
    var cells := seq(|col.cells|, i requires 0 <= i < |col.cells| =>
      match col.cells[i]
      case Str(s) => Parts(Split(s, ','))
      case other => other);
    assert forall i :: 0 <= i < |col.cells| && col.cells[i].Str? ==> Join(cells[i].items, ',') == col.cells[i].s by {
      forall i | 0 <= i < |col.cells| && col.cells[i].Str? ensures Join(cells[i].items, ',') == col.cells[i].s {
        SplitJoin(col.cells[i].s, ',');
      }
    }
    Column(col.name, ListUtf8, cells)
  }

  /** The coercion of one column by its ValueType. A failed cast or parse leaves the column unchanged;
      a failed dictionary lookup or a ValueType missing from the type table raises. */
  function CoerceColumn(col: Column, dict: seq<DictEntry>, convertCompound: bool,
                        cast: (ColumnType, seq<Cell>) -> Option<seq<Cell>>): (r: Result<Column, Error>)
    ensures r.Ok? <==> ValueTypeFor(dict, col.name).Ok? && DtypeFor(ValueTypeFor(dict, col.name).value).Some?
    ensures r.Ok? ==> r.value.name == col.name
    ensures r.Ok? && !(convertCompound && ValueTypeFor(dict, col.name).value == "Compound") ==>
      r.value == Attempt(col, DtypeFor(ValueTypeFor(dict, col.name).value).value, cast)
    ensures r.Ok? && convertCompound && ValueTypeFor(dict, col.name).value == "Compound" ==> r.value == SplitColumn(col)
    ensures r.Err? && ValueTypeFor(dict, col.name).Err? ==> r.error == ValueTypeLookup(col.name)
    ensures r.Err? && ValueTypeFor(dict, col.name).Ok? ==> r.error == UnknownValueType(ValueTypeFor(dict, col.name).value)
  {
    match ValueTypeFor(dict, col.name)
    case Err(e) => Err(e)
    case Ok(vt) =>
      if vt == "Date" then Ok(Attempt(col, Date, cast))
      else if vt == "Time" then Ok(Attempt(col, Datetime, cast))
      else if vt == "Compound" && convertCompound then Ok(SplitColumn(col))
      else
        match DtypeFor(vt)
        case None => Err(UnknownValueType(vt))
        case Some(t) => Ok(Attempt(col, t, cast))
  }

  /** No column's coercion raises. */
  predicate AllCoerce(columns: seq<Column>, coerce: Column -> Result<Column, Error>)
  {
    forall j :: 0 <= j < |columns| ==> coerce(columns[j]).Ok?
  }

  /** Column j is the first whose coercion raises, and it raises `e`. */
  predicate FirstFailure(columns: seq<Column>, coerce: Column -> Result<Column, Error>, j: int, e: Error)
    requires 0 <= j < |columns|
  {
    coerce(columns[j]) == Err(e) && forall i :: 0 <= i < j ==> coerce(columns[i]).Ok?
  }

  /** The coercion loop over the value columns, reassigning the table column by column with the
      per-column coercion `coerce` (`CoerceColumn` in a run). Each column's outcome depends on that
      column alone; the loop stops at the first column that raises. */
  method CoerceColumns(w: WideTable, coerce: Column -> Result<Column, Error>) returns (r: Result<WideTable, Error>)
    ensures r.Ok? <==> AllCoerce(w.columns, coerce)
    ensures r.Ok? ==> r.value.keys == w.keys && |r.value.columns| == |w.columns|
    ensures r.Ok? ==> forall j :: 0 <= j < |w.columns| ==> r.value.columns[j] == coerce(w.columns[j]).value
    ensures r.Err? ==> exists j :: 0 <= j < |w.columns| && FirstFailure(w.columns, coerce, j, r.error)
  {
    var columns := w.columns;
    for j := 0 to |w.columns|
      invariant |columns| == |w.columns|
      invariant forall i :: 0 <= i < j ==> coerce(w.columns[i]).Ok?
      invariant forall i :: 0 <= i < j ==> columns[i] == coerce(w.columns[i]).value
      invariant columns[j..] == w.columns[j..]
    {
      assert columns[j] == columns[j..][0] == w.columns[j];
      var coerced := coerce(columns[j]);
      if coerced.Err? {
        assert FirstFailure(w.columns, coerce, j, coerced.error);
        return Err(coerced.error);
      }
      columns := columns[j := coerced.value];
      assert columns[j + 1..] == w.columns[j + 1..];
    }
    return Ok(WideTable(w.keys, columns));
  }
}
