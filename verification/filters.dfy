/** The membership filters on SubjectID, FieldID, InstanceID and ArrayID, and the empty-string drop. */
module Filters {
  import opened Tables
  import opened Seqs

  /** The integer columns a membership filter can test. */
  datatype Column = SubjectColumn | FieldColumn | InstanceColumn | ArrayColumn

  function ColumnValue(x: Row, c: Column): int
  {
    match c
    case SubjectColumn => x.subjectID
    case FieldColumn => x.fieldID
    case InstanceColumn => x.instanceID
    case ArrayColumn => x.arrayID
  }

  /** `pl.col(c).is_in(ids)` as a row predicate. */
  function InColumn(c: Column, ids: seq<int>): Row -> bool
  {
    x => ColumnValue(x, c) in ids
  }

  /** The filter on column `c`, applied only when the configured list is non-empty:
      an empty list passes everything, a non-empty one keeps exactly the rows whose value it lists. */
  function KeepMembers(rows: seq<Row>, c: Column, ids: seq<int>): (r: seq<Row>)
    ensures ids == [] ==> r == rows
    ensures forall x :: x in r <==> x in rows && (ids == [] || ColumnValue(x, c) in ids)
  {
    if ids == [] then rows
    else
      FilterMembers(rows, InColumn(c, ids));
      Filter(rows, InColumn(c, ids))
  }

  /** The membership filter neither repeats nor loses a row: each row occurs as often as in the input if it passes, and not at all otherwise. */
  lemma KeepMembersCount(rows: seq<Row>, c: Column, ids: seq<int>)
    ensures forall x :: multiset(KeepMembers(rows, c, ids))[x] == if ids == [] || ColumnValue(x, c) in ids then multiset(rows)[x] else 0
  {
    if ids != [] {
      FilterCount(rows, InColumn(c, ids));
    }
  }

  /** The membership filter keeps the surviving rows in their original order. */
  lemma KeepMembersConcat(a: seq<Row>, b: seq<Row>, c: Column, ids: seq<int>)
    ensures KeepMembers(a + b, c, ids) == KeepMembers(a, c, ids) + KeepMembers(b, c, ids)
  {
    if ids != [] {
      FilterConcat(a, b, InColumn(c, ids));
    }
  }

  function NonEmptyValue(): Row -> bool
  {
    (x: Row) => x.fieldValue != ""
  }

  /** `drop_empty_strings`: when set, removes exactly the rows whose FieldValue is empty. */
  function DropEmpty(rows: seq<Row>, on: bool): (r: seq<Row>)
    ensures !on ==> r == rows
    ensures forall x :: x in r <==> x in rows && (!on || x.fieldValue != "")
  {
    if !on then rows
    else
      FilterMembers(rows, NonEmptyValue());
      Filter(rows, NonEmptyValue())
  }

  /** The empty-string drop neither repeats nor loses a kept row. */
  lemma DropEmptyCount(rows: seq<Row>, on: bool)
    ensures forall x :: multiset(DropEmpty(rows, on))[x] == if !on || x.fieldValue != "" then multiset(rows)[x] else 0
  {
    if on {
      FilterCount(rows, NonEmptyValue());
    }
  }

  /** The empty-string drop keeps the surviving rows in their original order. */
  lemma DropEmptyConcat(a: seq<Row>, b: seq<Row>, on: bool)
    ensures DropEmpty(a + b, on) == DropEmpty(a, on) + DropEmpty(b, on)
  {
    if on {
      FilterConcat(a, b, NonEmptyValue());
    }
  }
}
