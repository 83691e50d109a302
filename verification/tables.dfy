/** The rows and reference tables the extraction works on, and its configuration options. */
module Tables {
  import opened Wrappers

  /** One observation of the melted table: (SubjectID, InstanceID, ArrayID, FieldID, FieldValue). */
  datatype Row = Row(subjectID: int, instanceID: int, arrayID: int, fieldID: int, fieldValue: string)

  /** The FieldID of a row: the key of its joins with the field-properties table and the dictionary. */
  function RowField(x: Row): int { x.fieldID }

  /** A data-dictionary line; `valueType` is the dictionary's text, e.g. "Integer" or "Categorical single". */
  datatype DictEntry = DictEntry(fieldID: int, field: string, valueType: string, category: int, coding: Option<int>)

  /** A coding-table line: raw `value` under coding `coding` means `meaning`. */
  datatype CodingEntry = CodingEntry(coding: int, value: string, meaning: string)

  /** An edge of the category tree. */
  datatype CategoryEdge = CategoryEdge(parentID: int, childID: int)

  /** A field-properties line; `instanced == 0` marks a field stored once for all instances. */
  datatype FieldProp = FieldProp(fieldID: int, instanced: int)

  /** The FieldID column of the output: the numeric id, the recoded `Field_FieldID` name, or null
      when recoding met a field the dictionary does not know. */
  datatype FieldKey = Numeric(id: int) | Named(name: string) | NullKey

  /** A row of the narrow result: exactly the five columns SubjectID, InstanceID, ArrayID, FieldID, FieldValue. */
  datatype NarrowRow = NarrowRow(subjectID: int, instanceID: int, arrayID: int, fieldID: FieldKey, fieldValue: string)

  /** The options of the configuration that the extraction only reads. */
  datatype Settings = Settings(
    instanceIDs: seq<int>,
    arrayIDs: seq<int>,
    replicateNonInstanced: bool,
    recodeFieldNames: bool,
    recodeDataValues: bool,
    dropEmptyStrings: bool,
    dropNullStrings: seq<string>,
    dropNullNumerics: seq<real>,
    wide: bool,
    recodeWideColumnValueTypes: bool,
    convertCompoundToList: bool,
    lessThanInteger: Option<string>,
    lessThanContinuous: Option<string>)

  /** What makes the extraction raise instead of returning. */
  datatype Error =
    | MissingInputFile(fileIndex: nat)        // a SubjectIDFiles entry does not exist
    | ReferenceDataUnavailable(table: string) // the category tree or field-properties file is needed but absent
    | ValueTypeLookup(column: string)         // `.item()` found no dictionary line, or several, for a wide column
    | UnknownValueType(valueType: string)     // the ValueType has no entry in the type table
}
