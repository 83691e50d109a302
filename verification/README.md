# UKBB tabular extraction, modelled in Dafny

This project models the extraction core of UKBB-tabular-processing. The core is `extract_UKBB_tabular_data`. It turns the long-format UK Biobank table of (SubjectID, InstanceID, ArrayID, FieldID, FieldValue) rows into a narrow result, using three reference tables: the data dictionary, the codings and the category tree. It can also turn the narrow result into a wide one. The project also models the two list validators `parse_list_item_types` and `all_items_match_type`.

The model follows the order of the pipeline:

- **Configuration.** `Extract.Config` is a class. Its lists `subjectIDs`, `fieldIDs` and `categories` are extended in place, as the source extends the configuration's lists. The other options only steer the run and form the `Tables.Settings` value.
- **SubjectIDFiles.** `LoadSubjectIDFiles` appends the IDs of each file in turn. A missing file stops the run.
- **Category closure.** `ExpandCategories` is the `while` loop over `old_length`. It is proved equal to `Categories.Close`, the fixpoint of "append the unlisted children of listed categories". The closure is proved:
  - closed under the tree;
  - the least closed extension;
  - free of repetitions;
  - terminating on cyclic trees.
- **Row filters.** `Filters.KeepMembers` applies an `is_in` filter only when its list is non-empty. `Filters.DropEmpty` drops empty strings.
- **Left joins.** `Joins.LeftJoin` has exact polars left-join semantics: a right key that occurs twice yields two rows, and a miss yields null. Under unique keys, a lemma gives one output row per input row.
- **Replication of non-instanced fields.** `Replication.FanOut` and `Replicate` mirror the `repeat_by`, the `list.lengths() > 1` guard and the `explode`.
- **Decoding stages.** `Decoding` models the dictionary and coding joins, the two null-code drops, value recoding, the two "Less than" substitutions and the `<Field>_<FieldID>` renaming. `is_in` on a null Meaning, or on a value that does not parse as a number, keeps the row. `concat_str` with a null Field gives a null FieldID.
- **Contraction.** `Contraction` shrinks the dictionary and codings returned with the result.
- **Wide result.** `Wide.Pivot` builds one row per (SubjectID, InstanceID, ArrayID) and one column per FieldID. `Wide.CoerceColumns` is the loop that types each column from its ValueType. A failed cast or parse leaves its column as text. A failed `.item()` lookup, or a ValueType absent from the type table, raises. Neither is caught by the `except ComputeError`, so the run stops. The lookup runs before the `try`; the type-table `KeyError` is raised inside it but is not a `ComputeError`.
- **Run.** `Extract.Extract` composes all of this. It states which error each failing condition raises and that the run succeeds when none of them holds. It states the result on success. It states the new SubjectIDs, Categories and FieldIDs lists on every path, including the failing ones: a missing SubjectIDFile keeps the IDs of the files before it and leaves the other lists alone, and a missing category tree leaves Categories and FieldIDs alone.

Two behaviours of the code are worth knowing.

1. With exactly one configured InstanceID, a non-instanced row keeps its own InstanceID. The `list.lengths() > 1` guard is the reason. The InstanceID filter then removes that row unless it already had the configured instance (`Extract.SingleInstanceNoFanOut`).
2. The option `drop_extra_NA_codes` is declared by the configuration class, but the extraction never reads it. The model follows the code, so no row is dropped because of that option.

## Model

| member | source | states |
|---|---|---|
| `Extract.Config.LoadSubjectIDFiles` | melted_UKBB_extract.py:74-83 | succeeds iff every file exists; then SubjectIDs gains the IDs of all files in order; otherwise the error names the first missing file, and the IDs of the files before it are already appended; the other lists are untouched |
| `Extract.Config.ExpandCategories` | melted_UKBB_extract.py:98-108 | the `old_length` loop terminates and leaves Categories equal to the closure `Close` of the initial list |
| `Extract.Config.ExpandFieldIDs` | melted_UKBB_extract.py:109-115 | FieldIDs gains the FieldIDs of the dictionary lines whose category is listed, after the IDs already there |
| `Categories.NewChildren` | melted_UKBB_extract.py:101-107 | one pass yields exactly the children, through some edge, of listed categories that are not listed yet |
| `Categories.PendingShrinks` | melted_UKBB_extract.py:99-101 | a pass that appends something strictly shrinks the set of tree children still unlisted, so the loop terminates even on a cyclic tree |
| `Categories.Close` | melted_UKBB_extract.py:98-108 | the closure extends the requested list (a prefix) and is closed: the child of every listed parent is listed |
| `Categories.CloseGrounded` | melted_UKBB_extract.py:99-108 | every category the closure adds is the child of a category listed before it |
| `Categories.GroundedStep` | melted_UKBB_extract.py:101-107 | one pass appends only children of categories already listed, so it keeps every added category grounded in an earlier one |
| `Categories.CloseLeast` | melted_UKBB_extract.py:98-108 | the closure lies within every edge-closed set that contains the requested categories, so it is the least closed extension |
| `Categories.CloseNoDup` | melted_UKBB_extract.py:101-105 | with distinct requested categories and each child on one edge, the closure lists nothing twice |
| `Categories.NewChildrenNoDup` | melted_UKBB_extract.py:102-105 | under the same conditions, one pass keeps the list free of repetitions |
| `Categories.NewChildrenNone` | melted_UKBB_extract.py:101-107 | a pass appends nothing when no edge leaves a listed category |
| `Categories.CloseLeaf` | melted_UKBB_extract.py:98-108 | any category that is the parent of no edge closes to itself |
| `Categories.CloseChain` | melted_UKBB_extract.py:98-108 | the chain 1 -> 2 -> 3 closes to [1, 2, 3] even when the edges are listed in reverse |
| `Categories.ChainPasses` | melted_UKBB_extract.py:101-107 | on that chain the passes append [2], then [3], then nothing |
| `Categories.CloseCycle` | melted_UKBB_extract.py:98-108 | the cycle 1 -> 2 -> 1 closes to [1, 2] |
| `Categories.FieldsInCategories` | melted_UKBB_extract.py:109-114 | exactly the FieldIDs of dictionary lines whose Category is listed |
| `Filters.KeepMembers` | melted_UKBB_extract.py:88-89 | an empty list passes every row; a non-empty list keeps exactly the rows whose column value it lists (used for the SubjectID, FieldID, InstanceID and ArrayID filters of lines 88-89, 121-122 and 152-157) |
| `Filters.KeepMembersCount` | melted_UKBB_extract.py:88-89 | each passing row occurs in the result exactly as often as in the input, and a failing row not at all |
| `Filters.KeepMembersConcat` | melted_UKBB_extract.py:152-157 | the filter distributes over concatenation, so surviving rows keep their order |
| `Filters.DropEmpty` | melted_UKBB_extract.py:160-161 | when enabled, keeps exactly the rows whose FieldValue is not the empty string; otherwise the identity |
| `Filters.DropEmptyCount` | melted_UKBB_extract.py:160-161 | each kept row occurs exactly as often as in the input, and a row with an empty FieldValue not at all when enabled |
| `Filters.DropEmptyConcat` | melted_UKBB_extract.py:160-161 | the drop distributes over concatenation, so kept rows keep their order |
| `Joins.LeftJoin` | melted_UKBB_extract.py:127-132 | the left join has at least one output row per left row |
| `Joins.LeftJoinPairs` | melted_UKBB_extract.py:164-174 | each joined pair holds a left row and either a right row with the same key, or null when no right row has that key |
| `Joins.LeftJoinKeepsRows` | melted_UKBB_extract.py:164-168 | no left row is lost by a left join |
| `Joins.LeftJoinConcat` | melted_UKBB_extract.py:127-132 | the join distributes over concatenation of the left table, so row order is kept |
| `Joins.LeftJoinUnique` | melted_UKBB_extract.py:164-174 | with unique right keys, the i-th output is the i-th left row paired with its lookup |
| `Replication.JoinProps` | melted_UKBB_extract.py:127-132 | joining the field properties never drops a row: every input row is the left part of some joined pair |
| `Replication.Targets` | melted_UKBB_extract.py:133 | the repeat instances are the configured InstanceIDs, or 0 to 3 when none are configured |
| `Replication.FanOut` | melted_UKBB_extract.py:134-148 | a row with `instanced == 0` and more than one target becomes one copy per target with that InstanceID, in target order; any other row passes unchanged |
| `Replication.Replicate` | melted_UKBB_extract.py:134-148 | replication never loses rows, and with a single target it adds none |
| `Replication.ReplicateCount` | melted_UKBB_extract.py:134-148 | with N > 1 targets the stage emits the input count plus N-1 extra rows per non-instanced row |
| `Replication.ReplicateSingleTarget` | melted_UKBB_extract.py:141-146 | with a single target every row passes unchanged, including its InstanceID |
| `Replication.ReplicateMembers` | melted_UKBB_extract.py:134-149 | a row leaves the stage iff some joined row produces it: a copy of that row, differing at most in an InstanceID taken from the targets |
| `Replication.ReplicateConcat` | melted_UKBB_extract.py:134-148 | replication distributes over concatenation: rows stay in order |
| `Decoding.Decode` | melted_UKBB_extract.py:164-174 | the two dictionary and coding left joins keep at least one row per input row |
| `Decoding.DecodeFacts` | melted_UKBB_extract.py:164-174 | every decoded row carries an input row, the dictionary line with its FieldID or null when none exists, and the Meaning of its (Coding, FieldValue) or null when none exists |
| `Decoding.DecodeKeepsRows` | melted_UKBB_extract.py:164-174 | every input row reaches the decoded table |
| `Decoding.DecodeUnique` | melted_UKBB_extract.py:164-174 | with FieldIDs unique in the dictionary and (Coding, Value) unique in the codings, decoding is one-to-one and in order |
| `Decoding.DropNullStrings` | melted_UKBB_extract.py:176-177 | keeps exactly the rows whose Meaning is null or not listed; an empty list keeps all |
| `Decoding.DropNullStringsCount` | melted_UKBB_extract.py:176-177 | each kept row occurs exactly as often as in the input, and a row with a listed Meaning not at all |
| `Decoding.DropNullStringsConcat` | melted_UKBB_extract.py:176-177 | the drop distributes over concatenation, so kept rows keep their order |
| `Decoding.DropNullNumerics` | melted_UKBB_extract.py:179-186 | keeps exactly the rows whose FieldValue does not parse to a listed number; an empty list keeps all |
| `Decoding.DropNullNumericsCount` | melted_UKBB_extract.py:179-186 | each kept row occurs exactly as often as in the input, and a row whose value parses to a listed number not at all |
| `Decoding.DropNullNumericsConcat` | melted_UKBB_extract.py:179-186 | the drop distributes over concatenation, so kept rows keep their order |
| `Decoding.RecodeValues` | melted_UKBB_extract.py:189-195 | when enabled, FieldValue becomes the Meaning where one exists and stays otherwise; nothing else in the row changes |
| `Decoding.RecodeValuesIdempotent` | melted_UKBB_extract.py:189-195 | recoding twice equals recoding once |
| `Decoding.SubstituteLessThan` | melted_UKBB_extract.py:197-222 | a FieldValue starting with "Less than" whose ValueType is the guarded one becomes the substitute, when one is configured; every other value and field is unchanged |
| `Decoding.LessThanStagesCommute` | melted_UKBB_extract.py:197-222 | the Integer and Continuous substitutions touch disjoint rows, so their order does not matter |
| `Decoding.LessThanExample` | melted_UKBB_extract.py:197-209 | "Less than 5" with ValueType Integer and substitute "1" becomes "1"; with ValueType Continuous and only the Integer substitute configured it stays |
| `Decoding.RecodedNameRoundTrip` | melted_UKBB_extract.py:225-230 | the last `_` part of a recoded `<Field>_<FieldID>` name is the decimal FieldID, and it parses back to the FieldID |
| `Decoding.FieldKeyOf` | melted_UKBB_extract.py:225-230 | without name recoding the FieldID column is the numeric FieldID; with it, the column is null exactly when the row found no dictionary line, and otherwise `<Field>_<FieldID>` from that line's Field and the row's decimal FieldID |
| `Decoding.FieldKeyNamed` | melted_UKBB_extract.py:164-230 | for a decoded row, the recoded FieldID is null exactly when no dictionary line has the row's FieldID, and otherwise it is `<Field>_<FieldID>` of a dictionary line with that FieldID |
| `Decoding.Project` | melted_UKBB_extract.py:225-233 | one narrow row per decoded row, in order, with its SubjectID, InstanceID, ArrayID and current FieldValue, and the FieldID column given by `Decoding.FieldKeyOf` |
| `Decoding.Finish` | melted_UKBB_extract.py:189-233 | value recoding, the Integer then the Continuous "Less than" substitution, name recoding and the projection map row i to `NarrowOf` of row i. `NarrowOf` keeps the keys and names the FieldID by `FieldKeyOf`. Its FieldValue is the Meaning when value recoding is on and a Meaning exists, else the raw value. When that value starts with "Less than", the configured Integer substitute replaces it on an Integer field, and the Continuous substitute on a Continuous field |
| `Decoding.DecodeStages` | melted_UKBB_extract.py:163-233 | the decoding stages never add rows, and without null-code drops they keep as many rows as the joins produce |
| `Decoding.DecodeStagesMembers` | melted_UKBB_extract.py:163-233 | a narrow row leaves the decoding stages iff it is `NarrowOf` a joined row whose Meaning is not a listed null string and whose value does not parse to a listed null number |
| `Decoding.DecodeStagesKeepKeys` | melted_UKBB_extract.py:163-233 | every narrow row derives from an input row with the same SubjectID, InstanceID and ArrayID; its FieldID column is that row's numeric FieldID without name recoding; with it, the column is null exactly when no dictionary line has that FieldID, and otherwise `<Field>_<FieldID>` of a dictionary line with that FieldID |
| `Decoding.DecodeStagesOneToOne` | melted_UKBB_extract.py:163-233 | without null-code drops and with keyed reference tables, the decoding stages are one-to-one and in order: the i-th narrow row derives from the i-th input row with its FieldID named as above, and it is exactly `NarrowOf` that row with its dictionary line and Meaning, so its FieldValue is recoded and substituted as `Decoding.Finish` states |
| `Extract.ReplicatedFrom` | melted_UKBB_extract.py:124-149 | a row after the replication step is an earlier row, or a copy of one moved to a target instance when there are several targets |
| `Extract.Narrow` | melted_UKBB_extract.py:87-233 | every narrow row has a configured InstanceID and a configured ArrayID, when those lists are set |
| `Extract.NarrowSound` | melted_UKBB_extract.py:87-233 | every narrow row comes from a raw row that passes every configured filter: SubjectIDs, FieldIDs, InstanceIDs, ArrayIDs and empty strings; it keeps that row's SubjectID and ArrayID, its FieldID column is named from that row's FieldID as in `Decoding.DecodeStagesKeepKeys`, and only replication changes its InstanceID; its FieldValue is the recoded and substituted value of that row under a dictionary line and Meaning the joins attach, and that row survives both null-code drops |
| `Extract.SingleInstanceNoFanOut` | melted_UKBB_extract.py:133-153 | with one configured InstanceID, a narrow row admitted from a raw row has that row's own InstanceID, which is the configured one, so replication supplies nothing |
| `Extract.NarrowComplete` | melted_UKBB_extract.py:87-233 | without replication or null-code drops, and with keyed reference tables, every raw row that passes the filters reaches the narrow result, as exactly `NarrowOf` the row with its lookups: its keys, its FieldID named as in `Decoding.DecodeStagesKeepKeys`, and its recoded and substituted FieldValue |
| `Extract.NarrowKeepsAll` | melted_UKBB_extract.py:87-233 | with no filter configured, the narrow result has one row per raw row, in order, the i-th being exactly `NarrowOf` the i-th raw row with its lookups |
| `Extract.Extract` | melted_UKBB_extract.py:13-298 | the errors and the order they are checked in: the first missing subject file, a missing category tree, missing field properties, then the first wide column whose lookup or type-table entry fails; when none of these holds the run succeeds; the new configuration lists; on success the narrow result, the contracted tables, and a wide table present iff `wide`, which is the pivot, coerced column by column when enabled |
| `Contraction.ContractDictionary` | melted_UKBB_extract.py:239-247 | with FieldIDs configured, exactly the dictionary lines of those FieldIDs; otherwise the whole dictionary |
| `Contraction.ContractDictionaryCount` | melted_UKBB_extract.py:239-247 | each kept dictionary line occurs exactly as often as in the dictionary, and any other line not at all |
| `Contraction.ContractDictionaryConcat` | melted_UKBB_extract.py:239-247 | the contraction distributes over concatenation, so kept lines keep their order |
| `Contraction.ContractCodings` | melted_UKBB_extract.py:243-248 | with FieldIDs configured, exactly the codings whose Coding is used by a contracted dictionary line; otherwise all codings |
| `Contraction.ContractCodingsCount` | melted_UKBB_extract.py:243-248 | each kept coding line occurs exactly as often as in the coding table, and any other line not at all |
| `Contraction.ContractCodingsConcat` | melted_UKBB_extract.py:243-248 | the contraction distributes over concatenation, so kept lines keep their order |
| `Contraction.ContractedCodingsReferToFields` | melted_UKBB_extract.py:239-245 | every returned coding belongs to a dictionary line of a configured FieldID |
| `Wide.Pivot` | melted_UKBB_extract.py:256-261 | the rows are the distinct (SubjectID, InstanceID, ArrayID) keys of the narrow rows, each once; one text column per distinct FieldID, named after it, with one cell per row |
| `Wide.PivotFieldsExact` | melted_UKBB_extract.py:256-261 | the columns are exactly the distinct FieldIDs of the narrow rows, each once |
| `Wide.CellAt` | melted_UKBB_extract.py:256-261 | a pivoted cell is null or text, never typed |
| `Wide.CellAtFirst` | melted_UKBB_extract.py:256-261 | a text cell holds the value of the earliest narrow row with its key and FieldID |
| `Wide.CellAtExact` | melted_UKBB_extract.py:256-261 | a cell is null iff no narrow row has its key and FieldID; otherwise it holds the value of such a row |
| `Wide.CellAtUnique` | melted_UKBB_extract.py:256-261 | without duplicate entries, the cell at a key and FieldID holds the value of any narrow row with that key and FieldID |
| `Wide.PivotFindsRow` | melted_UKBB_extract.py:256-261 | without duplicate entries, each narrow row's value sits in the cell at its key and FieldID |
| `Wide.PivotCellFromRow` | melted_UKBB_extract.py:256-261 | every non-null cell is the value of a narrow row with that key and FieldID, and a null cell has none |
| `Wide.PivotExample` | melted_UKBB_extract.py:256-261 | rows (1,0,0,"10","5") and (1,0,0,"20","7") pivot to a single row with column "10" = "5" and column "20" = "7" |
| `Wide.ValueTypeFor` | melted_UKBB_extract.py:267-273 | `.item()`: the lookup succeeds iff exactly one dictionary line has the column name's last `_` part as its decimal FieldID, and then returns that line's ValueType; otherwise the lookup error for that column |
| `Wide.MatchesOfText` | melted_UKBB_extract.py:267-272 | the filtered dictionary holds a single line iff exactly one line renders its FieldID as the text, and then it is that line |
| `Wide.ValueTypeForLine` | melted_UKBB_extract.py:266-273 | with FieldIDs unique in the dictionary, a column whose last `_` part is a field's decimal FieldID finds that field's ValueType |
| `Wide.ValueTypeForField` | melted_UKBB_extract.py:266-273 | with FieldIDs unique in the dictionary, the column named after a FieldID finds that field's ValueType |
| `Wide.ValueTypeForRecoded` | melted_UKBB_extract.py:227-273 | with FieldIDs unique in the dictionary, the recoded `<Field>_<FieldID>` column of a field finds that field's ValueType |
| `Wide.DtypeFor` | melted_UKBB_extract.py:24-33 | the type table knows exactly the eight ValueTypes Date, Time, Continuous, Text, Integer, Categorical multiple, Categorical single and Compound; it never yields a list type; both categorical ValueTypes, and only they, map to Categorical; Text and Compound, and only they, to Utf8; Integer to Int64, Continuous to Float64, Date to Date and Time to Datetime, each the only ValueType mapped there |
| `Wide.Attempt` | melted_UKBB_extract.py:274-293 | a cast that fails leaves the column exactly as it was; one that succeeds gives the column the new type and cells |
| `Wide.SplitColumn` | melted_UKBB_extract.py:283-284 | a Compound column becomes a list column; each text cell becomes parts without ',' that join back to the original text |
| `Wide.CoerceColumn` | melted_UKBB_extract.py:266-293 | a column raises iff its ValueType lookup fails (the lookup error) or the ValueType is not in the type table (the unknown-type error); otherwise it keeps its name and is the cast attempt to the type-table type, or the split when it is Compound and conversion is enabled |
| `Wide.CoerceColumns` | melted_UKBB_extract.py:263-293 | given the per-column coercion (`Wide.CoerceColumn` in a run), succeeds iff every column coerces; then the keys are unchanged and column j is the coercion of column j alone; on failure the error is that of the first failing column |
| `Text.IntStringRoundTrip` | melted_UKBB_extract.py:269 | the decimal rendering of a FieldID parses back to it, so `cast(pl.Utf8)` loses nothing |
| `Text.IntStringInjective` | melted_UKBB_extract.py:269 | distinct FieldIDs render as distinct strings |
| `Text.LastSegment` | melted_UKBB_extract.py:269 | `split("_")[-1]`: the suffix after the last `_`, holding no `_`, or the whole name when it has none |
| `Text.LastSegmentAfter` | melted_UKBB_extract.py:227-269 | the last `_` part of `a + "_" + b` is `b` when `b` holds no `_` |
| `Text.SplitJoin` | melted_UKBB_extract.py:284 | splitting on a separator and joining back with it restores the text |
| `Validation.ParseListItemTypes` | validation.py:9-16 | the result is the item types of all union members without repetitions, each kept at its first occurrence: no duplicates, exactly the member items, in first-occurrence order |
| `Validation.DedupFlattenFacts` | validation.py:11-15 | deduplicating the flattened members yields no repetition, exactly the member items, and first-occurrence order |
| `Validation.Resolve` | validation.py:22-23 | a `None` among the allowed types stands for `NoneType` |
| `Validation.AllItemsMatchType` | validation.py:19-29 | returns normally iff the list is non-empty and one single allowed type matches every item; otherwise raises `TypeError` (an empty list always raises) |
| `Validation.MixedListRejected` | validation.py:19-29 | [int, str] against [int, str] raises, although every item matches some allowed type |
| `Validation.NoneEntryAcceptsNones` | validation.py:22-23 | a `None` entry accepts a non-empty list of `None` items |
| `Seqs.Dedup` | validation.py:13-15 | no repetitions, and the same elements as the input |
| `Seqs.DedupFirstOccurrenceOrder` | validation.py:11-15 | deduplication lists elements in the order of their first occurrence |
| `Seqs.DedupSnoc` | validation.py:13-15 | the append-if-absent step: deduplicating one more element appends it iff it is new |
| `Seqs.FlattenMembers` | validation.py:12-13 | an item is in the flattening iff it is in some member |
| `Seqs.FilterCount` | melted_UKBB_extract.py:88-89 | a filter keeps each passing element exactly as often as it occurs, and drops every other element entirely |
| `Seqs.FilterSingleton` | melted_UKBB_extract.py:267-272 | a filter keeps exactly one element iff exactly one position satisfies the condition, and then keeps that position's element |

## Left out

- Reading the tables is not modelled: the TSV and Arrow files, the choice by file extension, `utf8-lossy` decoding and lazy scanning (lines 35-71). The data, dictionary, codings, category tree and field properties are given as sequences of records.
- The SubjectIDFiles are given already parsed, as one ID list per file, or none for a missing file. `int(x)` raising on a line that is not an integer is not modelled.
- Logging, `verbose`, `pl.Config.set_verbose` and the warnings printed on a failed coercion are not modelled. `sys.exit(1)` on a missing file becomes an error result.
- A missing category tree or field-properties file (the call made with `None`) is modelled as the error `ReferenceDataUnavailable`. The exact polars exception is not modelled.
- Lazy evaluation, streaming and `collect` are not modelled. Every stage is an eager function on sequences. The row order of a streaming engine is taken to be the input order.
- The casts of InstanceID and ArrayID to categorical strings (lines 250-251) are not modelled. They change the column representation only, and the model keeps integers.
- The "Less than" substitutes `convert_less_than_value_integer` and `convert_less_than_value_continuous` are untyped configuration values, usually numbers, that `pl.lit` renders into the text column. The model takes each as its rendered text (`lessThanInteger`, `lessThanContinuous`); the rendering is not modelled.
- Parsing FieldValue as a float (line 183) is not modelled: it is the parameter `parseNum`. The date, datetime and type casts are the parameter `cast`, where `None` means the cast raised `ComputeError`. Floating point is outside the model.
- The null rules are those under which the filters keep rows without a coding: `is_in` on a null Meaning, or on a value that does not parse as a number, counts as "not listed", so the row is kept. A join key that is null matches nothing.
- Null FieldValue or null ID columns in the raw data are not modelled: every raw row has integer IDs and a string value.
- Wide.CellAt: its own contract states only that a cell is null or text. Which row it holds is stated by `Wide.CellAtFirst` and `Wide.CellAtExact`. When two narrow rows share both key and FieldID, the model takes the first row's value; the behaviour of polars `pivot(aggregate_function=None)` on such rows is library-defined. The pivot lemmas that name a row's value for any matching row require that no entries are duplicated.
- The option `drop_extra_NA_codes` is not modelled, because the extraction never reads it.
- The configuration's YAML loading, the command-line `__main__` block and `get_type_name` are not modelled. config.py is only the shape of the configuration here.
- The text of the `TypeError` message is not modelled. The error carries the allowed types only.
- Decoding.Decode: its own contract states only the row-count bound. The row contents are stated by `Decoding.DecodeFacts`, `Decoding.DecodeKeepsRows` and `Decoding.DecodeUnique`.
- Joins.LeftJoin: its own contract states only the row-count bound. The pairs are stated by the lemmas listed beside it.
- Decoding.DecodeStages: its own contract states only the row-count facts. Which rows survive and what each holds, FieldValue included, is stated by `Decoding.DecodeStagesMembers` with `Decoding.Finish`, and positionwise by `Decoding.DecodeStagesOneToOne`.
- Extract.Narrow: its own contract states only the InstanceID and ArrayID filters. Where each row comes from, with its keys, FieldID and FieldValue, is stated by `Extract.NarrowSound`, `Extract.NarrowComplete` and `Extract.NarrowKeepsAll`.
- Replication.Replicate: its own contract states only the row-count bounds. The rows are stated by `Replication.FanOut`, `Replication.ReplicateCount`, `Replication.ReplicateMembers` and `Replication.ReplicateConcat`.
