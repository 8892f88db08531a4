# Keyed dataset comparison, modelled in Dafny

`genericcompare.py` compares two tabular datasets by primary key. It takes two CSV
files, two lists of dicts or two lists of tuples (the first tuple being the header),
turns each into a dict from primary-key value to row, and computes a directional diff
(left against right):

- the keys of the left dataset missing on the right;
- the keys present on both sides whose rows differ;
- for each such key, the differing fields as `(field, left value, right value)`;
- the union of the differing field names.

It renders a plain-text summary of the diff and returns the status 0 when no key is
mismatched and 1 otherwise. `comparecsv.py` is the earlier CSV-only version of the same
algorithm.

The model follows the program's structure, one module per part:

- `Results` (`results.dfy`): `Option` and a `Result` with failure propagation.
- `Errors` (`errors.dfy`): the exceptions the program raises, one constructor each. They
  become `Err` values. One constructor is the model's own: `WrongShape` is returned for
  an input that does not have the shape of its declared format.
- `Seqs`, `Strings`, `Dicts` (`seqs.dfy`, `strings.dfy`, `dicts.dfy`): the Python values
  the program works on.
  - A list comprehension with a condition is `Seqs.Filter`.
  - A Python dict is a map together with the insertion order of its keys.
  - Building a dict by assigning pairs one after another keeps each key at its first
    position and gives it the value of its last assignment.
  - `'\n'.join` and `str.upper` are modelled on `seq<char>`. `Strings.Split` is not
    used by the program: it only reads the summary back as lines, so that the summary's
    layout can be stated line by line.
- `Ingest` (`ingest.dfy`): `convert_to_dict` and the three converters.
  - Field names are upper-cased.
  - Every primary-key field must be present, or ingestion fails.
  - The key is a scalar or a tuple of field values.
  - A later row with the same key replaces an earlier one.
- `Diff` (`diff.dfy`): `compare_mismatch_rows` and `get_comparison_details` as functions.
  The `for` loop of `get_comparison_details` is also stated as a method, proved to compute
  the function.
- `Report` (`report.dfy`): `printable_key`, the summary text and the status. The summary
  text is also read back line by line.
- `GenericCompare` (`genericcompare.dfy`): `get_comparison` from the raw inputs to the
  summary and the status, including the choice of labels.
- `CompareCsv` (`comparecsv.dfy`): `get_csv_comparison`, including the copy it makes of
  every CSV row. It is proved equal to `get_comparison` on CSV input. Its `set.add` loop
  is proved to compute the same details as the generic loop.
- `Scenarios` (`scenarios.dfy`): two worked comparisons of small dict lists keyed by
  `id`, followed from the raw dicts to the status `get_comparison` returns.

Values are strings throughout. A CSV file is given as what the delimited-text reader
delivers: its path, its header record and its data records. Writing the summary to the
console or to a file is left to the caller; the model returns the summary text.

Where the source is evidently wrong (see Findings), the model holds both versions:

- an `...AsWritten` member that does what the code does;
- a corrected member, which the rest of the model uses.

The records block follows the code: the key starts only the first record line of its
key, and later records of that key start with the comma.

## Model

| member | source | states |
|---|---|---|
| Seqs.DedupFirstOrder | genericcompare.py:77 | the order a comprehension-built dict gives its keys (`Dedup`, by `Dicts.FromPairsOrder`) follows first occurrence: an element listed earlier occurs first earlier in the input |
| Dicts.FromPairsOrder | genericcompare.py:77 | a dict built by a comprehension iterates its keys in order of first occurrence, each once |
| Dicts.FromPairsLastWins | genericcompare.py:77 | when several rows share a key, the dict keeps the last of them |
| Dicts.FromPairsSource | genericcompare.py:84 | every key of a comprehension-built dict comes from some pair and holds that pair's value |
| Dicts.FromItems | comparecsv.py:14-16 | copying a row with `{key: val for key, val in row.items()}` gives the same row back, order included |
| Ingest.KeyOf | genericcompare.py:77-84 | a scalar key succeeds exactly when the row has the key field and is that field's value; a composite key succeeds exactly when the row has every key field and is the tuple of their values in key order; a failure is a KeyError naming a key field the row lacks |
| Ingest.TupleOf | genericcompare.py:84 | `tuple(row[k] for k in pkey)` succeeds exactly when the row has every key field; then it is the key fields' values in key order, and otherwise the error names a missing field |
| Ingest.RowKeys | genericcompare.py:77 | keying all rows succeeds exactly when every row's key can be computed, and yields each row's own key in row order |
| Ingest.BuildRowSet | genericcompare.py:77 | keying the rows fails only with a KeyError, exactly when some row lacks a key field; on success the result is a valid dict |
| Ingest.KeyedContents | genericcompare.py:84 | the dict of keyed rows: a row whose key no later row repeats is stored under it, every stored row is an input row stored under its own key, keys in order of first occurrence |
| Ingest.BuildRowSetContents | genericcompare.py:77-84 | after ingestion every row's key is present, the last row with a key is the one stored, every stored row is an input row whose key is the one it is stored under, and the key order is first occurrence |
| Ingest.NormalizeRowFields | genericcompare.py:66-67 | after upper-casing a row (NormalizeRow, `{k.upper(): v ...}`), every field name is upper case, every original field survives under its upper-cased name, and each value is the unchanged value of a field with that name |
| Ingest.NormalizeRowValues | genericcompare.py:66-67 | without case-insensitive name clashes, every value stays under the upper-cased name of its own field |
| Ingest.ConvertDictList | genericcompare.py:56-86 | the empty list fails with the empty-input error and nothing else does; a key field absent from the first row fails with key-not-found; once the first row passes, a failure is a KeyError for a later row's missing key field; success exactly when the list is non-empty and every upper-cased row has every key field; the result is a well-formed row-set stored by the upper-cased key |
| Ingest.ConvertDictListContents | genericcompare.py:66-86 | on success every upper-cased row's key is present, the last row with a key is the one stored under it, every stored row is an upper-cased input row, the keys are in order of first occurrence, and the dict is not empty |
| Ingest.KeyFieldsExactly | genericcompare.py:72-84 | a row's key can be computed exactly when its upper-cased fields include every upper-cased key field, and every stored row sits under its own key |
| Ingest.TupleRowContents | genericcompare.py:98-99 | a tuple becomes a row positionally: each position's header name is a field, every field holds the value at some position with that name, and a position whose name does not recur holds its own value |
| Ingest.ConvertTupleList | genericcompare.py:88-102 | no tuple or only the header gives the empty-input error; a data tuple longer than the header gives IndexError; otherwise success exactly when every positional row, upper-cased, has every key field; on success a well-formed row-set keyed by the upper-cased key |
| Ingest.ConvertTupleListRows | genericcompare.py:95-102 | convert_tuple_list is convert_dict_list applied to the rows that pair the header with each data tuple by position |
| Ingest.TupleKey | genericcompare.py:80-84 | for distinct upper-case header names that include the key fields, the composite key of a data tuple is its values at the key fields' positions, in key order |
| Ingest.TupleListEmptyDiscrepancy | genericcompare.py:95 | on the empty tuple list ConvertTupleListAsWritten (the code) raises IndexError where the corrected conversion reports the empty input; on every other list the two agree |
| Ingest.UpperHeader | genericcompare.py:36-37 | after upper-casing every header name is upper case, the upper-cased form of every original name is present, and a name that was already upper case is unchanged |
| Ingest.CsvRow | genericcompare.py:35-44 | a CSV record becomes a row holding every header field; each field holds the record's value at a position with that name, and a name that does not recur holds the value at its own position |
| Ingest.ConvertCsv | genericcompare.py:28-54 | CSV ingestion fails, with key-not-found, exactly when a key field is not in the upper-cased header; on success a well-formed row-set by the upper-cased key; a table without records gives an empty dict |
| Ingest.ConvertCsvContents | genericcompare.py:39-51 | on success every CSV row's key is present, the last row with a key is the one stored under it, every stored row is a CSV row, and the keys are in order of first occurrence |
| Ingest.CsvRowsKeyed | genericcompare.py:39-51 | once the key fields are in the header, every CSV row is well formed, upper case and carries every key field |
| Ingest.ParseFormat | genericcompare.py:19-26 | exactly `csv`, `dict_list` and `tuple_list` are accepted; anything else is the unsupported-format error |
| Ingest.ParseFormatTag | genericcompare.py:19-26 | the accepted tags and the three formats correspond one to one |
| Ingest.ConvertToDict | genericcompare.py:19-26 | an unknown format fails before any input is read; `csv`, `dict_list` and `tuple_list` each give exactly the result of their own converter, and an input of another shape fails; success only for an accepted format and always a well-formed row-set keyed by the upper-cased key |
| Ingest.ConvertToDictAsWritten | genericcompare.py:19-26 | convert_to_dict with the tuple-list converter as written: an unknown format fails before any input is read; each format gives exactly the result of its own converter, the tuple-list one as written, and an input of another shape fails; success is a well-formed row-set keyed by the upper-cased key |
| Ingest.ConvertToDictAgree | genericcompare.py:95 | convert_to_dict as written and corrected differ only on the empty tuple list, where the code raises IndexError and the corrected version reports the empty input |
| Diff.CompareFields | genericcompare.py:110-113 | every reported field is a field of the row whose two values differ, with the left value before the right; the reported names keep the fields' order |
| Diff.CompareFieldsComplete | genericcompare.py:110-113 | every field whose two values differ is reported |
| Diff.CompareRowsSpec | genericcompare.py:104-113 | CompareRows (compare_mismatch_rows) reports exactly the differing fields of the left row, each once, in the left row's field order, left value before right value |
| Diff.CompareRowsEmpty | genericcompare.py:129-131 | on rows with the same fields the comparison is empty exactly when the rows are equal |
| Diff.MissingKeys | genericcompare.py:128 | every left key absent on the right is listed, nothing else is, in left order |
| Diff.MismatchKeys | genericcompare.py:129-131 | every shared key whose rows differ is listed, nothing else is, in left order |
| Diff.Details | genericcompare.py:115-144 | no key is both missing and mismatched; exactly the mismatched keys have detail lists |
| Diff.DetailsKeys | genericcompare.py:128-131 | missing_keys holds exactly the left keys absent on the right, mismatch_keys exactly the shared keys with unequal rows; both in left order without repeats, and disjoint |
| Diff.DetailsLists | genericcompare.py:135-137 | a key has a detail list exactly when it is mismatched, and that list names exactly the differing fields of the left row, in its order, each once, left value before right value |
| Diff.DetailsColumns | genericcompare.py:138-139 | mismatch_columns is exactly the union of the field names of all detail lists |
| Diff.ColumnsOfUnion | genericcompare.py:132-139 | the accumulated columns are exactly the names found in the detail lists of the listed keys |
| Diff.EqualRowsUnreported | genericcompare.py:128-131 | a key with equal rows on both sides is neither missing nor mismatched |
| Diff.RightOnlyUnreported | genericcompare.py:128-131 | keys present only on the right are never reported |
| Diff.MismatchHasDetail | genericcompare.py:135-137 | a mismatched key whose two rows have the same fields has a non-empty detail list |
| Diff.CollectDetails | genericcompare.py:132-139 | the loop stores a detail list for every listed key and for no other, each the row comparison of that key, and accumulates the union of their field names |
| Diff.ComputeDetails | genericcompare.py:115-144 | the comprehensions followed by the loop compute the functional comparison |
| Report.PrintableKeyParts | genericcompare.py:154-155 | for PrintableKey (printable_key), a composite key whose parts hold no `;` is recovered by splitting its printed form at `;` |
| Report.PrintableKeyCollision | genericcompare.py:154-155 | the scalar key `1;2` and the composite key (1, 2) print alike |
| Report.RecordsTextLines | genericcompare.py:173-176 | when no detail list is empty, the records block is a sequence of complete lines: per key, the key glued to its first record, then its further records |
| Report.SummaryLines | genericcompare.py:163-176 | split at line breaks, the corrected summary (Summary) is: the header, `Missing keys:`, one line per missing key, `Mismatched columns:`, one line per column (one empty line when there is none), `Mismatch records:`, then the records block |
| Report.SummaryOpening | genericcompare.py:163-167 | the corrected summary's first line names both labels, the second is `Missing keys:`, the missing keys follow one per line, then `Mismatched columns:` |
| Report.SummaryAsWrittenLines | genericcompare.py:165-167 | with at least one missing key, the summary as written (SummaryAsWritten) glues the last key to `Mismatched columns:` on one line |
| Report.SummaryAsWrittenNoMissing | genericcompare.py:165-167 | without missing keys, the summary as written equals the corrected one |
| Report.MissingKeyExampleAsWritten | genericcompare.py:163-176 | the summary as written for one missing key `2` has the line `2Mismatched columns:` |
| Report.MissingKeyExample | genericcompare.py:163-176 | the corrected summary for that comparison has `2` and `Mismatched columns:` on lines of their own |
| Report.StatusMeaning | genericcompare.py:209-212 | the status is 0 or 1, and 0 exactly when every shared key has equal rows, whatever keys are missing |
| Report.FieldsInOrderColumns | genericcompare.py:138-139 | listing the detail lists' fields in key order gives exactly the members of the column union |
| Report.ColumnOrderOf | genericcompare.py:167-168 | the listed columns name each member of the column union once and nothing else |
| Report.ColumnOrderEnumerates | genericcompare.py:167-168 | for every comparison, the listed columns enumerate mismatch_columns without repeats |
| GenericCompare.ResolveLabelsAsWritten | genericcompare.py:189-198 | the labels are the defaults when a name is missing; when both names are given they are never bound and the code fails |
| GenericCompare.ResolveLabelsSpec | genericcompare.py:189-196 | corrected: both given names are used as given, otherwise the defaults; agrees with the code wherever that succeeds |
| GenericCompare.Render | genericcompare.py:198-212 | rendering succeeds exactly when no right row lacks a field of its left row (`row2[k]` raises KeyError otherwise); the status is 0 exactly when every key present on both sides carries equal rows |
| GenericCompare.RenderAsWritten | genericcompare.py:198-212 | the same success condition and status meaning with the summary as written |
| GenericCompare.Pipeline | genericcompare.py:186-212 | after both conversions the left conversion's error surfaces first, then the right one's, then a label error; success exactly when all three succeed and no right row lacks a field of its left row; the status is 0 exactly when the two datasets agree on every shared key |
| GenericCompare.PipelineAgree | genericcompare.py:186-212 | on conversions that succeed together and are equal when they succeed, the as-written and corrected pipelines succeed together, fail alike on equal conversions, give the same status whenever they succeed, and give the same report when no key is missing |
| GenericCompare.GetComparisonAsWritten | genericcompare.py:4-212 | get_comparison as written: an unknown format fails with its error, the empty tuple list raises IndexError, success requires a name to be left out, and the status is 0 or 1, and 0 exactly when the two ingested datasets agree on every shared key |
| GenericCompare.AsWrittenStatusAgrees | genericcompare.py:186-212 | wherever get_comparison as written succeeds, both inputs convert as in the corrected version, which also succeeds and returns the same status |
| GenericCompare.GetComparison | genericcompare.py:4-212 | get_comparison corrected: an unknown format fails with its error, the empty tuple list gives the empty-input error, the status is 0 or 1, and with both names given the summary opens with the header line naming them |
| GenericCompare.GetComparisonErrors | genericcompare.py:186-198 | errors surface in program order: unknown format, then the left conversion's error, then the right one's; success exactly when both convert and no right row lacks a left field |
| GenericCompare.GetComparisonStatus | genericcompare.py:209-212 | the returned status is 0 or 1, and 0 exactly when the two ingested datasets agree on every shared key |
| GenericCompare.GetComparisonSummary | genericcompare.py:163-167 | the corrected report opens with the header naming the labels, then `Missing keys:`, one line per missing key in left order, then `Mismatched columns:` |
| GenericCompare.GivenNamesDiscrepancy | genericcompare.py:189-198 | with both names given and comparable inputs, the code fails on unbound labels while the corrected version succeeds under the given names |
| GenericCompare.RenderAgree | genericcompare.py:165-167 | rendering as written and corrected fail alike, return the same status, and agree when no key is missing |
| GenericCompare.DefaultNamesAgree | genericcompare.py:186-198 | with a name left out, the code as written and the corrected version succeed together |
| GenericCompare.DefaultNamesFailAlike | genericcompare.py:186-198 | with a name left out and no input the empty tuple list, the code as written fails with the same error as the corrected version |
| GenericCompare.DefaultNamesSameReport | genericcompare.py:186-198 | with a name left out and no missing key, the code as written gives the same report as the corrected version |
| CompareCsv.ConvertCsvCopyingIsConvertCsv | comparecsv.py:5-26 | convert_csv_to_dict, which stores a `{key: val for key, val in row.items()}` copy of each row, gives exactly convert_csv's result |
| CompareCsv.CsvComparison | comparecsv.py:4-86 | get_csv_comparison fails only with key-not-found or with a right row lacking a left field; on success both tables convert, and the status is 0 or 1, and 0 exactly when the converted tables agree on every shared key |
| CompareCsv.CsvComparisonIsGeneric | comparecsv.py:4-86 | with its row copies, get_csv_comparison is get_comparison on CSV input with no names given, both as written and corrected |
| CompareCsv.CollectDetailsByAdd | comparecsv.py:44-49 | the nested `set.add` loop stores every listed key's comparison and collects the same column union as the generic `|` loop |
| CompareCsv.CsvDetails | comparecsv.py:34-50 | comparecsv's get_comparison_details computes the generic comparison |
| CompareCsv.GetCsvComparison | comparecsv.py:52-86 | the program of get_csv_comparison produces the functional outcome: the summary as written and the 0/1 status |
| Scenarios.ConvertTwoRawRows | genericcompare.py:56-86 | the dict list `[{id: 1, name: A}, {id: 2, name: B}]` keyed by `id` ingests into the rows (ID 1, NAME A) and (ID 2, NAME B) under the keys 1 and 2, in that order |
| Scenarios.MissingRowScenario | genericcompare.py:4-212 | dict lists with rows 1 and 2 on the left and only row 1 on the right: key 2 is missing, nothing is mismatched, and get_comparison returns 0 |
| Scenarios.ChangedFieldScenario | genericcompare.py:4-212 | dict lists with row 1 with name A on the left and X on the right: key 1 is mismatched with the single detail (NAME, A, X), the columns are {NAME}, and get_comparison returns 1 |

## Left out

- Reading files with `open` and `csv.DictReader` is not modelled. A table is given as its path, header and records.
- Ingest.ConvertCsv: requires every record to have one value per header field. The reader's handling of short and long records (`restval`, `restkey`) is not modelled.
- Printing the summary or writing it to the output file is not modelled. The model returns the text.
- The cx_Oracle usage note at the end of genericcompare.py is not modelled. It is a comment about a foreign database adapter.
- Values are strings. Python would compare other value types with `!=`. `printable_key` would fail on a non-string scalar key. Neither is modelled.
- `str.upper` is modelled for ASCII letters only.
- Report.ColumnOrder: mismatch_columns is a Python set, whose iteration order is unspecified. The model lists the columns in order of first appearance among the detail lists. Only membership and the absence of repeats are proved.
- The unterminated string literal at genericcompare.py:70 would make the module fail to parse. The model treats the line as the intended `raise Exception("Empty list provided!")`.
- Ingest.ConvertToDict: an input that is not of the declared format gives the `WrongShape` error. In Python it would fail somewhere inside the converter.
- Report.RecordsTextLines: requires every detail list to be non-empty. A mismatched key with an empty detail list has its printable key written with no line end, so it joins the next key's text. `Report.RecordsText` models that text as written; only its line reading is restricted. Diff.MismatchHasDetail shows the list is non-empty whenever both rows have the same fields.
- Report.SummaryLines: the line-by-line reading requires that no label, printable key or column name contains a line break. The text itself is modelled for all inputs.

## Findings

| source | as written | input that shows it | evidently intended | confidence | as-written member | corrected member |
|---|---|---|---|---|---|---|
| genericcompare.py:165-167 | the missing keys are `'\n'.join`ed and `Mismatched columns:` is appended directly (also comparecsv.py:58-61) | one missing key `2`: the third line reads `2Mismatched columns:` | every missing key on a line of its own, then the heading on its own line | high; not executed | Report.MissingKeyExampleAsWritten | Report.MissingKeyExample |
| genericcompare.py:189-198 | `d1name` and `d2name` are assigned only when a name is missing | both names given: `get_comparison_summary(d1, d2, d1name, d2name)` raises UnboundLocalError | use the given names | high; not executed | GenericCompare.GivenNamesDiscrepancy | GenericCompare.ResolveLabelsSpec |
| genericcompare.py:95 | `input_tuple_list[0]` is read before any emptiness check | the empty tuple list raises IndexError | the empty-input error, as for an empty dict list | medium; not executed | Ingest.TupleListEmptyDiscrepancy | Ingest.ConvertTupleList |
