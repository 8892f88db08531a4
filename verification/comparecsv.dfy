/** get_csv_comparison of comparecsv.py: the CSV-only predecessor of get_comparison. It
    ingests both tables the same way, collects the mismatched columns with `set.add` in a
    nested loop instead of a set union, and labels the report with the two paths. */
module CompareCsv {
  import opened Results
  import opened Errors
  import opened Ingest
  import opened Diff
  import opened Report
  import opened Dicts
  import opened GenericCompare

  /** `{key: val for key, val in row.items()}` applied to every row. */
  function CopyRows(rows: seq<Row>): (r: seq<Row>)
    requires forall i :: 0 <= i < |rows| ==> Valid(rows[i])
    ensures |r| == |rows|
    ensures forall i :: 0 <= i < |rows| ==> r[i] == FromPairs(Items(rows[i]))
  {
    seq(|rows|, i requires 0 <= i < |rows| && Valid(rows[i]) => FromPairs(Items(rows[i])))
  }

  /** A copy rebuilt from its items is the row itself, order included. */
  lemma CopyRowsUnchanged(rows: seq<Row>)
    requires forall i :: 0 <= i < |rows| ==> Valid(rows[i])
    ensures CopyRows(rows) == rows
  {
    forall i | 0 <= i < |rows|
      ensures CopyRows(rows)[i] == rows[i]
    {
      FromItems(rows[i]);
    }
  }

  /** convert_csv_to_dict: like convert_csv, except that each row is stored as a copy
      rebuilt from its items, under the key computed from the reader's row. */
  function ConvertCsvCopying(t: CsvTable, pk: PrimaryKey): (r: Result<RowSet, Error>)
    requires Rectangular(t)
  {
    if !KeyFieldsIn(pk, UpperHeader(t.header)) then Err(KeyNotFound)
    else
      var rows := CsvRows(t);
      match RowKeys(rows, UpperKey(pk))
      case Err(e) => Err(e)
      case Ok(keys) => Ok(FromPairs(Keyed(keys, CopyRows(rows))))
  }

  /** Copying the rows changes nothing: convert_csv_to_dict ingests a table exactly as
      convert_csv does. */
  lemma ConvertCsvCopyingIsConvertCsv(t: CsvTable, pk: PrimaryKey)
    requires Rectangular(t)
    ensures ConvertCsvCopying(t, pk) == ConvertCsv(t, pk)
  {
    if KeyFieldsIn(pk, UpperHeader(t.header)) {
      var rows := CsvRows(t);
      assert ConvertCsvCopying(t, pk) == BuildRowSet(rows, UpperKey(pk)) by {
        CopyRowsUnchanged(rows);
      }
      ConvertCsvBuilds(t, pk);
    }
  }

  /** get_csv_comparison as written, from the two tables the reader delivers. */
  function CsvComparison(t1: CsvTable, t2: CsvTable, pk: PrimaryKey): (r: Result<Outcome, Error>)
    requires Rectangular(t1) && Rectangular(t2)
    ensures r.Err? ==> r.error == KeyNotFound || r.error == RightFieldMissing
    ensures r.Ok? ==> r.value.status == 0 || r.value.status == 1
    ensures r.Ok? ==> var d1, d2 := ConvertCsv(t1, pk), ConvertCsv(t2, pk);
      && d1.Ok? && d2.Ok?
      && (r.value.status == 0 <==>
            forall k :: k in d1.value.entries && k in d2.value.entries ==> SameItems(d1.value.entries[k], d2.value.entries[k]))
  {
    ConvertCsvCopyingIsConvertCsv(t1, pk);
    ConvertCsvCopyingIsConvertCsv(t2, pk);
    var d1 :- ConvertCsvCopying(t1, pk);
    var d2 :- ConvertCsvCopying(t2, pk);
    RenderAsWritten(d1, d2, (t1.path, t2.path))
  }

  /** get_csv_comparison with every missing key on a line of its own. */
  function CsvComparisonCorrected(t1: CsvTable, t2: CsvTable, pk: PrimaryKey): (r: Result<Outcome, Error>)
    requires Rectangular(t1) && Rectangular(t2)
  {
    ConvertCsvCopyingIsConvertCsv(t1, pk);
    ConvertCsvCopyingIsConvertCsv(t2, pk);
    var d1 :- ConvertCsvCopying(t1, pk);
    var d2 :- ConvertCsvCopying(t2, pk);
    Render(d1, d2, (t1.path, t2.path))
  }

  /** The CSV-only comparison is get_comparison on CSV input with no names given, both as
      written and as corrected: its row copies change nothing. */
  lemma CsvComparisonIsGeneric(t1: CsvTable, t2: CsvTable, pk: PrimaryKey)
    requires Rectangular(t1) && Rectangular(t2)
    ensures CsvComparison(t1, t2, pk) == GetComparisonAsWritten(CsvInput(t1), CsvInput(t2), pk, "csv", None, None)
    ensures CsvComparisonCorrected(t1, t2, pk) == GetComparison(CsvInput(t1), CsvInput(t2), pk, "csv", None, None)
  {
    assert ParseFormat("csv") == Ok(Csv);
    ConvertCsvCopyingIsConvertCsv(t1, pk);
    ConvertCsvCopyingIsConvertCsv(t2, pk);
    var c1, c2 := ConvertCsv(t1, pk), ConvertCsv(t2, pk);
    var labels := (t1.path, t2.path);
    assert DefaultLabels("csv", CsvInput(t1), CsvInput(t2)) == labels;
    assert GetComparisonAsWritten(CsvInput(t1), CsvInput(t2), pk, "csv", None, None) == Pipeline(c1, c2, Ok(labels), true);
    assert GetComparison(CsvInput(t1), CsvInput(t2), pk, "csv", None, None) == Pipeline(c1, c2, Ok(labels), false);
  }

  /** The loop of comparecsv.py's get_comparison_details: for each key, store its detail
      list and add the name of each differing field to the columns one at a time. */
  method CollectDetailsByAdd(keys: seq<Key>, compare: Key -> seq<Mismatch>) returns (columns: set<string>, details: map<Key, seq<Mismatch>>)
    ensures forall i :: 0 <= i < |keys| ==> keys[i] in details
    ensures forall k :: k in details ==> k in keys && details[k] == compare(k)
    ensures columns == ColumnsOf(keys, details)
  {
    columns := {};
    details := map[];
    for i := 0 to |keys|
      invariant forall j :: 0 <= j < i ==> keys[j] in details
      invariant forall k :: k in details ==> k in keys && details[k] == compare(k)
      invariant columns == ColumnsOf(keys[..i], details)
    {
      var k := keys[i];
      var ds := compare(k);
      var before := details;
      details := details[k := ds];
      ColumnsOfFrame(keys[..i], before, details);
      ghost var start := columns;
      for j := 0 to |ds|
        invariant columns == start + FieldSet(ds[..j])
      {
        assert FieldSet(ds[..j + 1]) == FieldSet(ds[..j]) + {ds[j].field} by {
          assert ds[..j + 1] == ds[..j] + [ds[j]];
        }
        columns := columns + {ds[j].field};
      }
      assert ds[..|ds|] == ds;
      assert keys[..i + 1][..i] == keys[..i];
    }
    assert keys[..|keys|] == keys;
  }

  /** comparecsv.py's get_comparison_details on two ingested tables. */
  method CsvDetails(d1: RowSet, d2: RowSet) returns (r: Comparison)
    requires WellFormedRowSet(d1) && Comparable(d1, d2)
    ensures r == Details(d1, d2)
  {
    var missing := MissingKeys(d1.order, d2.entries);
    var mismatched := MismatchKeys(d1.order, d1.entries, d2.entries);
    var columns, details := CollectDetailsByAdd(mismatched, k => if k in d1.entries && k in d2.entries then CompareRows(d1.entries[k], d2.entries[k]) else []);
    DetailsOfExactly(mismatched, d1, d2, details);
    r := Comparison(missing, mismatched, columns, details);
  }

  /** get_csv_comparison as a program: ingest, compare with the loop, render. */
  method GetCsvComparison(t1: CsvTable, t2: CsvTable, pk: PrimaryKey) returns (r: Result<Outcome, Error>)
    requires Rectangular(t1) && Rectangular(t2)
    ensures r == CsvComparison(t1, t2, pk)
  {
    ConvertCsvCopyingIsConvertCsv(t1, pk);
    ConvertCsvCopyingIsConvertCsv(t2, pk);
    var c1 := ConvertCsvCopying(t1, pk);
    if c1.Err? {
      return Err(c1.error);
    }
    var c2 := ConvertCsvCopying(t2, pk);
    if c2.Err? {
      return Err(c2.error);
    }
    var d1, d2 := c1.value, c2.value;
    if !Comparable(d1, d2) {
      return Err(RightFieldMissing);
    }
    var c := CsvDetails(d1, d2);
    r := Ok(Outcome(SummaryAsWritten(c, t1.path, t2.path, ColumnOrder(c)), Status(c)));
  }
}
