/** get_comparison of genericcompare.py: ingest both inputs, settle the report labels,
    compare, render the summary and derive the exit status. Writing the summary to the
    console or to a file is left to the caller: the model returns it. */
module GenericCompare {
  import opened Results
  import opened Errors
  import opened Strings
  import opened Dicts
  import opened Ingest
  import opened Diff
  import opened Report

  /** What get_comparison produces: the summary text it writes and the status it returns. */
  datatype Outcome = Outcome(summary: string, status: int)

  /** The labels used when the caller does not name both inputs: the file paths for CSV
      input, `LEFT` and `RIGHT` otherwise. A CSV input that is not a table never gets this
      far, as its conversion fails first. */
  function DefaultLabels(tag: string, input1: RawInput, input2: RawInput): (string, string) {
    if tag == "csv" && input1.CsvInput? && input2.CsvInput? then (input1.table.path, input2.table.path)
    else ("LEFT", "RIGHT")
  }

  /** The label selection as written: the defaults are assigned only when a name is
      missing, so with both names given the labels are never bound and the summary call
      raises UnboundLocalError. */
  function ResolveLabelsAsWritten(tag: string, input1: RawInput, input2: RawInput, name1: Option<string>, name2: Option<string>): (r: Result<(string, string), Error>)
    ensures r.Err? <==> name1.Some? && name2.Some?
    ensures r.Err? ==> r.error == UnboundLabel
    ensures r.Ok? ==> r.value == DefaultLabels(tag, input1, input2)
  {
    if name1.None? || name2.None? then Ok(DefaultLabels(tag, input1, input2))
    else Err(UnboundLabel)
  }

  /** The label selection as evidently intended: both given names are used, otherwise both
      labels default. */
  function ResolveLabels(tag: string, input1: RawInput, input2: RawInput, name1: Option<string>, name2: Option<string>): (string, string) {
    if name1.Some? && name2.Some? then (name1.value, name2.value)
    else DefaultLabels(tag, input1, input2)
  }

  /** The corrected label selection never fails, uses the caller's names exactly when both
      are given, and agrees with the code as written wherever that succeeds. */
  lemma ResolveLabelsSpec(tag: string, input1: RawInput, input2: RawInput, name1: Option<string>, name2: Option<string>)
    ensures name1.Some? && name2.Some? ==> ResolveLabels(tag, input1, input2, name1, name2) == (name1.value, name2.value)
    ensures name1.None? || name2.None? ==> ResolveLabels(tag, input1, input2, name1, name2) == DefaultLabels(tag, input1, input2)
    ensures ResolveLabelsAsWritten(tag, input1, input2, name1, name2).Ok? ==>
      ResolveLabelsAsWritten(tag, input1, input2, name1, name2).value == ResolveLabels(tag, input1, input2, name1, name2)
  {
  }

  /** The comparison and its rendering once both datasets are ingested and labelled. */
  function Render(d1: RowSet, d2: RowSet, labels: (string, string)): (r: Result<Outcome, Error>)
    requires WellFormedRowSet(d1)
    ensures r.Ok? <==> Comparable(d1, d2)
    ensures r.Err? ==> r.error == RightFieldMissing
    ensures r.Ok? ==> (r.value.status == 0 <==>
      forall k :: k in d1.entries && k in d2.entries ==> SameItems(d1.entries[k], d2.entries[k]))
  {
    if !Comparable(d1, d2) then Err(RightFieldMissing)
    else
      var c := Details(d1, d2);
      StatusMeaning(d1, d2);
      Ok(Outcome(Summary(c, labels.0, labels.1, ColumnOrder(c)), Status(c)))
  }

  /** Render with the summary as written. */
  function RenderAsWritten(d1: RowSet, d2: RowSet, labels: (string, string)): (r: Result<Outcome, Error>)
    requires WellFormedRowSet(d1)
    ensures r.Ok? <==> Comparable(d1, d2)
    ensures r.Err? ==> r.error == RightFieldMissing
    ensures r.Ok? ==> (r.value.status == 0 <==>
      forall k :: k in d1.entries && k in d2.entries ==> SameItems(d1.entries[k], d2.entries[k]))
  {
    if !Comparable(d1, d2) then Err(RightFieldMissing)
    else
      var c := Details(d1, d2);
      StatusMeaning(d1, d2);
      Ok(Outcome(SummaryAsWritten(c, labels.0, labels.1, ColumnOrder(c)), Status(c)))
  }

  /** The steps of get_comparison after both conversions have been attempted: the first
      conversion error, then a label error, surfaces; otherwise the datasets are compared
      and the summary rendered, as written or corrected. */
  function Pipeline(c1: Result<RowSet, Error>, c2: Result<RowSet, Error>, labels: Result<(string, string), Error>, asWritten: bool): (r: Result<Outcome, Error>)
    requires c1.Ok? ==> WellFormedRowSet(c1.value)
    ensures c1.Err? ==> r == Err(c1.error)
    ensures c1.Ok? && c2.Err? ==> r == Err(c2.error)
    ensures c1.Ok? && c2.Ok? && labels.Err? ==> r == Err(labels.error)
    ensures r.Ok? <==> c1.Ok? && c2.Ok? && labels.Ok? && Comparable(c1.value, c2.value)
    ensures r.Ok? ==> (r.value.status == 0 <==>
      forall k :: k in c1.value.entries && k in c2.value.entries ==> SameItems(c1.value.entries[k], c2.value.entries[k]))
  {
    var d1 :- c1;
    var d2 :- c2;
    var l :- labels;
    if asWritten then RenderAsWritten(d1, d2, l) else Render(d1, d2, l)
  }

  /** The as-written and the corrected pipeline under the same labels, from conversions
      that succeed together and agree when they succeed: they fail together, fail alike
      when the conversions are the same, and agree when no key is missing. */
  lemma PipelineAgree(c1: Result<RowSet, Error>, c2: Result<RowSet, Error>, w1: Result<RowSet, Error>, w2: Result<RowSet, Error>, labels: (string, string))
    requires c1.Ok? ==> WellFormedRowSet(c1.value)
    requires w1.Ok? <==> c1.Ok?
    requires w2.Ok? <==> c2.Ok?
    requires c1.Ok? ==> w1 == c1
    requires c2.Ok? ==> w2 == c2
    ensures Pipeline(w1, w2, Ok(labels), true).Ok? <==> Pipeline(c1, c2, Ok(labels), false).Ok?
    ensures w1 == c1 && w2 == c2 && Pipeline(c1, c2, Ok(labels), false).Err? ==>
      Pipeline(w1, w2, Ok(labels), true) == Pipeline(c1, c2, Ok(labels), false)
    ensures Pipeline(c1, c2, Ok(labels), false).Ok? && Details(c1.value, c2.value).missing == [] ==>
      Pipeline(w1, w2, Ok(labels), true) == Pipeline(c1, c2, Ok(labels), false)
    ensures Pipeline(c1, c2, Ok(labels), false).Ok? ==>
      Pipeline(w1, w2, Ok(labels), true).value.status == Pipeline(c1, c2, Ok(labels), false).value.status
  {
    if c1.Ok? && c2.Ok? {
      RenderAgree(c1.value, c2.value, labels);
    }
  }

  /** get_comparison as written: convert the left input, then the right one, then settle
      the labels (failing when both names are given), then compare and render. */
  function GetComparisonAsWritten(input1: RawInput, input2: RawInput, pk: PrimaryKey, tag: string, name1: Option<string>, name2: Option<string>): (r: Result<Outcome, Error>)
    requires WellFormedInput(input1) && WellFormedInput(input2)
    ensures ParseFormat(tag).Err? ==> r == Err(UnsupportedFormat)
    ensures EmptyTupleList(input1, tag) ==> r == Err(IndexOutOfRange)
    ensures r.Ok? ==> name1.None? || name2.None?
    ensures r.Ok? ==> r.value.status == 0 || r.value.status == 1
    ensures r.Ok? ==> var d1, d2 := ConvertToDictAsWritten(input1, pk, tag), ConvertToDictAsWritten(input2, pk, tag);
      && d1.Ok? && d2.Ok?
      && (r.value.status == 0 <==>
            forall k :: k in d1.value.entries && k in d2.value.entries ==> SameItems(d1.value.entries[k], d2.value.entries[k]))
  {
    Pipeline(
      ConvertToDictAsWritten(input1, pk, tag),
      ConvertToDictAsWritten(input2, pk, tag),
      ResolveLabelsAsWritten(tag, input1, input2, name1, name2),
      true)
  }

  /** get_comparison corrected: the given names are used, and every missing key ends its
      line. */
  function GetComparison(input1: RawInput, input2: RawInput, pk: PrimaryKey, tag: string, name1: Option<string>, name2: Option<string>): (r: Result<Outcome, Error>)
    requires WellFormedInput(input1) && WellFormedInput(input2)
    ensures ParseFormat(tag).Err? ==> r == Err(UnsupportedFormat)
    ensures EmptyTupleList(input1, tag) ==> r == Err(EmptyInput)
    ensures r.Ok? ==> r.value.status == 0 || r.value.status == 1
    ensures r.Ok? && name1.Some? && name2.Some? ==> Header(name1.value, name2.value) + "\n" <= r.value.summary
  {
    Pipeline(
      ConvertToDict(input1, pk, tag),
      ConvertToDict(input2, pk, tag),
      Ok(ResolveLabels(tag, input1, input2, name1, name2)),
      false)
  }

  /** The errors of get_comparison, in the order it meets them: an unknown format, then
      the left input's conversion error, then the right one's, then a right row lacking a
      field of its left row. It succeeds exactly when none of these occurs. */
  lemma GetComparisonErrors(input1: RawInput, input2: RawInput, pk: PrimaryKey, tag: string, name1: Option<string>, name2: Option<string>)
    requires WellFormedInput(input1) && WellFormedInput(input2)
    ensures var r := GetComparison(input1, input2, pk, tag, name1, name2);
      && (ParseFormat(tag).Err? ==> r == Err(UnsupportedFormat))
      && (ConvertToDict(input1, pk, tag).Err? ==> r == Err(ConvertToDict(input1, pk, tag).error))
      && (ConvertToDict(input1, pk, tag).Ok? && ConvertToDict(input2, pk, tag).Err? ==> r == Err(ConvertToDict(input2, pk, tag).error))
      && (r.Ok? <==>
            && ConvertToDict(input1, pk, tag).Ok?
            && ConvertToDict(input2, pk, tag).Ok?
            && Comparable(ConvertToDict(input1, pk, tag).value, ConvertToDict(input2, pk, tag).value))
  {
    var c1, c2 := ConvertToDict(input1, pk, tag), ConvertToDict(input2, pk, tag);
    assert GetComparison(input1, input2, pk, tag, name1, name2)
      == Pipeline(c1, c2, Ok(ResolveLabels(tag, input1, input2, name1, name2)), false);
  }

  /** The status is 0 or 1, and 0 exactly when every key present in both ingested
      datasets carries equal rows: keys missing on the right do not count. */
  lemma GetComparisonStatus(input1: RawInput, input2: RawInput, pk: PrimaryKey, tag: string, name1: Option<string>, name2: Option<string>)
    requires WellFormedInput(input1) && WellFormedInput(input2)
    requires GetComparison(input1, input2, pk, tag, name1, name2).Ok?
    ensures var r := GetComparison(input1, input2, pk, tag, name1, name2).value;
      var d1 := ConvertToDict(input1, pk, tag).value;
      var d2 := ConvertToDict(input2, pk, tag).value;
      && (r.status == 0 || r.status == 1)
      && (r.status == 0 <==> forall k :: k in d1.entries && k in d2.entries ==> SameItems(d1.entries[k], d2.entries[k]))
  {
    var d1 := ConvertToDict(input1, pk, tag).value;
    var d2 := ConvertToDict(input2, pk, tag).value;
    StatusMeaning(d1, d2);
  }

  /** Read line by line, the summary opens with the header naming the two labels, then the
      "Missing keys:" heading, one line per left key absent on the right (in left order),
      and the "Mismatched columns:" heading. */
  lemma GetComparisonSummary(input1: RawInput, input2: RawInput, pk: PrimaryKey, tag: string, name1: Option<string>, name2: Option<string>)
    requires WellFormedInput(input1) && WellFormedInput(input2)
    requires GetComparison(input1, input2, pk, tag, name1, name2).Ok?
    requires var c := Details(ConvertToDict(input1, pk, tag).value, ConvertToDict(input2, pk, tag).value);
      var labels := ResolveLabels(tag, input1, input2, name1, name2);
      OneLine(c, labels.0, labels.1, ColumnOrder(c))
    ensures var d1 := ConvertToDict(input1, pk, tag).value;
      var d2 := ConvertToDict(input2, pk, tag).value;
      var labels := ResolveLabels(tag, input1, input2, name1, name2);
      var lines := Split(GetComparison(input1, input2, pk, tag, name1, name2).value.summary, '\n');
      var missing := Details(d1, d2).missing;
      && |lines| > 3 + |missing|
      && lines[0] == Header(labels.0, labels.1)
      && lines[1] == "Missing keys:"
      && lines[2..2 + |missing|] == KeyLines(missing)
      && lines[2 + |missing|] == "Mismatched columns:"
  {
    var d1 := ConvertToDict(input1, pk, tag).value;
    var d2 := ConvertToDict(input2, pk, tag).value;
    var labels := ResolveLabels(tag, input1, input2, name1, name2);
    var c := Details(d1, d2);
    assert GetComparison(input1, input2, pk, tag, name1, name2).value.summary == Summary(c, labels.0, labels.1, ColumnOrder(c));
    SummaryOpening(c, labels.0, labels.1, ColumnOrder(c));
  }

  /** With both names given and both inputs ingested and comparable, the code as written
      fails on the unbound labels while the corrected version reports under those names. */
  lemma GivenNamesDiscrepancy(input1: RawInput, input2: RawInput, pk: PrimaryKey, tag: string, label1: string, label2: string)
    requires WellFormedInput(input1) && WellFormedInput(input2)
    requires ConvertToDict(input1, pk, tag).Ok? && ConvertToDict(input2, pk, tag).Ok?
    requires Comparable(ConvertToDict(input1, pk, tag).value, ConvertToDict(input2, pk, tag).value)
    ensures GetComparisonAsWritten(input1, input2, pk, tag, Some(label1), Some(label2)) == Err(UnboundLabel)
    ensures GetComparison(input1, input2, pk, tag, Some(label1), Some(label2)).Ok?
    ensures ResolveLabels(tag, input1, input2, Some(label1), Some(label2)) == (label1, label2)
  {
    ConvertToDictAgree(input1, pk, tag);
    ConvertToDictAgree(input2, pk, tag);
  }

  /** Rendering as written and as corrected fail alike, and agree when no key is
      missing. */
  lemma RenderAgree(d1: RowSet, d2: RowSet, labels: (string, string))
    requires WellFormedRowSet(d1)
    ensures RenderAsWritten(d1, d2, labels).Ok? <==> Render(d1, d2, labels).Ok?
    ensures Render(d1, d2, labels).Err? ==> RenderAsWritten(d1, d2, labels) == Render(d1, d2, labels)
    ensures Render(d1, d2, labels).Ok? && Details(d1, d2).missing == [] ==> RenderAsWritten(d1, d2, labels) == Render(d1, d2, labels)
    ensures Render(d1, d2, labels).Ok? ==> RenderAsWritten(d1, d2, labels).value.status == Render(d1, d2, labels).value.status
  {
    if Comparable(d1, d2) && Details(d1, d2).missing == [] {
      var c := Details(d1, d2);
      SummaryAsWrittenNoMissing(c, labels.0, labels.1, ColumnOrder(c));
    }
  }

  /** When the caller leaves a name out, the code as written and the corrected version
      fail together. */
  lemma DefaultNamesAgree(input1: RawInput, input2: RawInput, pk: PrimaryKey, tag: string, name1: Option<string>, name2: Option<string>)
    requires WellFormedInput(input1) && WellFormedInput(input2)
    requires name1.None? || name2.None?
    ensures GetComparisonAsWritten(input1, input2, pk, tag, name1, name2).Ok?
      <==> GetComparison(input1, input2, pk, tag, name1, name2).Ok?
  {
    DefaultNamesPipelines(input1, input2, pk, tag, name1, name2);
  }

  /** When the caller leaves a name out, the code as written fails with the same error as
      the corrected version unless an input is the empty tuple list, which the code rejects
      with IndexError and the corrected version as empty. */
  lemma DefaultNamesFailAlike(input1: RawInput, input2: RawInput, pk: PrimaryKey, tag: string, name1: Option<string>, name2: Option<string>)
    requires WellFormedInput(input1) && WellFormedInput(input2)
    requires name1.None? || name2.None?
    ensures GetComparison(input1, input2, pk, tag, name1, name2).Err? && !EmptyTupleList(input1, tag) && !EmptyTupleList(input2, tag) ==>
      GetComparisonAsWritten(input1, input2, pk, tag, name1, name2) == GetComparison(input1, input2, pk, tag, name1, name2)
  {
    DefaultNamesPipelines(input1, input2, pk, tag, name1, name2);
  }

  /** With a name left out, both versions run the pipeline under the default labels, on
      conversions that succeed together and agree when they succeed or when no input is the
      empty tuple list. */
  lemma DefaultNamesPipelines(input1: RawInput, input2: RawInput, pk: PrimaryKey, tag: string, name1: Option<string>, name2: Option<string>)
    requires WellFormedInput(input1) && WellFormedInput(input2)
    requires name1.None? || name2.None?
    ensures var c1, c2 := ConvertToDict(input1, pk, tag), ConvertToDict(input2, pk, tag);
      var w1, w2 := ConvertToDictAsWritten(input1, pk, tag), ConvertToDictAsWritten(input2, pk, tag);
      var labels := DefaultLabels(tag, input1, input2);
      && GetComparison(input1, input2, pk, tag, name1, name2) == Pipeline(c1, c2, Ok(labels), false)
      && GetComparisonAsWritten(input1, input2, pk, tag, name1, name2) == Pipeline(w1, w2, Ok(labels), true)
      && (w1.Ok? <==> c1.Ok?) && (w2.Ok? <==> c2.Ok?) && (c1.Ok? ==> w1 == c1) && (c2.Ok? ==> w2 == c2)
      && (!EmptyTupleList(input1, tag) && !EmptyTupleList(input2, tag) ==> w1 == c1 && w2 == c2)
      && Pipeline(w1, w2, Ok(labels), true).Ok? == Pipeline(c1, c2, Ok(labels), false).Ok?
      && (w1 == c1 && w2 == c2 && Pipeline(c1, c2, Ok(labels), false).Err? ==>
            Pipeline(w1, w2, Ok(labels), true) == Pipeline(c1, c2, Ok(labels), false))
      && (Pipeline(c1, c2, Ok(labels), false).Ok? && Details(c1.value, c2.value).missing == [] ==>
            Pipeline(w1, w2, Ok(labels), true) == Pipeline(c1, c2, Ok(labels), false))
  {
    ConvertToDictAgree(input1, pk, tag);
    ConvertToDictAgree(input2, pk, tag);
    ResolveLabelsSpec(tag, input1, input2, name1, name2);
    PipelineAgree(ConvertToDict(input1, pk, tag), ConvertToDict(input2, pk, tag),
      ConvertToDictAsWritten(input1, pk, tag), ConvertToDictAsWritten(input2, pk, tag),
      DefaultLabels(tag, input1, input2));
  }

  /** When the caller leaves a name out and no key is missing, the code as written and the
      corrected version produce the same report. */
  lemma DefaultNamesSameReport(input1: RawInput, input2: RawInput, pk: PrimaryKey, tag: string, name1: Option<string>, name2: Option<string>)
    requires WellFormedInput(input1) && WellFormedInput(input2)
    requires name1.None? || name2.None?
    ensures (GetComparison(input1, input2, pk, tag, name1, name2).Ok?
      && Details(ConvertToDict(input1, pk, tag).value, ConvertToDict(input2, pk, tag).value).missing == []) ==>
      GetComparisonAsWritten(input1, input2, pk, tag, name1, name2) == GetComparison(input1, input2, pk, tag, name1, name2)
  {
    DefaultNamesPipelines(input1, input2, pk, tag, name1, name2);
  }

  /** Wherever the code as written succeeds, the corrected version succeeds too, on the
      same ingested datasets and with the same status. */
  lemma AsWrittenStatusAgrees(input1: RawInput, input2: RawInput, pk: PrimaryKey, tag: string, name1: Option<string>, name2: Option<string>)
    requires WellFormedInput(input1) && WellFormedInput(input2)
    requires GetComparisonAsWritten(input1, input2, pk, tag, name1, name2).Ok?
    ensures ConvertToDictAsWritten(input1, pk, tag) == ConvertToDict(input1, pk, tag)
    ensures ConvertToDictAsWritten(input2, pk, tag) == ConvertToDict(input2, pk, tag)
    ensures GetComparison(input1, input2, pk, tag, name1, name2).Ok?
    ensures GetComparisonAsWritten(input1, input2, pk, tag, name1, name2).value.status
      == GetComparison(input1, input2, pk, tag, name1, name2).value.status
  {
    var c1, c2 := ConvertToDict(input1, pk, tag), ConvertToDict(input2, pk, tag);
    var w1, w2 := ConvertToDictAsWritten(input1, pk, tag), ConvertToDictAsWritten(input2, pk, tag);
    var labels := DefaultLabels(tag, input1, input2);
    ConvertToDictAgree(input1, pk, tag);
    ConvertToDictAgree(input2, pk, tag);
    ResolveLabelsSpec(tag, input1, input2, name1, name2);
    assert GetComparison(input1, input2, pk, tag, name1, name2) == Pipeline(c1, c2, Ok(labels), false);
    assert GetComparisonAsWritten(input1, input2, pk, tag, name1, name2) == Pipeline(w1, w2, Ok(labels), true);
    PipelineAgree(c1, c2, w1, w2, labels);
  }
}
