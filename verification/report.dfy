/** The report of get_comparison_summary in genericcompare.py (repeated in comparecsv.py):
    printable keys, the summary text and the 0/1 status derived from the mismatched keys. */
module Report {
  import opened Seqs
  import opened Strings
  import opened Dicts
  import opened Ingest
  import opened Diff

  /** printable_key: a scalar key as it is, a composite key's parts joined with `;`. */
  function PrintableKey(k: Key): string {
    match k
    case Scalar(s) => s
    case Composite(parts) => Join(";", parts)
  }

  /** A composite key whose parts hold no `;` reads back from its printable form. */
  lemma PrintableKeyParts(parts: seq<string>)
    requires |parts| > 0
    requires forall i :: 0 <= i < |parts| ==> ';' !in parts[i]
    ensures Split(PrintableKey(Composite(parts)), ';') == parts
  {
    SplitJoin(parts, ';');
  }

  /** The printable form does not tell every pair of keys apart: a scalar value holding
      `;` prints like the composite key of its pieces. */
  lemma PrintableKeyCollision()
    ensures Scalar("1;2") != Composite(["1", "2"])
    ensures PrintableKey(Scalar("1;2")) == PrintableKey(Composite(["1", "2"]))
  {
    assert Join(";", ["1", "2"]) == "1" + ";" + Join(";", ["2"]);
  }

  /** The printable keys of a key list, one per line of the "Missing keys" block. */
  function KeyLines(keys: seq<Key>): (r: seq<string>)
    ensures |r| == |keys|
    ensures forall i :: 0 <= i < |keys| ==> r[i] == PrintableKey(keys[i])
  {
    seq(|keys|, i requires 0 <= i < |keys| => PrintableKey(keys[i]))
  }

  /** `f",{colname},{val1},{val2}"`: one differing field, without its line end. */
  function RecordText(m: Mismatch): string {
    "," + m.field + "," + m.left + "," + m.right
  }

  /** The record texts of one detail list, in list order. */
  function RecordTexts(ms: seq<Mismatch>): (r: seq<string>)
    ensures |r| == |ms|
    ensures forall i :: 0 <= i < |ms| ==> r[i] == RecordText(ms[i])
  {
    seq(|ms|, i requires 0 <= i < |ms| => RecordText(ms[i]))
  }

  /** The "Mismatch records" block: for each mismatched key, in order, its printable form
      and then one newline-terminated record per differing field. */
  function RecordsText(keys: seq<Key>, details: map<Key, seq<Mismatch>>): string
    requires forall i :: 0 <= i < |keys| ==> keys[i] in details
  {
    if |keys| == 0 then ""
    else
      var k := keys[|keys| - 1];
      RecordsText(keys[..|keys| - 1], details) + PrintableKey(k) + ConcatLines(RecordTexts(details[k]))
  }

  /** The lines of the "Mismatch records" block when every detail list is non-empty: the
      key stands at the start of its first record's line only, and every further record
      line starts with the comma. */
  function RecordLines(keys: seq<Key>, details: map<Key, seq<Mismatch>>): seq<string>
    requires forall i :: 0 <= i < |keys| ==> keys[i] in details && details[keys[i]] != []
  {
    if |keys| == 0 then []
    else
      var k := keys[|keys| - 1];
      var ts := RecordTexts(details[k]);
      RecordLines(keys[..|keys| - 1], details) + [PrintableKey(k) + ts[0]] + ts[1..]
  }

  /** With no empty detail list, the records block is exactly its lines, each terminated
      by a newline. */
  lemma {:induction false} RecordsTextLines(keys: seq<Key>, details: map<Key, seq<Mismatch>>)
    requires forall i :: 0 <= i < |keys| ==> keys[i] in details && details[keys[i]] != []
    ensures RecordsText(keys, details) == ConcatLines(RecordLines(keys, details))
  {
    if |keys| > 0 {
      var p := keys[..|keys| - 1];
      var k := keys[|keys| - 1];
      var ts := RecordTexts(details[k]);
      RecordsTextLines(p, details);
      assert RecordsText(keys, details) == RecordsText(p, details) + PrintableKey(k) + ConcatLines(ts);
      assert RecordLines(keys, details) == RecordLines(p, details) + [PrintableKey(k) + ts[0]] + ts[1..];
      PrefixedLines(RecordLines(p, details), PrintableKey(k), ts);
    }
  }

  /** Text ending in complete lines, then a prefix and more complete lines: the prefix
      joins the first of those lines. */
  lemma PrefixedLines(lines: seq<string>, prefix: string, ts: seq<string>)
    requires |ts| > 0
    ensures ConcatLines(lines) + prefix + ConcatLines(ts) == ConcatLines(lines + [prefix + ts[0]] + ts[1..])
  {
    var first := prefix + ts[0];
    var more := [first] + ts[1..];
    var tail := ConcatLines(ts[1..]);
    assert lines + [first] + ts[1..] == lines + more;
    ConcatLinesAppend(lines, more);
    assert more[0] == first && more[1..] == ts[1..];
    assert ConcatLines(more) == first + "\n" + tail;
    assert ConcatLines(ts) == ts[0] + "\n" + tail;
    GlueLast(ConcatLines(lines), prefix, ts[0], tail);
  }

  /** The summary's first line. */
  function Header(label1: string, label2: string): string {
    "Comparing " + label1 + " to " + label2
  }

  /** The lines of the "Mismatched columns" block: `'\n'.join(columns)` followed by a
      newline is one line per column, or a single empty line when there is none. */
  function ColumnLines(columns: seq<string>): seq<string> {
    if |columns| == 0 then [""] else columns
  }

  /** get_comparison_summary with every missing key on a line of its own. The columns are
      given in the order in which the report lists them. */
  function Summary(c: Comparison, label1: string, label2: string, columns: seq<string>): string
    requires forall i :: 0 <= i < |c.mismatched| ==> c.mismatched[i] in c.details
  {
    Header(label1, label2) + "\n"
    + ("Missing keys:\n"
    + (ConcatLines(KeyLines(c.missing))
    + ("Mismatched columns:\n"
    + (Join("\n", columns) + "\n"
    + ("Mismatch records:\n"
    + RecordsText(c.mismatched, c.details))))))
  }

  /** get_comparison_summary as written: the missing keys are newline-joined, so the last
      one is not followed by a newline before the next heading. */
  function SummaryAsWritten(c: Comparison, label1: string, label2: string, columns: seq<string>): string
    requires forall i :: 0 <= i < |c.mismatched| ==> c.mismatched[i] in c.details
  {
    Header(label1, label2) + "\n"
    + ("Missing keys:\n"
    + (Join("\n", KeyLines(c.missing))
    + ("Mismatched columns:\n"
    + (Join("\n", columns) + "\n"
    + ("Mismatch records:\n"
    + RecordsText(c.mismatched, c.details))))))
  }

  /** No label, printable key or column name holds a line break. */
  predicate OneLine(c: Comparison, label1: string, label2: string, columns: seq<string>) {
    && '\n' !in label1 && '\n' !in label2
    && (forall i :: 0 <= i < |c.missing| ==> '\n' !in PrintableKey(c.missing[i]))
    && (forall i :: 0 <= i < |columns| ==> '\n' !in columns[i])
  }

  /** A heading line followed by the rest of the text. */
  lemma SplitHeading(h: string, rest: string)
    requires '\n' !in h
    ensures Split(h + "\n" + rest, '\n') == [h] + Split(rest, '\n')
  {
    SplitPiece(h, rest, '\n');
  }

  /** The "Mismatched columns" block, then the rest of the text. */
  lemma SplitColumns(columns: seq<string>, rest: string)
    requires forall i :: 0 <= i < |columns| ==> '\n' !in columns[i]
    ensures Split(Join("\n", columns) + "\n" + rest, '\n') == ColumnLines(columns) + Split(rest, '\n')
  {
    if |columns| == 0 {
      SplitHeading("", rest);
    } else {
      JoinThenNewline(columns);
      SplitConcatLines(columns, rest);
    }
  }

  /** The lines of the report from the "Mismatched columns:" heading on. */
  lemma SplitReportTail(columns: seq<string>, recs: string)
    requires forall i :: 0 <= i < |columns| ==> '\n' !in columns[i]
    ensures Split("Mismatched columns:\n" + (Join("\n", columns) + "\n" + ("Mismatch records:\n" + recs)), '\n')
      == ["Mismatched columns:"] + (ColumnLines(columns) + (["Mismatch records:"] + Split(recs, '\n')))
  {
    var t4 := "Mismatch records:\n" + recs;
    var t3 := Join("\n", columns) + "\n" + t4;
    assert "Mismatched columns:\n" == "Mismatched columns:" + "\n";
    SplitHeading("Mismatched columns:", t3);
    SplitColumns(columns, t4);
    assert "Mismatch records:\n" == "Mismatch records:" + "\n";
    SplitHeading("Mismatch records:", recs);
  }

  /** The lines of the report text for any header, key lines and columns free of line
      breaks. */
  lemma SplitReport(h: string, keys: seq<string>, columns: seq<string>, recs: string)
    requires '\n' !in h
    requires forall i :: 0 <= i < |keys| ==> '\n' !in keys[i]
    requires forall i :: 0 <= i < |columns| ==> '\n' !in columns[i]
    ensures Split(h + "\n" + ("Missing keys:\n" + (ConcatLines(keys)
        + ("Mismatched columns:\n" + (Join("\n", columns) + "\n" + ("Mismatch records:\n" + recs))))), '\n')
      == [h] + (["Missing keys:"] + (keys + (["Mismatched columns:"]
        + (ColumnLines(columns) + (["Mismatch records:"] + Split(recs, '\n'))))))
  {
    var t2 := "Mismatched columns:\n" + (Join("\n", columns) + "\n" + ("Mismatch records:\n" + recs));
    var t1 := ConcatLines(keys) + t2;
    var t0 := "Missing keys:\n" + t1;
    SplitHeading(h, t0);
    assert "Missing keys:\n" == "Missing keys:" + "\n";
    SplitHeading("Missing keys:", t1);
    SplitConcatLines(keys, t2);
    SplitReportTail(columns, recs);
  }

  /** Read line by line, the summary is its header line, the "Missing keys:" heading, one
      line per missing key, the "Mismatched columns:" heading, one line per column, the
      "Mismatch records:" heading and then the lines of the records block. */
  lemma SummaryLines(c: Comparison, label1: string, label2: string, columns: seq<string>)
    requires forall i :: 0 <= i < |c.mismatched| ==> c.mismatched[i] in c.details
    requires OneLine(c, label1, label2, columns)
    ensures Split(Summary(c, label1, label2, columns), '\n')
      == [Header(label1, label2), "Missing keys:"] + KeyLines(c.missing)
         + ["Mismatched columns:"] + ColumnLines(columns) + ["Mismatch records:"]
         + Split(RecordsText(c.mismatched, c.details), '\n')
  {
    var h := Header(label1, label2);
    var recs := RecordsText(c.mismatched, c.details);
    assert '\n' !in h by {
      assert h == "Comparing " + label1 + " to " + label2;
    }
    SplitReport(h, KeyLines(c.missing), columns, recs);
    assert [h, "Missing keys:"] == [h] + ["Missing keys:"];
    Reassociate([h], ["Missing keys:"], KeyLines(c.missing), ["Mismatched columns:"], ColumnLines(columns), ["Mismatch records:"], Split(recs, '\n'));
  }

  /** The opening lines of a report laid out as SummaryLines describes. */
  lemma OpeningLines(lines: seq<string>, h: string, ks: seq<string>, a: seq<string>, b: seq<string>, c: seq<string>)
    requires lines == [h, "Missing keys:"] + ks + ["Mismatched columns:"] + a + b + c
    requires |a| > 0
    ensures |lines| > 3 + |ks|
    ensures lines[0] == h && lines[1] == "Missing keys:"
    ensures lines[2..2 + |ks|] == ks
    ensures lines[2 + |ks|] == "Mismatched columns:"
  {
    assert lines == ([h, "Missing keys:"] + ks) + (["Mismatched columns:"] + a + b + c);
  }

  /** The opening lines of the summary: the header, the "Missing keys:" heading, one line
      per missing key and the "Mismatched columns:" heading. */
  lemma SummaryOpening(c: Comparison, label1: string, label2: string, columns: seq<string>)
    requires forall i :: 0 <= i < |c.mismatched| ==> c.mismatched[i] in c.details
    requires OneLine(c, label1, label2, columns)
    ensures var lines := Split(Summary(c, label1, label2, columns), '\n');
      && |lines| > 3 + |c.missing|
      && lines[0] == Header(label1, label2)
      && lines[1] == "Missing keys:"
      && lines[2..2 + |c.missing|] == KeyLines(c.missing)
      && lines[2 + |c.missing|] == "Mismatched columns:"
  {
    SummaryLines(c, label1, label2, columns);
    OpeningLines(Split(Summary(c, label1, label2, columns), '\n'), Header(label1, label2), KeyLines(c.missing),
      ColumnLines(columns), ["Mismatch records:"], Split(RecordsText(c.mismatched, c.details), '\n'));
  }

  /** Without missing keys the code as written and the corrected summary agree. */
  lemma SummaryAsWrittenNoMissing(c: Comparison, label1: string, label2: string, columns: seq<string>)
    requires forall i :: 0 <= i < |c.mismatched| ==> c.mismatched[i] in c.details
    requires c.missing == []
    ensures SummaryAsWritten(c, label1, label2, columns) == Summary(c, label1, label2, columns)
  {
    assert KeyLines(c.missing) == [];
  }

  /** Newline-joined missing keys followed by the "Mismatched columns:" heading: the last
      key and the heading share a line. */
  lemma SplitJoinedKeys(ks: seq<string>, rest: string)
    requires |ks| > 0
    requires forall i :: 0 <= i < |ks| ==> '\n' !in ks[i]
    ensures Split(Join("\n", ks) + ("Mismatched columns:\n" + rest), '\n')
      == ks[..|ks| - 1] + ([ks[|ks| - 1] + "Mismatched columns:"] + Split(rest, '\n'))
  {
    var n := |ks|;
    var init := ConcatLines(ks[..n - 1]);
    var glued := ks[n - 1] + "Mismatched columns:";
    JoinLast(ks);
    assert "Mismatched columns:\n" == "Mismatched columns:" + "\n";
    GlueLast(init, ks[n - 1], "Mismatched columns:", rest);
    SplitConcatLines(ks[..n - 1], glued + "\n" + rest);
    assert ks[n - 1] in ks;
    SplitHeading(glued, rest);
  }

  /** Regrouping text so that a piece without a line break joins the line that follows it. */
  lemma GlueLast(init: string, last: string, heading: string, rest: string)
    ensures init + last + (heading + "\n" + rest) == init + (last + heading + "\n" + rest)
  {
  }

  /** The lines of the report text as written, for any header, non-empty key lines and
      columns free of line breaks. */
  lemma SplitReportAsWritten(h: string, ks: seq<string>, columns: seq<string>, recs: string)
    requires '\n' !in h
    requires |ks| > 0
    requires forall i :: 0 <= i < |ks| ==> '\n' !in ks[i]
    requires forall i :: 0 <= i < |columns| ==> '\n' !in columns[i]
    ensures Split(h + "\n" + ("Missing keys:\n" + (Join("\n", ks)
        + ("Mismatched columns:\n" + (Join("\n", columns) + "\n" + ("Mismatch records:\n" + recs))))), '\n')
      == [h] + (["Missing keys:"] + (ks[..|ks| - 1] + ([ks[|ks| - 1] + "Mismatched columns:"]
        + (ColumnLines(columns) + (["Mismatch records:"] + Split(recs, '\n'))))))
  {
    var t3 := Join("\n", columns) + "\n" + ("Mismatch records:\n" + recs);
    var t1 := Join("\n", ks) + ("Mismatched columns:\n" + t3);
    var t0 := "Missing keys:\n" + t1;
    SplitHeading(h, t0);
    assert "Missing keys:\n" == "Missing keys:" + "\n";
    SplitHeading("Missing keys:", t1);
    SplitJoinedKeys(ks, t3);
    SplitColumns(columns, "Mismatch records:\n" + recs);
    assert "Mismatch records:\n" == "Mismatch records:" + "\n";
    SplitHeading("Mismatch records:", recs);
  }

  /** With missing keys, the code as written glues the last missing key to the
      "Mismatched columns:" heading: that heading never starts a line of its own. */
  lemma SummaryAsWrittenLines(c: Comparison, label1: string, label2: string, columns: seq<string>)
    requires forall i :: 0 <= i < |c.mismatched| ==> c.mismatched[i] in c.details
    requires OneLine(c, label1, label2, columns)
    requires |c.missing| > 0
    ensures var ks := KeyLines(c.missing);
      Split(SummaryAsWritten(c, label1, label2, columns), '\n')
      == [Header(label1, label2), "Missing keys:"] + ks[..|ks| - 1]
         + [ks[|ks| - 1] + "Mismatched columns:"] + ColumnLines(columns) + ["Mismatch records:"]
         + Split(RecordsText(c.mismatched, c.details), '\n')
  {
    var ks := KeyLines(c.missing);
    var h := Header(label1, label2);
    var recs := RecordsText(c.mismatched, c.details);
    assert '\n' !in h by {
      assert h == "Comparing " + label1 + " to " + label2;
    }
    SplitReportAsWritten(h, ks, columns, recs);
    assert [h, "Missing keys:"] == [h] + ["Missing keys:"];
    Reassociate([h], ["Missing keys:"], ks[..|ks| - 1], [ks[|ks| - 1] + "Mismatched columns:"], ColumnLines(columns), ["Mismatch records:"], Split(recs, '\n'));
  }

  /** Regrouping a concatenation of seven sequences. */
  lemma Reassociate<T>(a: seq<T>, b: seq<T>, c: seq<T>, d: seq<T>, e: seq<T>, f: seq<T>, g: seq<T>)
    ensures a + b + c + d + e + f + g == a + (b + (c + (d + (e + (f + g)))))
  {
  }

  /** The comparison of a left dataset with one key, 2, absent on the right and nothing
      mismatched. */
  function MissingKeyComparison(): Comparison {
    Comparison([Scalar("2")], [], {}, map[])
  }

  /** The pieces of the report of MissingKeyComparison under the default labels. */
  lemma MissingKeyPieces()
    ensures KeyLines(MissingKeyComparison().missing) == ["2"]
    ensures RecordsText(MissingKeyComparison().mismatched, MissingKeyComparison().details) == ""
    ensures Header("LEFT", "RIGHT") == "Comparing LEFT to RIGHT"
    ensures OneLine(MissingKeyComparison(), "LEFT", "RIGHT", [])
    ensures Split("", '\n') == [""]
    ensures "2" + "Mismatched columns:" == "2Mismatched columns:"
  {
    assert PrintableKey(Scalar("2")) == "2";
  }

  /** The report of MissingKeyComparison read line by line, as the code writes it: the key
      and the next heading share the third line. */
  lemma MissingKeyExampleAsWritten()
    ensures Split(SummaryAsWritten(MissingKeyComparison(), "LEFT", "RIGHT", []), '\n')
      == ["Comparing LEFT to RIGHT", "Missing keys:", "2Mismatched columns:", "", "Mismatch records:", ""]
  {
    var c := MissingKeyComparison();
    MissingKeyPieces();
    SummaryAsWrittenLines(c, "LEFT", "RIGHT", []);
    MissingKeyLinesAsWritten(Split(SummaryAsWritten(c, "LEFT", "RIGHT", []), '\n'));
  }

  /** The line list SummaryAsWrittenLines gives for MissingKeyComparison, written out. */
  lemma MissingKeyLinesAsWritten(lines: seq<string>)
    requires var ks := KeyLines(MissingKeyComparison().missing);
      lines
      == [Header("LEFT", "RIGHT"), "Missing keys:"] + ks[..|ks| - 1]
         + [ks[|ks| - 1] + "Mismatched columns:"] + ColumnLines([]) + ["Mismatch records:"]
         + Split(RecordsText(MissingKeyComparison().mismatched, MissingKeyComparison().details), '\n')
    ensures lines == ["Comparing LEFT to RIGHT", "Missing keys:", "2Mismatched columns:", "", "Mismatch records:", ""]
  {
    MissingKeyPieces();
    var ks := KeyLines(MissingKeyComparison().missing);
    assert ks[..0] == [];
    assert ColumnLines([]) == [""];
  }

  /** The same report as corrected: the missing key has a line of its own. */
  lemma MissingKeyExample()
    ensures Split(Summary(MissingKeyComparison(), "LEFT", "RIGHT", []), '\n')
      == ["Comparing LEFT to RIGHT", "Missing keys:", "2", "Mismatched columns:", "", "Mismatch records:", ""]
  {
    var c := MissingKeyComparison();
    MissingKeyPieces();
    SummaryLines(c, "LEFT", "RIGHT", []);
    MissingKeyLines(Split(Summary(c, "LEFT", "RIGHT", []), '\n'));
  }

  /** The line list SummaryLines gives for MissingKeyComparison, written out. */
  lemma MissingKeyLines(lines: seq<string>)
    requires lines
      == [Header("LEFT", "RIGHT"), "Missing keys:"] + KeyLines(MissingKeyComparison().missing)
         + ["Mismatched columns:"] + ColumnLines([]) + ["Mismatch records:"]
         + Split(RecordsText(MissingKeyComparison().mismatched, MissingKeyComparison().details), '\n')
    ensures lines == ["Comparing LEFT to RIGHT", "Missing keys:", "2", "Mismatched columns:", "", "Mismatch records:", ""]
  {
    MissingKeyPieces();
    assert ColumnLines([]) == [""];
  }

  /** get_comparison's exit status: 0 when no key is mismatched, 1 otherwise. */
  function Status(c: Comparison): int {
    if |c.mismatched| == 0 then 0 else 1
  }

  /** The status is 0 exactly when every key present on both sides carries equal rows;
      keys missing on the right never change it. */
  lemma StatusMeaning(d1: RowSet, d2: RowSet)
    requires WellFormedRowSet(d1) && Comparable(d1, d2)
    ensures Status(Details(d1, d2)) == 0 || Status(Details(d1, d2)) == 1
    ensures Status(Details(d1, d2)) == 0 <==>
      forall k :: k in d1.entries && k in d2.entries ==> SameItems(d1.entries[k], d2.entries[k])
  {
    var r := Details(d1, d2);
    DetailsKeys(d1, d2);
    if |r.mismatched| > 0 {
      assert r.mismatched[0] in r.mismatched;
    }
  }

  /** The field names of the detail lists of `keys`, in key order and list order. */
  function FieldsInOrder(keys: seq<Key>, details: map<Key, seq<Mismatch>>): seq<string>
    requires forall i :: 0 <= i < |keys| ==> keys[i] in details
  {
    if |keys| == 0 then []
    else FieldsInOrder(keys[..|keys| - 1], details) + FieldsOf(details[keys[|keys| - 1]])
  }

  /** The names listed in key order are exactly the collected column union. */
  lemma {:induction false} FieldsInOrderColumns(keys: seq<Key>, details: map<Key, seq<Mismatch>>)
    requires forall i :: 0 <= i < |keys| ==> keys[i] in details
    ensures forall x :: x in FieldsInOrder(keys, details) <==> x in ColumnsOf(keys, details)
  {
    if |keys| > 0 {
      var p := keys[..|keys| - 1];
      var ms := details[keys[|keys| - 1]];
      FieldsInOrderColumns(p, details);
      forall x
        ensures x in FieldsOf(ms) <==> x in FieldSet(ms)
      {
        if x in FieldsOf(ms) {
          var i :| 0 <= i < |FieldsOf(ms)| && FieldsOf(ms)[i] == x;
          assert ms[i].field == x;
        }
        if x in FieldSet(ms) {
          var i :| 0 <= i < |ms| && ms[i].field == x;
          assert FieldsOf(ms)[i] == x;
        }
      }
    }
  }

  /** The order in which the report lists mismatch_columns: each column once, in the
      order of first appearance among the detail lists. */
  function ColumnOrder(c: Comparison): seq<string>
    requires forall i :: 0 <= i < |c.mismatched| ==> c.mismatched[i] in c.details
  {
    Dedup(FieldsInOrder(c.mismatched, c.details))
  }

  /** For a comparison whose column set is the union of its detail lists' fields, the
      listed columns enumerate that set, each exactly once. */
  lemma ColumnOrderOf(c: Comparison)
    requires forall i :: 0 <= i < |c.mismatched| ==> c.mismatched[i] in c.details
    requires c.columns == ColumnsOf(c.mismatched, c.details)
    ensures Distinct(ColumnOrder(c))
    ensures forall x :: x in ColumnOrder(c) <==> x in c.columns
  {
    FieldsInOrderColumns(c.mismatched, c.details);
    DedupMembers(FieldsInOrder(c.mismatched, c.details));
  }

  /** The listed columns enumerate the column set of the comparison, each exactly once. */
  lemma ColumnOrderEnumerates(d1: RowSet, d2: RowSet)
    requires WellFormedRowSet(d1) && Comparable(d1, d2)
    ensures var c := Details(d1, d2);
      && (forall i :: 0 <= i < |c.mismatched| ==> c.mismatched[i] in c.details)
      && Distinct(ColumnOrder(c))
      && (forall x :: x in ColumnOrder(c) <==> x in c.columns)
  {
    ColumnOrderOf(Details(d1, d2));
  }
}
