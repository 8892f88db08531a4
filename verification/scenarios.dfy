/** Two worked comparisons of dict lists keyed by `id`: one where a row is missing on the
    right, one where a field differs. Each is followed from the raw dicts through ingestion
    to the comparison and the status. */
module Scenarios {
  import opened Results
  import opened Seqs
  import opened Strings
  import opened Dicts
  import opened Ingest
  import opened Diff
  import opened Report
  import opened GenericCompare

  /** A row with fields ID and NAME, in that order. */
  function IdRow(id: string, name: string): Row {
    Dict(["ID", "NAME"], map["ID" := id, "NAME" := name])
  }

  /** Every row of the form IdRow is a well-formed row with upper-case field names. */
  lemma IdRowWellFormed(id: string, name: string)
    ensures Valid(IdRow(id, name)) && UpperFields(IdRow(id, name))
  {
    assert IsUpper("ID") && IsUpper("NAME");
  }

  /** The left dataset of the first scenario: rows 1 (A) and 2 (B). */
  function TwoRows(): RowSet {
    Dict([Scalar("1"), Scalar("2")], map[Scalar("1") := IdRow("1", "A"), Scalar("2") := IdRow("2", "B")])
  }

  /** A dataset holding the single row (1, name). */
  function OneRow(name: string): RowSet {
    Dict([Scalar("1")], map[Scalar("1") := IdRow("1", name)])
  }

  /** The first scenario's left dataset is well formed. */
  lemma TwoRowsWellFormed()
    ensures WellFormedRowSet(TwoRows())
  {
    IdRowWellFormed("1", "A");
    IdRowWellFormed("2", "B");
  }

  /** A one-row dataset is well formed. */
  lemma OneRowWellFormed(name: string)
    ensures WellFormedRowSet(OneRow(name))
  {
    IdRowWellFormed("1", name);
  }

  /** A dict as the caller passes it, with the lower-case field names id and name. */
  function RawRow(id: string, name: string): Row {
    Dict(["id", "name"], map["id" := id, "name" := name])
  }

  /** The left dict list of the first scenario: rows 1 (A) and 2 (B). */
  function TwoRawRows(): seq<Row> {
    [RawRow("1", "A"), RawRow("2", "B")]
  }

  /** A dict list holding the single row (1, name). */
  function OneRawRow(name: string): seq<Row> {
    [RawRow("1", name)]
  }

  /** The two field names, upper-cased. */
  lemma UpperNames()
    ensures Upper("id") == "ID" && Upper("name") == "NAME"
  {
    assert Upper("id")[0] == 'I' && Upper("id")[1] == 'D';
    assert Upper("name")[0] == 'N' && Upper("name")[1] == 'A';
    assert Upper("name")[2] == 'M' && Upper("name")[3] == 'E';
  }

  /** Assigning two distinct keys in turn gives the dict of those two keys, in order. */
  lemma FromTwoPairs<K, V>(x: K, y: K, vx: V, vy: V)
    requires x != y
    ensures FromPairs([(x, vx), (y, vy)]) == Dict([x, y], map[x := vx, y := vy])
  {
    assert [(x, vx), (y, vy)][..1] == [(x, vx)];
    assert FromPairs([(x, vx)]) == Dict([x], map[x := vx]) by {
      assert [(x, vx)][..0] == [];
    }
  }

  /** Upper-casing a two-field row whose names stay distinct renames both fields in place. */
  lemma NormalizeTwoFields(a: string, b: string, va: string, vb: string)
    requires a != b && Upper(a) != Upper(b)
    ensures Valid(Dict([a, b], map[a := va, b := vb]))
    ensures NormalizeRow(Dict([a, b], map[a := va, b := vb])) == Dict([Upper(a), Upper(b)], map[Upper(a) := va, Upper(b) := vb])
  {
    var d := Dict([a, b], map[a := va, b := vb]);
    var items := Items(d);
    assert items == [(a, va), (b, vb)];
    var ps := seq(|items|, i requires 0 <= i < |items| => (Upper(items[i].0), items[i].1));
    assert ps == [(Upper(a), va), (Upper(b), vb)];
    FromTwoPairs(Upper(a), Upper(b), va, vb);
  }

  /** Upper-casing a raw dict gives the row with fields ID and NAME. */
  lemma NormalizeRawRow(id: string, name: string)
    ensures Valid(RawRow(id, name))
    ensures NormalizeRow(RawRow(id, name)) == IdRow(id, name)
  {
    UpperNames();
    NormalizeTwoFields("id", "name", id, name);
  }

  /** The key field `id` names the upper-case field ID, which every IdRow holds. */
  lemma IdKey(id: string, name: string)
    ensures UpperKey(Single("id")) == Single("ID")
    ensures KeyFieldsIn(Single("id"), IdRow(id, name).order)
    ensures KeyOf(IdRow(id, name), Single("ID")) == Ok(Scalar(id))
  {
    UpperNames();
    assert KeyFields(Single("id")) == ["ID"];
  }

  /** Ingesting a non-empty dict list by `id` whose upper-cased rows all hold ID stores
      them under their ID values. */
  lemma DictListConverts(raw: seq<Row>, rows: seq<Row>, keys: seq<Key>, d: RowSet)
    requires forall i :: 0 <= i < |raw| ==> Valid(raw[i])
    requires Formatted(raw) == rows && |rows| > 0
    requires forall i :: 0 <= i < |rows| ==> KeyFieldsIn(Single("id"), rows[i].order)
    requires UpperKey(Single("id")) == Single("ID")
    requires RowKeys(rows, Single("ID")) == Ok(keys)
    requires FromPairs(Keyed(keys, rows)) == d
    ensures ConvertToDict(DictListInput(raw), Single("id"), "dict_list") == Ok(d)
  {
    assert ConvertToDict(DictListInput(raw), Single("id"), "dict_list") == ConvertDictList(raw, Single("id")) by {
      assert ParseFormat("dict_list") == Ok(DictList);
    }
    assert ConvertDictList(raw, Single("id")).Ok? by {
      assert forall i :: 0 <= i < |raw| ==> NormalizeRow(raw[i]) == rows[i];
    }
    ConvertDictListBuilds(raw, Single("id"));
    assert BuildRowSet(rows, Single("ID")) == Ok(d);
  }

  /** The upper-cased rows of the first scenario's left dict list. */
  lemma FormattedTwoRawRows()
    ensures forall i :: 0 <= i < |TwoRawRows()| ==> Valid(TwoRawRows()[i])
    ensures Formatted(TwoRawRows()) == [IdRow("1", "A"), IdRow("2", "B")]
  {
    NormalizeRawRow("1", "A");
    NormalizeRawRow("2", "B");
  }

  /** A single row whose key can be computed is keyed by it. */
  lemma OneKey(r1: Row, pk: PrimaryKey, k1: Key)
    requires KeyOf(r1, pk) == Ok(k1)
    ensures RowKeys([r1], pk) == Ok([k1])
  {
    assert [r1][..0] == [];
    assert RowKeys([], pk) == Ok([]);
    assert [] + [k1] == [k1];
  }

  /** Two rows whose keys can be computed are keyed in order. */
  lemma TwoKeys(r1: Row, r2: Row, pk: PrimaryKey, k1: Key, k2: Key)
    requires KeyOf(r1, pk) == Ok(k1) && KeyOf(r2, pk) == Ok(k2)
    ensures RowKeys([r1, r2], pk) == Ok([k1, k2])
  {
    OneKey(r1, pk, k1);
    assert [r1, r2][..1] == [r1];
    assert [k1] + [k2] == [k1, k2];
  }

  /** The keys of the rows (1, A) and (2, B). */
  lemma TwoRowKeys()
    ensures RowKeys([IdRow("1", "A"), IdRow("2", "B")], Single("ID")) == Ok([Scalar("1"), Scalar("2")])
  {
    IdKey("1", "A");
    IdKey("2", "B");
    TwoKeys(IdRow("1", "A"), IdRow("2", "B"), Single("ID"), Scalar("1"), Scalar("2"));
  }

  /** Storing the rows (1, A) and (2, B) under their keys gives the first scenario's left
      dataset. */
  lemma TwoRowsStored()
    ensures FromPairs(Keyed([Scalar("1"), Scalar("2")], [IdRow("1", "A"), IdRow("2", "B")])) == TwoRows()
  {
    var ps := Keyed([Scalar("1"), Scalar("2")], [IdRow("1", "A"), IdRow("2", "B")]);
    assert ps == [(Scalar("1"), IdRow("1", "A")), (Scalar("2"), IdRow("2", "B"))];
    assert ps[..1] == [(Scalar("1"), IdRow("1", "A"))];
    assert FromPairs(ps[..1]) == OneRow("A") by {
      assert ps[..1][..0] == [];
    }
  }

  /** Ingesting the dict list with rows 1 (A) and 2 (B) by `id`. */
  lemma ConvertTwoRawRows()
    ensures forall i :: 0 <= i < |TwoRawRows()| ==> Valid(TwoRawRows()[i])
    ensures ConvertToDict(DictListInput(TwoRawRows()), Single("id"), "dict_list") == Ok(TwoRows())
  {
    FormattedTwoRawRows();
    TwoRowKeys();
    TwoRowsStored();
    IdKey("1", "A");
    IdKey("2", "B");
    DictListConverts(TwoRawRows(), [IdRow("1", "A"), IdRow("2", "B")], [Scalar("1"), Scalar("2")], TwoRows());
  }

  /** Ingesting the dict list with the single row (1, name) by `id`. */
  lemma ConvertOneRawRow(name: string)
    ensures forall i :: 0 <= i < |OneRawRow(name)| ==> Valid(OneRawRow(name)[i])
    ensures ConvertToDict(DictListInput(OneRawRow(name)), Single("id"), "dict_list") == Ok(OneRow(name))
  {
    var rows := [IdRow("1", name)];
    NormalizeRawRow("1", name);
    IdKey("1", name);
    assert Formatted(OneRawRow(name)) == rows;
    OneKey(IdRow("1", name), Single("ID"), Scalar("1"));
    var ps := Keyed([Scalar("1")], rows);
    assert ps == [(Scalar("1"), IdRow("1", name))];
    assert FromPairs(ps) == OneRow(name) by {
      assert ps[..0] == [];
    }
    DictListConverts(OneRawRow(name), rows, [Scalar("1")], OneRow(name));
  }

  /** Without names, a comparison whose conversions succeed renders the two datasets
      under the default labels. */
  lemma DefaultRendered(input1: RawInput, input2: RawInput, pk: PrimaryKey, tag: string, d1: RowSet, d2: RowSet)
    requires WellFormedInput(input1) && WellFormedInput(input2)
    requires ConvertToDict(input1, pk, tag) == Ok(d1)
    requires ConvertToDict(input2, pk, tag) == Ok(d2)
    ensures GetComparison(input1, input2, pk, tag, None, None) == Render(d1, d2, DefaultLabels(tag, input1, input2))
  {
    assert GetComparison(input1, input2, pk, tag, None, None)
      == Pipeline(Ok(d1), Ok(d2), Ok(ResolveLabels(tag, input1, input2, None, None)), false);
  }

  /** Comparing two dict lists by `id` without names, once both are ingested into datasets
      the right one covers: the labels are LEFT and RIGHT and the status is that of the
      comparison of the two datasets. */
  lemma ComparedDictLists(raw1: seq<Row>, raw2: seq<Row>, d1: RowSet, d2: RowSet)
    requires forall i :: 0 <= i < |raw1| ==> Valid(raw1[i])
    requires forall i :: 0 <= i < |raw2| ==> Valid(raw2[i])
    requires ConvertToDict(DictListInput(raw1), Single("id"), "dict_list") == Ok(d1)
    requires ConvertToDict(DictListInput(raw2), Single("id"), "dict_list") == Ok(d2)
    requires Comparable(d1, d2)
    ensures GetComparison(DictListInput(raw1), DictListInput(raw2), Single("id"), "dict_list", None, None).Ok?
    ensures GetComparison(DictListInput(raw1), DictListInput(raw2), Single("id"), "dict_list", None, None).value
      == Outcome(Summary(Details(d1, d2), "LEFT", "RIGHT", ColumnOrder(Details(d1, d2))), Status(Details(d1, d2)))
  {
    DefaultRendered(DictListInput(raw1), DictListInput(raw2), Single("id"), "dict_list", d1, d2);
    assert DefaultLabels("dict_list", DictListInput(raw1), DictListInput(raw2)) == ("LEFT", "RIGHT");
  }

  /** The key lists when rows 1 and 2 are on the left and only row 1 is on the right. */
  lemma MissingRowKeys()
    ensures MissingKeys(TwoRows().order, OneRow("A").entries) == [Scalar("2")]
    ensures MismatchKeys(TwoRows().order, TwoRows().entries, OneRow("A").entries) == []
  {
    var left := TwoRows();
    var right := OneRow("A");
    assert left.order[..1] == [Scalar("1")];
    assert MissingKeys([Scalar("1")], right.entries) == [] by {
      assert [Scalar("1")][..0] == [];
    }
    assert MismatchKeys([Scalar("1")], left.entries, right.entries) == [] by {
      assert [Scalar("1")][..0] == [];
    }
  }

  /** The comparison of the datasets with rows 1 and 2 on the left and only row 1 on the
      right. */
  lemma MissingRowDetails()
    ensures WellFormedRowSet(TwoRows()) && Comparable(TwoRows(), OneRow("A"))
    ensures Details(TwoRows(), OneRow("A")).missing == [Scalar("2")]
    ensures Details(TwoRows(), OneRow("A")).mismatched == []
  {
    TwoRowsWellFormed();
    MissingRowKeys();
  }

  /** Rows 1 and 2 on the left, only row 1 on the right: key 2 is missing, nothing is
      mismatched, and get_comparison returns 0 although a row was lost. */
  lemma MissingRowScenario()
    ensures WellFormedInput(DictListInput(TwoRawRows())) && WellFormedInput(DictListInput(OneRawRow("A")))
    ensures WellFormedRowSet(TwoRows()) && Comparable(TwoRows(), OneRow("A"))
    ensures Details(TwoRows(), OneRow("A")).missing == [Scalar("2")]
    ensures Details(TwoRows(), OneRow("A")).mismatched == []
    ensures GetComparison(DictListInput(TwoRawRows()), DictListInput(OneRawRow("A")), Single("id"), "dict_list", None, None).Ok?
    ensures GetComparison(DictListInput(TwoRawRows()), DictListInput(OneRawRow("A")), Single("id"), "dict_list", None, None).value.status == 0
  {
    MissingRowDetails();
    assert WellFormedInput(DictListInput(TwoRawRows())) && WellFormedInput(DictListInput(OneRawRow("A")))
      && GetComparison(DictListInput(TwoRawRows()), DictListInput(OneRawRow("A")), Single("id"), "dict_list", None, None).Ok?
      && GetComparison(DictListInput(TwoRawRows()), DictListInput(OneRawRow("A")), Single("id"), "dict_list", None, None).value.status
        == Status(Details(TwoRows(), OneRow("A"))) by {
      ConvertTwoRawRows();
      ConvertOneRawRow("A");
      ComparedDictLists(TwoRawRows(), OneRawRow("A"), TwoRows(), OneRow("A"));
    }
  }

  /** Comparing two rows over the fields ID and NAME when only NAME differs. */
  lemma NameOnlyDiffers(e1: map<string, string>, e2: map<string, string>)
    requires "ID" in e1 && "ID" in e2 && "NAME" in e1 && "NAME" in e2
    requires e1["ID"] == e2["ID"] && e1["NAME"] != e2["NAME"]
    ensures CompareFields(["ID", "NAME"], e1, e2) == [Mismatch("NAME", e1["NAME"], e2["NAME"])]
  {
    assert CompareFields(["ID"], e1, e2) == [] by {
      assert ["ID"][..0] == [];
    }
    assert ["ID", "NAME"][..1] == ["ID"];
  }

  /** Comparing the row (1, A) with the row (1, X) reports NAME only. */
  lemma ChangedFieldRows()
    ensures Valid(IdRow("1", "A")) && Covers(IdRow("1", "A"), IdRow("1", "X"))
    ensures CompareRows(IdRow("1", "A"), IdRow("1", "X")) == [Mismatch("NAME", "A", "X")]
  {
    NameOnlyDiffers(IdRow("1", "A").entries, IdRow("1", "X").entries);
  }

  /** The key lists when row 1 has NAME A on the left and NAME X on the right. */
  lemma ChangedFieldKeys()
    ensures MissingKeys(OneRow("A").order, OneRow("X").entries) == []
    ensures MismatchKeys(OneRow("A").order, OneRow("A").entries, OneRow("X").entries) == [Scalar("1")]
  {
    assert [Scalar("1")][..0] == [];
    assert IdRow("1", "A").entries["NAME"] != IdRow("1", "X").entries["NAME"];
  }

  /** The datasets holding row 1 with NAME A and with NAME X can be compared. */
  lemma ChangedFieldComparable()
    ensures WellFormedRowSet(OneRow("A")) && Comparable(OneRow("A"), OneRow("X"))
  {
    OneRowWellFormed("A");
    ChangedFieldRows();
  }

  /** The detail lists when row 1 has NAME A on the left and NAME X on the right. */
  lemma ChangedFieldDetails()
    ensures WellFormedRowSet(OneRow("A")) && Comparable(OneRow("A"), OneRow("X"))
    ensures Details(OneRow("A"), OneRow("X")).mismatched == [Scalar("1")]
    ensures Details(OneRow("A"), OneRow("X")).details == map[Scalar("1") := [Mismatch("NAME", "A", "X")]]
  {
    ChangedFieldComparable();
    ChangedFieldRows();
    ChangedFieldKeys();
  }

  /** With a single detail list, the mismatched columns are the fields of that list. */
  lemma OneDetailColumns(c: Comparison, k: Key, ms: seq<Mismatch>)
    requires c.details == map[k := ms]
    requires forall col :: col in c.columns <==> exists k' :: k' in c.details && col in FieldSet(c.details[k'])
    ensures c.columns == FieldSet(ms)
  {
    assert forall col :: col in c.columns <==> col in FieldSet(ms) by {
      assert k in c.details;
    }
  }

  /** The mismatched columns when row 1 has NAME A on the left and NAME X on the right. */
  lemma ChangedFieldColumns()
    ensures WellFormedRowSet(OneRow("A")) && Comparable(OneRow("A"), OneRow("X"))
    ensures Details(OneRow("A"), OneRow("X")).columns == {"NAME"}
  {
    ChangedFieldDetails();
    var ms := [Mismatch("NAME", "A", "X")];
    DetailsColumns(OneRow("A"), OneRow("X"));
    OneDetailColumns(Details(OneRow("A"), OneRow("X")), Scalar("1"), ms);
    assert FieldSet(ms) == {"NAME"} by {
      assert ms[0].field == "NAME";
    }
  }

  /** Row 1 with NAME A on the left and NAME X on the right: key 1 is mismatched with the
      one detail (NAME, A, X), NAME is the only mismatched column, and get_comparison
      returns 1. */
  lemma ChangedFieldScenario()
    ensures WellFormedInput(DictListInput(OneRawRow("A"))) && WellFormedInput(DictListInput(OneRawRow("X")))
    ensures WellFormedRowSet(OneRow("A")) && Comparable(OneRow("A"), OneRow("X"))
    ensures Details(OneRow("A"), OneRow("X")).missing == []
    ensures Details(OneRow("A"), OneRow("X")).mismatched == [Scalar("1")]
    ensures Details(OneRow("A"), OneRow("X")).details == map[Scalar("1") := [Mismatch("NAME", "A", "X")]]
    ensures Details(OneRow("A"), OneRow("X")).columns == {"NAME"}
    ensures GetComparison(DictListInput(OneRawRow("A")), DictListInput(OneRawRow("X")), Single("id"), "dict_list", None, None).Ok?
    ensures GetComparison(DictListInput(OneRawRow("A")), DictListInput(OneRawRow("X")), Single("id"), "dict_list", None, None).value.status == 1
  {
    assert WellFormedInput(DictListInput(OneRawRow("A"))) && WellFormedInput(DictListInput(OneRawRow("X"))) by {
      ConvertOneRawRow("A");
      ConvertOneRawRow("X");
    }
    ChangedFieldDetails();
    ChangedFieldColumns();
    assert Details(OneRow("A"), OneRow("X")).missing == [] by {
      ChangedFieldKeys();
    }
    ChangedFieldCompared();
  }

  /** get_comparison on row 1 with NAME A and with NAME X returns 1. */
  lemma ChangedFieldCompared()
    ensures GetComparison(DictListInput(OneRawRow("A")), DictListInput(OneRawRow("X")), Single("id"), "dict_list", None, None).Ok?
    ensures GetComparison(DictListInput(OneRawRow("A")), DictListInput(OneRawRow("X")), Single("id"), "dict_list", None, None).value.status == 1
  {
    ChangedFieldComparable();
    ConvertOneRawRow("A");
    ConvertOneRawRow("X");
    ComparedDictLists(OneRawRow("A"), OneRawRow("X"), OneRow("A"), OneRow("X"));
    assert Details(OneRow("A"), OneRow("X")).mismatched == [Scalar("1")] by {
      ChangedFieldDetails();
    }
  }
}
