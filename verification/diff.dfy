/** The directional diff of two ingested datasets: compare_mismatch_rows and
    get_comparison_details of genericcompare.py (and their duplicates in comparecsv.py). */
module Diff {
  import opened Seqs
  import opened Dicts
  import opened Ingest

  /** One differing field: its name, the left value and the right value. */
  datatype Mismatch = Mismatch(field: string, left: string, right: string)

  /** The four results of get_comparison_details. */
  datatype Comparison = Comparison(
    missing: seq<Key>,                     // missing_keys
    mismatched: seq<Key>,                  // mismatch_keys
    columns: set<string>,                  // mismatch_columns
    details: map<Key, seq<Mismatch>>)      // mismatch_col_details

  /** The names of the differing fields, in report order. */
  function FieldsOf(ms: seq<Mismatch>): (r: seq<string>)
    ensures |r| == |ms|
    ensures forall i :: 0 <= i < |ms| ==> r[i] == ms[i].field
  {
    if |ms| == 0 then [] else FieldsOf(ms[..|ms| - 1]) + [ms[|ms| - 1].field]
  }

  /** `{colname for colname, *_ in details}` */
  function FieldSet(ms: seq<Mismatch>): set<string> {
    set i | 0 <= i < |ms| :: ms[i].field
  }

  /** `[(k, row1[k], row2[k]) for k in fields if row1[k] != row2[k]]`. */
  function CompareFields(fields: seq<string>, left: map<string, string>, right: map<string, string>): (r: seq<Mismatch>)
    requires forall i :: 0 <= i < |fields| ==> fields[i] in left && fields[i] in right
    ensures forall i :: 0 <= i < |r| ==>
      && r[i].field in fields
      && r[i].left == left[r[i].field]
      && r[i].right == right[r[i].field]
      && r[i].left != r[i].right
    ensures Subsequence(FieldsOf(r), fields)
  {
    if |fields| == 0 then []
    else
      var p := fields[..|fields| - 1];
      var f := fields[|fields| - 1];
      var q := CompareFields(p, left, right);
      assert fields == p + [f];
      assert forall i :: 0 <= i < |p| ==> fields[i] == p[i];
      if left[f] != right[f] then
        var x := Mismatch(f, left[f], right[f]);
        assert FieldsOf(q + [x]) == FieldsOf(q) + [f];
        SubsequenceSnoc(FieldsOf(q), p, f);
        q + [x]
      else
        SubsequenceExtend(FieldsOf(q), p, f);
        q
  }

  /** A differing field is reported. */
  lemma {:induction false} CompareFieldsReports(fields: seq<string>, left: map<string, string>, right: map<string, string>, i: int)
    requires forall i :: 0 <= i < |fields| ==> fields[i] in left && fields[i] in right
    requires 0 <= i < |fields| && left[fields[i]] != right[fields[i]]
    ensures fields[i] in FieldsOf(CompareFields(fields, left, right))
  {
    var p := fields[..|fields| - 1];
    var f := fields[|fields| - 1];
    var q := CompareFields(p, left, right);
    var r := CompareFields(fields, left, right);
    if left[f] != right[f] {
      assert r == q + [Mismatch(f, left[f], right[f])];
      assert FieldsOf(r) == FieldsOf(q) + [f];
    } else {
      assert r == q;
    }
    if i < |p| {
      assert p[i] == fields[i];
      CompareFieldsReports(p, left, right, i);
    }
  }

  /** Every differing field is reported. */
  lemma CompareFieldsComplete(fields: seq<string>, left: map<string, string>, right: map<string, string>)
    requires forall i :: 0 <= i < |fields| ==> fields[i] in left && fields[i] in right
    ensures forall i :: 0 <= i < |fields| && left[fields[i]] != right[fields[i]] ==> fields[i] in FieldsOf(CompareFields(fields, left, right))
  {
    forall i | 0 <= i < |fields| && left[fields[i]] != right[fields[i]]
      ensures fields[i] in FieldsOf(CompareFields(fields, left, right))
    {
      CompareFieldsReports(fields, left, right, i);
    }
  }

  /** The right row has every field of the left row, so `row2[k]` cannot raise. */
  predicate Covers(left: Row, right: Row) {
    forall f :: f in left.entries ==> f in right.entries
  }

  /** compare_mismatch_rows: `[(k, row1[k], row2[k]) for k in row1 if row1[k] != row2[k]]`. */
  function CompareRows(left: Row, right: Row): (r: seq<Mismatch>)
    requires Valid(left) && Covers(left, right)
  {
    CompareFields(left.order, left.entries, right.entries)
  }

  /** The row comparison reports exactly the differing fields of the left row, each once,
      in the left row's field order, each with its left value before its right value. */
  lemma CompareRowsSpec(left: Row, right: Row)
    requires Valid(left) && Covers(left, right)
    ensures var r := CompareRows(left, right);
      && (forall i :: 0 <= i < |r| ==>
            && r[i].field in left.entries
            && r[i].left == left.entries[r[i].field]
            && r[i].right == right.entries[r[i].field]
            && r[i].left != r[i].right)
      && (forall f :: f in left.entries && left.entries[f] != right.entries[f] ==> f in FieldsOf(r))
      && Subsequence(FieldsOf(r), left.order)
      && Distinct(FieldsOf(r))
  {
    var r := CompareRows(left, right);
    SubsequenceDistinct(FieldsOf(r), left.order);
    CompareFieldsComplete(left.order, left.entries, right.entries);
  }

  /** A subsequence of a sequence without repetitions has none either. */
  lemma {:induction false} SubsequenceDistinct<T>(a: seq<T>, b: seq<T>)
    requires Subsequence(a, b) && Distinct(b)
    ensures Distinct(a)
    decreases |b|
  {
    if |a| > 0 {
      var a' := a[..|a| - 1];
      var b' := b[..|b| - 1];
      if a[|a| - 1] == b[|b| - 1] {
        SubsequenceDistinct(a', b');
        SubsequenceMembers(a', b');
        assert b == b' + [b[|b| - 1]];
        assert a == a' + [a[|a| - 1]];
      } else {
        SubsequenceDistinct(a, b');
      }
    }
  }

  /** On rows with the same fields, the row comparison is empty exactly when the rows are
      equal: a key is reported as mismatched only with at least one differing field. */
  lemma CompareRowsEmpty(left: Row, right: Row)
    requires Valid(left) && left.entries.Keys == right.entries.Keys
    ensures CompareRows(left, right) == [] <==> SameItems(left, right)
  {
    var r := CompareRows(left, right);
    CompareRowsSpec(left, right);
    if r == [] {
      assert FieldsOf(r) == [];
      assert left.entries == right.entries;
    } else {
      assert r[0].left != r[0].right;
    }
  }

  /** `[key for key in d1 if key not in d2]`. */
  function MissingKeys(order: seq<Key>, right: map<Key, Row>): (r: seq<Key>)
    ensures forall i :: 0 <= i < |order| && order[i] !in right ==> order[i] in r
    ensures forall i :: 0 <= i < |r| ==> r[i] in order && r[i] !in right
    ensures Subsequence(r, order)
  {
    Filter(order, k => k !in right)
  }

  /** `[key for key in d1 if key in d2 and d1[key] != d2[key]]`. */
  function MismatchKeys(order: seq<Key>, left: map<Key, Row>, right: map<Key, Row>): (r: seq<Key>)
    requires forall i :: 0 <= i < |order| ==> order[i] in left
    ensures forall i :: 0 <= i < |order| && order[i] in right && left[order[i]].entries != right[order[i]].entries ==> order[i] in r
    ensures forall i :: 0 <= i < |r| ==> r[i] in order && r[i] in left && r[i] in right && left[r[i]].entries != right[r[i]].entries
    ensures Subsequence(r, order)
  {
    Filter(order, k => k in left && k in right && left[k].entries != right[k].entries)
  }

  /** Every left row shared with the right dataset is covered by its right row, so the
      comparison cannot raise KeyError. */
  predicate Comparable(d1: RowSet, d2: RowSet) {
    forall k | k in d1.entries && k in d2.entries :: Covers(d1.entries[k], d2.entries[k])
  }

  /** The union of the field names of the detail lists of `keys`. */
  function ColumnsOf(keys: seq<Key>, details: map<Key, seq<Mismatch>>): set<string>
    requires forall i :: 0 <= i < |keys| ==> keys[i] in details
  {
    if |keys| == 0 then {}
    else ColumnsOf(keys[..|keys| - 1], details) + FieldSet(details[keys[|keys| - 1]])
  }

  /** The column union depends only on the detail lists of the listed keys. */
  lemma {:induction false} ColumnsOfFrame(keys: seq<Key>, a: map<Key, seq<Mismatch>>, b: map<Key, seq<Mismatch>>)
    requires forall i :: 0 <= i < |keys| ==> keys[i] in a && keys[i] in b && a[keys[i]] == b[keys[i]]
    ensures ColumnsOf(keys, a) == ColumnsOf(keys, b)
  {
    if |keys| > 0 {
      ColumnsOfFrame(keys[..|keys| - 1], a, b);
    }
  }

  /** The detail list of every key in `keys`. */
  function DetailsOf(keys: seq<Key>, d1: RowSet, d2: RowSet): (r: map<Key, seq<Mismatch>>)
    requires WellFormedRowSet(d1) && Comparable(d1, d2)
    requires forall i :: 0 <= i < |keys| ==> keys[i] in d1.entries && keys[i] in d2.entries
  {
    map k | k in keys && k in d1.entries && k in d2.entries :: CompareRows(d1.entries[k], d2.entries[k])
  }

  /** get_comparison_details: the missing keys and the mismatched keys, in left order,
      and for each mismatched key the list of its differing fields, plus their union. */
  function Details(d1: RowSet, d2: RowSet): (r: Comparison)
    requires WellFormedRowSet(d1) && Comparable(d1, d2)
    ensures forall k :: k in r.missing ==> k !in r.mismatched
    ensures forall k :: k in r.details <==> k in r.mismatched
    ensures forall i :: 0 <= i < |r.mismatched| ==> r.mismatched[i] in r.details
  {
    var missing := MissingKeys(d1.order, d2.entries);
    var mismatched := MismatchKeys(d1.order, d1.entries, d2.entries);
    var details := DetailsOf(mismatched, d1, d2);
    Comparison(missing, mismatched, ColumnsOf(mismatched, details), details)
  }

  /** missing_keys holds the left keys absent on the right and mismatch_keys the shared
      keys whose rows are not equal; both keep the left dataset's order, list each key
      once, and no key is in both. */
  lemma DetailsKeys(d1: RowSet, d2: RowSet)
    requires WellFormedRowSet(d1) && Comparable(d1, d2)
    ensures var r := Details(d1, d2);
      && (forall k :: k in r.missing <==> k in d1.entries && k !in d2.entries)
      && Subsequence(r.missing, d1.order) && Distinct(r.missing)
      && (forall k :: k in r.mismatched <==> k in d1.entries && k in d2.entries && !SameItems(d1.entries[k], d2.entries[k]))
      && Subsequence(r.mismatched, d1.order) && Distinct(r.mismatched)
      && (forall k :: k in r.missing ==> k !in r.mismatched)
  {
    var r := Details(d1, d2);
    SubsequenceDistinct(r.missing, d1.order);
    SubsequenceDistinct(r.mismatched, d1.order);
  }

  /** Every mismatched key, and nothing else, has a detail list, and it names exactly the
      differing fields of the left row, each once, in the left row's field order, with the
      left value before the right value. */
  lemma DetailsLists(d1: RowSet, d2: RowSet, k: Key)
    requires WellFormedRowSet(d1) && Comparable(d1, d2)
    ensures var r := Details(d1, d2);
      k in r.details <==> k in d1.entries && k in d2.entries && !SameItems(d1.entries[k], d2.entries[k])
    ensures var r := Details(d1, d2);
      k in r.details ==>
        && (forall i :: 0 <= i < |r.details[k]| ==>
              && r.details[k][i].field in d1.entries[k].entries
              && r.details[k][i].left == d1.entries[k].entries[r.details[k][i].field]
              && r.details[k][i].right == d2.entries[k].entries[r.details[k][i].field]
              && r.details[k][i].left != r.details[k][i].right)
        && (forall f :: f in d1.entries[k].entries && d1.entries[k].entries[f] != d2.entries[k].entries[f] ==> f in FieldsOf(r.details[k]))
        && Subsequence(FieldsOf(r.details[k]), d1.entries[k].order)
        && Distinct(FieldsOf(r.details[k]))
  {
    DetailsKeys(d1, d2);
    if k in d1.entries && k in d2.entries {
      CompareRowsSpec(d1.entries[k], d2.entries[k]);
    }
  }

  /** mismatch_columns is exactly the union of the field names of all detail lists. */
  lemma DetailsColumns(d1: RowSet, d2: RowSet)
    requires WellFormedRowSet(d1) && Comparable(d1, d2)
    ensures var r := Details(d1, d2);
      forall c :: c in r.columns <==> exists k :: k in r.details && c in FieldSet(r.details[k])
  {
    var r := Details(d1, d2);
    ColumnsOfUnion(r.mismatched, r.details);
  }

  /** A column is collected exactly when some listed key's details name it. */
  lemma {:induction false} ColumnsOfUnion(keys: seq<Key>, details: map<Key, seq<Mismatch>>)
    requires forall i :: 0 <= i < |keys| ==> keys[i] in details
    ensures forall c :: c in ColumnsOf(keys, details) <==> exists k :: k in keys && c in FieldSet(details[k])
  {
    if |keys| > 0 {
      var p := keys[..|keys| - 1];
      ColumnsOfUnion(p, details);
      assert keys == p + [keys[|keys| - 1]];
    }
  }

  /** A key present on both sides with equal rows is reported in neither list. */
  lemma EqualRowsUnreported(d1: RowSet, d2: RowSet, k: Key)
    requires WellFormedRowSet(d1) && Comparable(d1, d2)
    requires k in d1.entries && k in d2.entries && SameItems(d1.entries[k], d2.entries[k])
    ensures k !in Details(d1, d2).missing && k !in Details(d1, d2).mismatched
  {
    DetailsKeys(d1, d2);
  }

  /** Keys present only on the right are never reported: the diff is directional. */
  lemma RightOnlyUnreported(d1: RowSet, d2: RowSet, k: Key)
    requires WellFormedRowSet(d1) && Comparable(d1, d2)
    requires k !in d1.entries
    ensures k !in Details(d1, d2).missing && k !in Details(d1, d2).mismatched && k !in Details(d1, d2).details
  {
    DetailsKeys(d1, d2);
  }

  /** When both rows of a mismatched key have the same fields, its detail list is not
      empty. */
  lemma MismatchHasDetail(d1: RowSet, d2: RowSet, k: Key)
    requires WellFormedRowSet(d1) && Comparable(d1, d2)
    requires k in Details(d1, d2).mismatched
    requires d1.entries[k].entries.Keys == d2.entries[k].entries.Keys
    ensures Details(d1, d2).details[k] != []
  {
    DetailsKeys(d1, d2);
    CompareRowsEmpty(d1.entries[k], d2.entries[k]);
  }

  /** The loop of get_comparison_details: for each key of `keys`, store its detail list
      and add that list's field names to the columns with `|`. The row comparison is a
      parameter, so the loop is stated apart from the rows it compares. */
  method CollectDetails(keys: seq<Key>, compare: Key -> seq<Mismatch>) returns (columns: set<string>, details: map<Key, seq<Mismatch>>)
    ensures forall i :: 0 <= i < |keys| ==> keys[i] in details
    ensures forall k :: k in details ==> k in keys && details[k] == compare(k)
    ensures columns == ColumnsOf(keys, details)
  {
    columns := {};
    details := map[];
    for i := 0 to |keys|
      invariant forall j :: 0 <= j < i ==> keys[j] in details
      invariant forall k :: k in details ==> k in keys && details[k] == compare(k)
      invariant columns == ColumnsOf(keys[..i], details)
    {
      var k := keys[i];
      var ds := compare(k);
      var before := details;
      details := details[k := ds];
      ColumnsOfFrame(keys[..i], before, details);
      columns := columns + FieldSet(ds);
      assert keys[..i + 1][..i] == keys[..i];
    }
    assert keys[..|keys|] == keys;
  }

  /** A map that holds the row comparison of every listed key and of no other key is the
      detail map of those keys. */
  lemma DetailsOfExactly(keys: seq<Key>, d1: RowSet, d2: RowSet, details: map<Key, seq<Mismatch>>)
    requires WellFormedRowSet(d1) && Comparable(d1, d2)
    requires forall i :: 0 <= i < |keys| ==> keys[i] in d1.entries && keys[i] in d2.entries
    requires forall j :: 0 <= j < |keys| ==> keys[j] in details
    requires forall k :: k in details ==> k in keys && k in d1.entries && k in d2.entries && details[k] == CompareRows(d1.entries[k], d2.entries[k])
    ensures details == DetailsOf(keys, d1, d2)
  {
  }

  /** get_comparison_details as a program: the two list comprehensions, then the loop. */
  method ComputeDetails(d1: RowSet, d2: RowSet) returns (r: Comparison)
    requires WellFormedRowSet(d1) && Comparable(d1, d2)
    ensures r == Details(d1, d2)
  {
    var missing := MissingKeys(d1.order, d2.entries);
    var mismatched := MismatchKeys(d1.order, d1.entries, d2.entries);
    var columns, details := CollectDetails(mismatched, k => if k in d1.entries && k in d2.entries then CompareRows(d1.entries[k], d2.entries[k]) else []);
    DetailsOfExactly(mismatched, d1, d2, details);
    r := Comparison(missing, mismatched, columns, details);
  }
}
