/** The row-set ingestor of genericcompare.py: turns a CSV table, a list of dicts or a list
    of tuples (header first) into one dict from primary-key value to row. */
module Ingest {
  import opened Results
  import opened Errors
  import opened Seqs
  import opened Strings
  import opened Dicts

  /** One row: field name to value, in column order. */
  type Row = Dict<string, string>

  /** A primary-key value: the value of one field, or the tuple of several fields' values. */
  datatype Key = Scalar(value: string) | Composite(parts: seq<string>)

  /** The `pk` argument: a single field name (a Python `str`) or a list of field names. */
  datatype PrimaryKey = Single(name: string) | Multi(names: seq<string>)

  /** The ingested dataset: primary-key value to row, in insertion order. */
  type RowSet = Dict<Key, Row>

  /** The accepted values of input_type. */
  datatype Format = Csv | DictList | TupleList

  /** A CSV file as the delimited-text reader delivers it: the path, the header record and
      the data records. */
  datatype CsvTable = CsvTable(path: string, header: seq<string>, records: seq<seq<string>>)

  /** The first argument of the comparison, in each of the three accepted shapes. */
  datatype RawInput =
    | CsvInput(table: CsvTable)
    | DictListInput(rows: seq<Row>)
    | TupleListInput(tuples: seq<seq<string>>)

  /** The primary-key field names, upper-cased, in the order given. */
  function KeyFields(pk: PrimaryKey): (r: seq<string>)
    ensures forall i :: 0 <= i < |r| ==> IsUpper(r[i])
  {
    match pk
    case Single(n) => [Upper(n)]
    case Multi(ns) => seq(|ns|, i requires 0 <= i < |ns| => Upper(ns[i]))
  }

  /** The primary key with every field name upper-cased. */
  function UpperKey(pk: PrimaryKey): PrimaryKey {
    match pk
    case Single(n) => Single(Upper(n))
    case Multi(ns) => Multi(KeyFields(pk))
  }

  /** Every primary-key field is one of `fields`. */
  predicate KeyFieldsIn(pk: PrimaryKey, fields: seq<string>) {
    forall i :: 0 <= i < |KeyFields(pk)| ==> KeyFields(pk)[i] in fields
  }

  /** `tuple(row[k] for k in names)`: raises on the first name the row lacks. */
  function TupleOf(row: Row, names: seq<string>): (r: Result<seq<string>, Error>)
    ensures r.Ok? <==> forall i :: 0 <= i < |names| ==> names[i] in row.entries
    ensures r.Ok? ==> |r.value| == |names|
    ensures r.Ok? ==> forall i :: 0 <= i < |names| ==> r.value[i] == row.entries[names[i]]
    ensures r.Err? ==> exists i :: 0 <= i < |names| && names[i] !in row.entries && r.error == MissingKeyField(names[i])
  {
    if |names| == 0 then Ok([])
    else
      var n := names[|names| - 1];
      match TupleOf(row, names[..|names| - 1])
      case Err(e) => Err(e)
      case Ok(vs) =>
        if n in row.entries then Ok(vs + [row.entries[n]]) else Err(MissingKeyField(n))
  }

  /** The key under which a row is stored: `row[pkey]` or `tuple(row[k] for k in pkey)`. */
  function KeyOf(row: Row, pk: PrimaryKey): (r: Result<Key, Error>)
    ensures pk.Single? ==> (r.Ok? <==> pk.name in row.entries)
    ensures pk.Single? && r.Ok? ==> r.value == Scalar(row.entries[pk.name])
    ensures pk.Multi? ==> (r.Ok? <==> TupleOf(row, pk.names).Ok?)
    ensures pk.Multi? && r.Ok? ==> r.value == Composite(TupleOf(row, pk.names).value)
    ensures r.Err? ==> r.error.MissingKeyField? && r.error.field !in row.entries
  {
    match pk
    case Single(n) => if n in row.entries then Ok(Scalar(row.entries[n])) else Err(MissingKeyField(n))
    case Multi(ns) =>
      match TupleOf(row, ns)
      case Ok(vs) => Ok(Composite(vs))
      case Err(e) => Err(e)
  }

  /** The keys of all rows, in order; raises on the first row whose key cannot be computed. */
  function RowKeys(rows: seq<Row>, pk: PrimaryKey): (r: Result<seq<Key>, Error>)
    ensures r.Ok? <==> forall i :: 0 <= i < |rows| ==> KeyOf(rows[i], pk).Ok?
    ensures r.Ok? ==> |r.value| == |rows|
    ensures r.Ok? ==> forall i :: 0 <= i < |rows| ==> KeyOf(rows[i], pk) == Ok(r.value[i])
    ensures r.Err? ==> r.error.MissingKeyField?
  {
    if |rows| == 0 then Ok([])
    else
      var last := rows[|rows| - 1];
      match RowKeys(rows[..|rows| - 1], pk)
      case Err(e) => Err(e)
      case Ok(ks) =>
        match KeyOf(last, pk)
        case Err(e) => Err(e)
        case Ok(k) => Ok(ks + [k])
  }

  /** Pairs each row with its key. */
  function Keyed(keys: seq<Key>, rows: seq<Row>): (r: seq<(Key, Row)>)
    requires |keys| == |rows|
    ensures |r| == |rows|
    ensures forall i :: 0 <= i < |rows| ==> r[i] == (keys[i], rows[i])
  {
    seq(|rows|, i requires 0 <= i < |rows| => (keys[i], rows[i]))
  }

  /** `{key(row): row for row in rows}`: one pass, a later row with the same key replaces
      an earlier one. */
  function BuildRowSet(rows: seq<Row>, pk: PrimaryKey): (r: Result<RowSet, Error>)
    ensures r.Ok? <==> forall i :: 0 <= i < |rows| ==> KeyOf(rows[i], pk).Ok?
    ensures r.Ok? ==> Valid(r.value)
    ensures r.Err? ==> r.error.MissingKeyField?
  {
    match RowKeys(rows, pk)
    case Err(e) => Err(e)
    case Ok(keys) => Ok(FromPairs(Keyed(keys, rows)))
  }

  /** No row after row `i` has the same key. */
  ghost predicate LastWithKey(rows: seq<Row>, pk: PrimaryKey, i: int)
    requires 0 <= i < |rows|
  {
    forall j :: i < j < |rows| ==> KeyOf(rows[j], pk) != KeyOf(rows[i], pk)
  }

  /** Every stored row is stored under its own key. */
  ghost predicate KeyedBy(d: RowSet, pk: PrimaryKey) {
    forall k :: k in d.entries ==> KeyOf(d.entries[k], pk) == Ok(k)
  }

  /** Every field name of the row is upper case. */
  ghost predicate UpperFields(row: Row) {
    forall f :: f in row.entries ==> IsUpper(f)
  }

  /** The invariant of an ingested dataset: a well-formed dict of well-formed rows whose
      field names are all upper case. */
  ghost predicate WellFormedRowSet(d: RowSet) {
    && Valid(d)
    && forall k :: k in d.entries ==> Valid(d.entries[k]) && UpperFields(d.entries[k])
  }

  /** The dict built from rows paired with their keys: a row whose key no later row
      repeats is stored under it, every stored row is one of the rows stored under its own
      key, and keys iterate in order of first occurrence. */
  lemma KeyedContents(keys: seq<Key>, rows: seq<Row>)
    requires |keys| == |rows|
    ensures var d := FromPairs(Keyed(keys, rows));
      && (forall i :: 0 <= i < |rows| && (forall j :: i < j < |rows| ==> keys[j] != keys[i]) ==> d.entries[keys[i]] == rows[i])
      && (forall k :: k in d.entries ==> exists i :: 0 <= i < |rows| && keys[i] == k && d.entries[k] == rows[i])
      && d.order == Dedup(keys)
  {
    var ps := Keyed(keys, rows);
    var d := FromPairs(ps);
    forall i | 0 <= i < |rows| && (forall j :: i < j < |rows| ==> keys[j] != keys[i])
      ensures d.entries[keys[i]] == rows[i]
    {
      KeyedLastWins(keys, rows, i);
    }
    forall k | k in d.entries
      ensures exists i :: 0 <= i < |rows| && keys[i] == k && d.entries[k] == rows[i]
    {
      FromPairsSource(ps, k);
    }
    assert d.order == Dedup(keys) by {
      FromPairsOrder(ps);
      assert Firsts(ps) == keys;
    }
  }

  /** A row whose key no later row repeats is the one stored under that key. */
  lemma KeyedLastWins(keys: seq<Key>, rows: seq<Row>, i: int)
    requires |keys| == |rows| && 0 <= i < |rows|
    requires forall j :: i < j < |rows| ==> keys[j] != keys[i]
    ensures FromPairs(Keyed(keys, rows)).entries[keys[i]] == rows[i]
  {
    var ps := Keyed(keys, rows);
    assert LastWrite(ps, i) by {
      forall j | i < j < |ps|
        ensures ps[j].0 != ps[i].0
      {
        assert ps[j].0 == keys[j];
      }
    }
    FromPairsLastWins(ps, i);
  }

  /** The ingested row-set: each row's key is present; the value stored under a key is
      the last row with that key; every stored row is one of the input rows, stored under
      its own key; keys iterate in order of first occurrence. */
  lemma BuildRowSetContents(rows: seq<Row>, pk: PrimaryKey)
    requires BuildRowSet(rows, pk).Ok?
    ensures var d := BuildRowSet(rows, pk).value;
      && (forall i :: 0 <= i < |rows| ==> KeyOf(rows[i], pk).value in d.entries)
      && (forall i :: 0 <= i < |rows| && LastWithKey(rows, pk, i) ==> d.entries[KeyOf(rows[i], pk).value] == rows[i])
      && (forall k :: k in d.entries ==> exists i :: 0 <= i < |rows| && d.entries[k] == rows[i])
      && KeyedBy(d, pk)
      && d.order == Dedup(RowKeys(rows, pk).value)
  {
    var keys := RowKeys(rows, pk).value;
    var d := FromPairs(Keyed(keys, rows));
    assert BuildRowSet(rows, pk).value == d;
    KeyedContents(keys, rows);
    forall i | 0 <= i < |rows| && LastWithKey(rows, pk, i)
      ensures forall j :: i < j < |rows| ==> keys[j] != keys[i]
    {
      forall j | i < j < |rows|
        ensures keys[j] != keys[i]
      {
        assert KeyOf(rows[j], pk) != KeyOf(rows[i], pk);
      }
    }
    forall k | k in d.entries
      ensures KeyOf(d.entries[k], pk) == Ok(k)
    {
      var i :| 0 <= i < |rows| && keys[i] == k && d.entries[k] == rows[i];
    }
  }

  /** `{k.upper(): v for k, v in d.items()}`. */
  function NormalizeRow(d: Row): (r: Row)
    requires Valid(d)
    ensures Valid(r)
  {
    var items := Items(d);
    FromPairs(seq(|items|, i requires 0 <= i < |items| => (Upper(items[i].0), items[i].1)))
  }

  /** Upper-casing a row: every field name of the result is upper case, every field of the
      input survives under its upper-cased name, and every value is the unchanged value of
      a field with that upper-cased name (the last such field when two names collide). */
  lemma NormalizeRowFields(d: Row)
    requires Valid(d)
    ensures forall f :: f in NormalizeRow(d).entries ==> IsUpper(f)
    ensures forall i :: 0 <= i < |d.order| ==> Upper(d.order[i]) in NormalizeRow(d).entries
    ensures forall f :: f in NormalizeRow(d).entries ==>
      exists g :: g in d.entries && Upper(g) == f && NormalizeRow(d).entries[f] == d.entries[g]
  {
    var items := Items(d);
    var ps := seq(|items|, i requires 0 <= i < |items| => (Upper(items[i].0), items[i].1));
    assert NormalizeRow(d) == FromPairs(ps);
    forall f | f in FromPairs(ps).entries
      ensures IsUpper(f)
      ensures exists g :: g in d.entries && Upper(g) == f && FromPairs(ps).entries[f] == d.entries[g]
    {
      FromPairsSource(ps, f);
      var i :| 0 <= i < |ps| && ps[i].0 == f && FromPairs(ps).entries[f] == ps[i].1;
      assert d.order[i] in d.entries;
    }
    forall i | 0 <= i < |d.order|
      ensures Upper(d.order[i]) in FromPairs(ps).entries
    {
      assert ps[i].0 == Upper(d.order[i]);
    }
  }

  /** When no two field names of a row differ only in case, upper-casing keeps every value
      under the upper-cased name of its own field. */
  lemma NormalizeRowValues(d: Row, g: string)
    requires Valid(d) && g in d.entries
    requires forall h :: h in d.entries && Upper(h) == Upper(g) ==> h == g
    ensures Upper(g) in NormalizeRow(d).entries && NormalizeRow(d).entries[Upper(g)] == d.entries[g]
  {
    NormalizeRowFields(d);
    var h :| h in d.entries && Upper(h) == Upper(g) && NormalizeRow(d).entries[Upper(g)] == d.entries[h];
  }

  /** Every row of the list, upper-cased. */
  function Formatted(rows: seq<Row>): (r: seq<Row>)
    requires forall i :: 0 <= i < |rows| ==> Valid(rows[i])
    ensures |r| == |rows|
    ensures forall i :: 0 <= i < |rows| ==> r[i] == NormalizeRow(rows[i])
  {
    seq(|rows|, i requires 0 <= i < |rows| && Valid(rows[i]) => NormalizeRow(rows[i]))
  }

  /** convert_dict_list: upper-case every field name, refuse an empty list, check the key
      fields against the first row only, then key every row. */
  function ConvertDictList(rows: seq<Row>, pk: PrimaryKey): (r: Result<RowSet, Error>)
    requires forall i :: 0 <= i < |rows| ==> Valid(rows[i])
    ensures r == Err(EmptyInput) <==> |rows| == 0
    ensures |rows| > 0 && !KeyFieldsIn(pk, NormalizeRow(rows[0]).order) ==> r == Err(KeyNotFound)
    ensures r.Ok? <==> |rows| > 0 && forall i :: 0 <= i < |rows| ==> KeyFieldsIn(pk, NormalizeRow(rows[i]).order)
    ensures |rows| > 0 && KeyFieldsIn(pk, NormalizeRow(rows[0]).order) && r.Err? ==> r.error.MissingKeyField?
    ensures r.Ok? ==> WellFormedRowSet(r.value) && KeyedBy(r.value, UpperKey(pk))
  {
    var formatted := Formatted(rows);
    if |formatted| == 0 then Err(EmptyInput)
    else if !KeyFieldsIn(pk, formatted[0].order) then Err(KeyNotFound)
    else
      KeyFieldsExactly(formatted, pk);
      FormattedUpper(rows);
      UpperRowsRowSet(formatted, UpperKey(pk));
      BuildRowSet(formatted, UpperKey(pk))
  }

  /** Once both checks pass, convert_dict_list is the keyed build over the upper-cased
      rows. */
  lemma ConvertDictListBuilds(rows: seq<Row>, pk: PrimaryKey)
    requires forall i :: 0 <= i < |rows| ==> Valid(rows[i])
    requires ConvertDictList(rows, pk).Ok?
    ensures ConvertDictList(rows, pk) == BuildRowSet(Formatted(rows), UpperKey(pk))
  {
  }

  /** What convert_dict_list stores: a non-empty dict in which every upper-cased row's key
      is present, the last upper-cased row with a key is the one stored under it, every
      stored row is one of the upper-cased rows, and keys iterate in order of first
      occurrence. */
  lemma ConvertDictListContents(rows: seq<Row>, pk: PrimaryKey)
    requires forall i :: 0 <= i < |rows| ==> Valid(rows[i])
    requires ConvertDictList(rows, pk).Ok?
    ensures var d := ConvertDictList(rows, pk).value;
      && |d.order| > 0
      && (forall i :: 0 <= i < |rows| ==> KeyOf(NormalizeRow(rows[i]), UpperKey(pk)).Ok?)
      && (forall i :: 0 <= i < |rows| ==> KeyOf(NormalizeRow(rows[i]), UpperKey(pk)).value in d.entries)
      && (forall i :: 0 <= i < |rows| && LastWithKey(Formatted(rows), UpperKey(pk), i) ==>
            d.entries[KeyOf(NormalizeRow(rows[i]), UpperKey(pk)).value] == NormalizeRow(rows[i]))
      && (forall k :: k in d.entries ==> exists i :: 0 <= i < |rows| && d.entries[k] == NormalizeRow(rows[i]))
      && d.order == Dedup(RowKeys(Formatted(rows), UpperKey(pk)).value)
  {
    var formatted := Formatted(rows);
    var key := UpperKey(pk);
    assert ConvertDictList(rows, pk) == BuildRowSet(formatted, key) by {
      ConvertDictListBuilds(rows, pk);
    }
    var d := BuildRowSet(formatted, key).value;
    BuildRowSetContents(formatted, key);
    assert |d.order| > 0 by {
      assert KeyOf(formatted[0], key).value in d.entries;
    }
    forall k | k in d.entries
      ensures exists i :: 0 <= i < |rows| && d.entries[k] == NormalizeRow(rows[i])
    {
      var i :| 0 <= i < |formatted| && d.entries[k] == formatted[i];
      assert d.entries[k] == NormalizeRow(rows[i]);
    }
  }

  /** Every upper-cased row is a well-formed row with upper-case field names. */
  lemma FormattedUpper(rows: seq<Row>)
    requires forall i :: 0 <= i < |rows| ==> Valid(rows[i])
    ensures forall i :: 0 <= i < |rows| ==> Valid(Formatted(rows)[i]) && UpperFields(Formatted(rows)[i])
  {
    forall i | 0 <= i < |rows|
      ensures UpperFields(NormalizeRow(rows[i]))
    {
      NormalizeRowFields(rows[i]);
    }
  }

  /** A row-set built from well-formed upper-case rows is well formed. */
  lemma UpperRowsRowSet(rows: seq<Row>, pk: PrimaryKey)
    requires forall i :: 0 <= i < |rows| ==> Valid(rows[i]) && UpperFields(rows[i])
    ensures BuildRowSet(rows, pk).Ok? ==> WellFormedRowSet(BuildRowSet(rows, pk).value)
  {
    if BuildRowSet(rows, pk).Ok? {
      BuildRowSetContents(rows, pk);
    }
  }

  /** A row's key can be computed exactly when the row carries every key field, and the
      row-set built from such rows stores each under its own key. */
  lemma KeyFieldsExactly(rows: seq<Row>, pk: PrimaryKey)
    requires forall i :: 0 <= i < |rows| ==> Valid(rows[i])
    ensures forall i :: 0 <= i < |rows| ==> (KeyOf(rows[i], UpperKey(pk)).Ok? <==> KeyFieldsIn(pk, rows[i].order))
    ensures BuildRowSet(rows, UpperKey(pk)).Ok? ==> KeyedBy(BuildRowSet(rows, UpperKey(pk)).value, UpperKey(pk))
  {
    forall i | 0 <= i < |rows|
      ensures KeyOf(rows[i], UpperKey(pk)).Ok? <==> KeyFieldsIn(pk, rows[i].order)
    {
      var row := rows[i];
      var fs := KeyFields(pk);
      assert forall j :: 0 <= j < |fs| ==> (fs[j] in row.entries <==> fs[j] in row.order);
      assert KeyFieldsIn(pk, row.order) <==> (forall j :: 0 <= j < |fs| ==> fs[j] in row.order);
      match pk
      case Single(n) =>
        assert |fs| == 1 && fs[0] == Upper(n);
        assert (forall j :: 0 <= j < |fs| ==> fs[j] in row.order) <==> Upper(n) in row.order;
        assert KeyOf(row, UpperKey(pk)).Ok? <==> Upper(n) in row.entries;
      case Multi(ns) =>
        assert UpperKey(pk) == Multi(fs);
        assert KeyOf(row, UpperKey(pk)).Ok? <==> TupleOf(row, fs).Ok?;
    }
    if BuildRowSet(rows, UpperKey(pk)).Ok? {
      BuildRowSetContents(rows, UpperKey(pk));
    }
  }

  /** `{headers[index]: val for index, val in enumerate(entry)}`: pairs a tuple with the
      header positionally; a tuple shorter than the header gives fewer fields. */
  function TupleRow(header: seq<string>, entry: seq<string>): (r: Row)
    requires |entry| <= |header|
    ensures Valid(r)
  {
    FromPairs(seq(|entry|, j requires 0 <= j < |entry| => (header[j], entry[j])))
  }

  /** A tuple read against the header: each of its positions is a field named by the
      header at that position; every field comes from some position and holds the value
      there; and a position whose header name does not recur later in the tuple keeps its
      own value. */
  lemma TupleRowContents(header: seq<string>, entry: seq<string>)
    requires |entry| <= |header|
    ensures forall j :: 0 <= j < |entry| ==> header[j] in TupleRow(header, entry).entries
    ensures forall f :: f in TupleRow(header, entry).entries ==>
      exists j :: 0 <= j < |entry| && header[j] == f && TupleRow(header, entry).entries[f] == entry[j]
    ensures forall j :: 0 <= j < |entry| && (forall m :: j < m < |entry| ==> header[m] != header[j]) ==>
      TupleRow(header, entry).entries[header[j]] == entry[j]
  {
    var ps := seq(|entry|, j requires 0 <= j < |entry| => (header[j], entry[j]));
    assert TupleRow(header, entry) == FromPairs(ps);
    assert forall j :: 0 <= j < |entry| ==> ps[j].0 == header[j];
    forall f | f in FromPairs(ps).entries
      ensures exists j :: 0 <= j < |entry| && header[j] == f && FromPairs(ps).entries[f] == entry[j]
    {
      FromPairsSource(ps, f);
    }
    forall j | 0 <= j < |entry| && (forall m :: j < m < |entry| ==> header[m] != header[j])
      ensures FromPairs(ps).entries[header[j]] == entry[j]
    {
      assert LastWrite(ps, j) by {
        forall m | j < m < |ps|
          ensures ps[m].0 != ps[j].0
        {
          assert ps[m].0 == header[m];
        }
      }
      FromPairsLastWins(ps, j);
    }
  }

  /** Some data tuple is longer than the header, so `headers[index]` is out of range. */
  predicate TooLong(header: seq<string>, body: seq<seq<string>>) {
    exists i :: 0 <= i < |body| && |body[i]| > |header|
  }

  /** `[{headers[index]: val for index, val in enumerate(entry)} for entry in body]`. */
  function TupleRows(header: seq<string>, body: seq<seq<string>>): (r: seq<Row>)
    requires !TooLong(header, body)
    ensures |r| == |body|
    ensures forall i :: 0 <= i < |body| ==> r[i] == TupleRow(header, body[i])
  {
    seq(|body|, i requires 0 <= i < |body| && !TooLong(header, body) => TupleRow(header, body[i]))
  }

  /** convert_tuple_list with an empty list refused like an empty dict list: the first
      tuple is the header, every later tuple becomes a dict, and the dict-list rules apply:
      it succeeds exactly when every upper-cased data row carries every key field. */
  function ConvertTupleList(tuples: seq<seq<string>>, pk: PrimaryKey): (r: Result<RowSet, Error>)
    ensures r == Err(EmptyInput) <==> |tuples| <= 1
    ensures |tuples| > 1 ==> (r == Err(IndexOutOfRange) <==> TooLong(tuples[0], tuples[1..]))
    ensures |tuples| > 1 && !TooLong(tuples[0], tuples[1..]) ==>
      (r.Ok? <==> forall i :: 0 <= i < |tuples| - 1 ==> KeyFieldsIn(pk, NormalizeRow(TupleRows(tuples[0], tuples[1..])[i]).order))
    ensures r.Ok? ==> WellFormedRowSet(r.value) && KeyedBy(r.value, UpperKey(pk))
  {
    if |tuples| == 0 then Err(EmptyInput)
    else
      var header := tuples[0];
      var body := tuples[1..];
      if TooLong(header, body) then Err(IndexOutOfRange)
      else ConvertDictList(TupleRows(header, body), pk)
  }

  /** A tuple list that the header can index is converted as the list of its positional
      rows, by the dict-list conversion. */
  lemma ConvertTupleListRows(tuples: seq<seq<string>>, pk: PrimaryKey)
    requires |tuples| > 0 && !TooLong(tuples[0], tuples[1..])
    ensures ConvertTupleList(tuples, pk) == ConvertDictList(TupleRows(tuples[0], tuples[1..]), pk)
  {
  }

  /** Upper-casing a tuple row over distinct upper-case header names keeps every value
      under its own name. */
  lemma TupleRowNormalized(header: seq<string>, entry: seq<string>, j: int)
    requires |entry| == |header| && Distinct(header)
    requires forall m :: 0 <= m < |header| ==> IsUpper(header[m])
    requires 0 <= j < |header|
    ensures header[j] in NormalizeRow(TupleRow(header, entry)).entries
    ensures NormalizeRow(TupleRow(header, entry)).entries[header[j]] == entry[j]
  {
    var row := TupleRow(header, entry);
    TupleRowContents(header, entry);
    assert row.entries[header[j]] == entry[j];
    forall h | h in row.entries && Upper(h) == Upper(header[j])
      ensures h == header[j]
    {
      var m :| 0 <= m < |entry| && header[m] == h && row.entries[h] == entry[m];
      UpperFixesUpper(h);
      UpperFixesUpper(header[j]);
    }
    NormalizeRowValues(row, header[j]);
    UpperFixesUpper(header[j]);
  }

  /** The composite key of an ingested data tuple, when the header names are distinct and
      upper case and name every key field: the tuple of the tuple's own values at the
      key fields' header positions, in key order. */
  lemma TupleKey(header: seq<string>, entry: seq<string>, names: seq<string>)
    requires |entry| == |header| && Distinct(header)
    requires forall j :: 0 <= j < |header| ==> IsUpper(header[j])
    requires KeyFieldsIn(Multi(names), header)
    ensures var k := KeyOf(NormalizeRow(TupleRow(header, entry)), UpperKey(Multi(names)));
      && k.Ok? && k.value.Composite? && |k.value.parts| == |names|
      && forall i, j :: 0 <= i < |names| && 0 <= j < |header| && header[j] == Upper(names[i]) ==> k.value.parts[i] == entry[j]
  {
    var row := TupleRow(header, entry);
    var norm := NormalizeRow(row);
    var fs := KeyFields(Multi(names));
    forall j | 0 <= j < |header|
      ensures header[j] in norm.entries && norm.entries[header[j]] == entry[j]
    {
      TupleRowNormalized(header, entry, j);
    }
    assert UpperKey(Multi(names)) == Multi(fs);
    assert forall i :: 0 <= i < |fs| ==> fs[i] in norm.entries by {
      forall i | 0 <= i < |fs|
        ensures fs[i] in norm.entries
      {
        var j :| 0 <= j < |header| && header[j] == fs[i];
      }
    }
    assert KeyOf(norm, Multi(fs)) == Ok(Composite(TupleOf(norm, fs).value));
  }

  /** convert_tuple_list as written: `input_tuple_list[0]` on an empty list raises
      IndexError instead of the empty-input error. */
  function ConvertTupleListAsWritten(tuples: seq<seq<string>>, pk: PrimaryKey): (r: Result<RowSet, Error>)
  {
    if |tuples| == 0 then Err(IndexOutOfRange) else ConvertTupleList(tuples, pk)
  }

  /** The empty tuple list is the one input on which the code as written and the corrected
      conversion disagree: one raises IndexError, the other the empty-input error. */
  lemma TupleListEmptyDiscrepancy(pk: PrimaryKey)
    ensures ConvertTupleListAsWritten([], pk) == Err(IndexOutOfRange)
    ensures ConvertTupleList([], pk) == Err(EmptyInput)
    ensures forall t :: t != [] ==> ConvertTupleListAsWritten(t, pk) == ConvertTupleList(t, pk)
  {
  }

  /** The delimited-text reader delivered one value per header field in every record. */
  ghost predicate Rectangular(t: CsvTable) {
    forall i :: 0 <= i < |t.records| ==> |t.records[i]| == |t.header|
  }

  /** `reader.fieldnames = [fieldname.upper() for fieldname in reader.fieldnames]`. */
  function UpperHeader(header: seq<string>): (r: seq<string>)
    ensures |r| == |header|
    ensures forall i :: 0 <= i < |r| ==> r[i] == Upper(header[i])
    ensures forall i :: 0 <= i < |r| ==> IsUpper(r[i])
    ensures forall f :: f in header ==> Upper(f) in r
    ensures forall i :: 0 <= i < |header| && IsUpper(header[i]) ==> r[i] == header[i]
  {
    seq(|header|, i requires 0 <= i < |header| => Upper(header[i]))
  }

  /** One record as the reader yields it: `dict(zip(fieldnames, record))`. */
  function CsvRow(fields: seq<string>, record: seq<string>): (r: Row)
    requires |record| == |fields|
    ensures Valid(r)
    ensures forall j :: 0 <= j < |fields| ==> fields[j] in r.entries
    ensures forall f :: f in r.entries ==> exists j :: 0 <= j < |fields| && fields[j] == f && r.entries[f] == record[j]
    ensures forall j :: 0 <= j < |fields| && (forall m :: j < m < |fields| ==> fields[m] != fields[j]) ==>
      r.entries[fields[j]] == record[j]
  {
    TupleRowContents(fields, record);
    TupleRow(fields, record)
  }

  /** The records of a table as rows keyed by the upper-cased header. */
  function CsvRows(t: CsvTable): (r: seq<Row>)
    requires Rectangular(t)
    ensures |r| == |t.records|
    ensures forall i :: 0 <= i < |r| ==> r[i] == CsvRow(UpperHeader(t.header), t.records[i])
  {
    seq(|t.records|, i requires 0 <= i < |t.records| && Rectangular(t) => CsvRow(UpperHeader(t.header), t.records[i]))
  }

  /** convert_csv: check the key fields against the upper-cased header, then key every
      record. A table with no records is not an error. */
  function ConvertCsv(t: CsvTable, pk: PrimaryKey): (r: Result<RowSet, Error>)
    requires Rectangular(t)
    ensures r.Ok? <==> KeyFieldsIn(pk, UpperHeader(t.header))
    ensures r.Err? ==> r.error == KeyNotFound
    ensures r.Ok? ==> WellFormedRowSet(r.value) && KeyedBy(r.value, UpperKey(pk))
    ensures r.Ok? && |t.records| == 0 ==> r.value.entries == map[]
  {
    var fields := UpperHeader(t.header);
    if !KeyFieldsIn(pk, fields) then Err(KeyNotFound)
    else
      var rows := CsvRows(t);
      CsvRowsKeyed(t, pk);
      UpperRowsRowSet(rows, UpperKey(pk));
      KeyFieldsExactly(rows, pk);
      assert |rows| == 0 ==> BuildRowSet(rows, UpperKey(pk)) == Ok(FromPairs([])) by {
        if |rows| == 0 {
          assert Keyed(RowKeys(rows, UpperKey(pk)).value, rows) == [];
        }
      }
      BuildRowSet(rows, UpperKey(pk))
  }

  /** Once the key fields are in the header, convert_csv is the keyed build over the CSV
      rows. */
  lemma ConvertCsvBuilds(t: CsvTable, pk: PrimaryKey)
    requires Rectangular(t)
    requires KeyFieldsIn(pk, UpperHeader(t.header))
    ensures ConvertCsv(t, pk) == BuildRowSet(CsvRows(t), UpperKey(pk))
  {
  }

  /** A row built over an upper-cased header has upper-case fields, and carries the key
      fields when the header does. */
  lemma CsvRowKeyed(fields: seq<string>, record: seq<string>, pk: PrimaryKey)
    requires |record| == |fields|
    requires forall j :: 0 <= j < |fields| ==> IsUpper(fields[j])
    requires KeyFieldsIn(pk, fields)
    ensures UpperFields(CsvRow(fields, record)) && KeyFieldsIn(pk, CsvRow(fields, record).order)
  {
    var row := CsvRow(fields, record);
    forall f | f in row.entries
      ensures IsUpper(f)
    {
      var j :| 0 <= j < |fields| && fields[j] == f;
    }
    var fs := KeyFields(pk);
    forall j | 0 <= j < |fs|
      ensures fs[j] in row.order
    {
      var m :| 0 <= m < |fields| && fields[m] == fs[j];
      assert fs[j] in row.entries;
    }
  }

  /** Every CSV row carries every upper-cased header field, so its key can be computed as
      soon as the key fields are in the header. */
  lemma CsvRowsKeyed(t: CsvTable, pk: PrimaryKey)
    requires Rectangular(t)
    requires KeyFieldsIn(pk, UpperHeader(t.header))
    ensures forall i :: 0 <= i < |t.records| ==> Valid(CsvRows(t)[i]) && UpperFields(CsvRows(t)[i])
    ensures forall i :: 0 <= i < |t.records| ==> KeyFieldsIn(pk, CsvRows(t)[i].order)
  {
    var fields := UpperHeader(t.header);
    forall i | 0 <= i < |t.records|
      ensures UpperFields(CsvRows(t)[i]) && KeyFieldsIn(pk, CsvRows(t)[i].order)
    {
      assert CsvRows(t)[i] == CsvRow(fields, t.records[i]);
      CsvRowKeyed(fields, t.records[i], pk);
    }
  }

  /** What convert_csv stores: every record's row, keyed by the upper-cased key; the last
      record with a key is the one stored under it; every stored row is the row of some
      record; keys iterate in order of first occurrence. */
  lemma ConvertCsvContents(t: CsvTable, pk: PrimaryKey)
    requires Rectangular(t)
    requires ConvertCsv(t, pk).Ok?
    ensures var d := ConvertCsv(t, pk).value;
      var rows := CsvRows(t);
      && (forall i :: 0 <= i < |rows| ==> KeyOf(rows[i], UpperKey(pk)).Ok?)
      && (forall i :: 0 <= i < |rows| ==> KeyOf(rows[i], UpperKey(pk)).value in d.entries)
      && (forall i :: 0 <= i < |rows| && LastWithKey(rows, UpperKey(pk), i) ==>
            d.entries[KeyOf(rows[i], UpperKey(pk)).value] == rows[i])
      && (forall k :: k in d.entries ==> exists i :: 0 <= i < |rows| && d.entries[k] == rows[i])
      && d.order == Dedup(RowKeys(rows, UpperKey(pk)).value)
  {
    ConvertCsvBuilds(t, pk);
    BuildRowSetContents(CsvRows(t), UpperKey(pk));
  }

  /** Reads input_type. */
  function ParseFormat(tag: string): (r: Result<Format, Error>)
    ensures r.Ok? <==> tag == "csv" || tag == "dict_list" || tag == "tuple_list"
    ensures r.Err? ==> r.error == UnsupportedFormat
  {
    if tag == "csv" then Ok(Csv)
    else if tag == "dict_list" then Ok(DictList)
    else if tag == "tuple_list" then Ok(TupleList)
    else Err(UnsupportedFormat)
  }

  /** The input_type value that selects a format. */
  function FormatTag(f: Format): string {
    match f
    case Csv => "csv"
    case DictList => "dict_list"
    case TupleList => "tuple_list"
  }

  /** The accepted tags are exactly the three format names: each format's tag reads back
      as that format, and every accepted tag is the tag of the format it selects. */
  lemma ParseFormatTag(f: Format, tag: string)
    ensures ParseFormat(FormatTag(f)) == Ok(f)
    ensures ParseFormat(tag) == Ok(f) ==> tag == FormatTag(f)
  {
  }

  /** The assumptions the source makes of its callers about the shape of the data. */
  ghost predicate WellFormedInput(input: RawInput) {
    match input
    case CsvInput(t) => Rectangular(t)
    case DictListInput(rows) => forall i :: 0 <= i < |rows| ==> Valid(rows[i])
    case TupleListInput(_) => true
  }

  /** Whether an input has the shape its declared format reads. */
  predicate Shaped(input: RawInput, f: Format) {
    match f
    case Csv => input.CsvInput?
    case DictList => input.DictListInput?
    case TupleList => input.TupleListInput?
  }

  /** convert_to_dict: dispatch on input_type; an unknown tag raises before anything is
      read. */
  function ConvertToDict(input: RawInput, pk: PrimaryKey, tag: string): (r: Result<RowSet, Error>)
    requires WellFormedInput(input)
    ensures ParseFormat(tag).Err? ==> r == Err(UnsupportedFormat)
    ensures ParseFormat(tag) == Ok(Csv) && input.CsvInput? ==> r == ConvertCsv(input.table, pk)
    ensures ParseFormat(tag) == Ok(DictList) && input.DictListInput? ==> r == ConvertDictList(input.rows, pk)
    ensures ParseFormat(tag) == Ok(TupleList) && input.TupleListInput? ==> r == ConvertTupleList(input.tuples, pk)
    ensures ParseFormat(tag).Ok? && !Shaped(input, ParseFormat(tag).value) ==> r == Err(WrongShape)
    ensures r.Ok? ==> ParseFormat(tag).Ok?
    ensures r.Ok? ==> WellFormedRowSet(r.value) && KeyedBy(r.value, UpperKey(pk))
  {
    match ParseFormat(tag)
    case Err(e) => Err(e)
    case Ok(Csv) =>
      if input.CsvInput? then ConvertCsv(input.table, pk) else Err(WrongShape)
    case Ok(DictList) =>
      if input.DictListInput? then ConvertDictList(input.rows, pk) else Err(WrongShape)
    case Ok(TupleList) =>
      if input.TupleListInput? then ConvertTupleList(input.tuples, pk) else Err(WrongShape)
  }

  /** convert_to_dict as written: the tuple-list branch reads the header of an empty list
      and raises IndexError. */
  function ConvertToDictAsWritten(input: RawInput, pk: PrimaryKey, tag: string): (r: Result<RowSet, Error>)
    requires WellFormedInput(input)
    ensures ParseFormat(tag).Err? ==> r == Err(UnsupportedFormat)
    ensures ParseFormat(tag) == Ok(Csv) && input.CsvInput? ==> r == ConvertCsv(input.table, pk)
    ensures ParseFormat(tag) == Ok(DictList) && input.DictListInput? ==> r == ConvertDictList(input.rows, pk)
    ensures ParseFormat(tag) == Ok(TupleList) && input.TupleListInput? ==> r == ConvertTupleListAsWritten(input.tuples, pk)
    ensures ParseFormat(tag).Ok? && !Shaped(input, ParseFormat(tag).value) ==> r == Err(WrongShape)
    ensures r.Ok? ==> ParseFormat(tag).Ok?
    ensures r.Ok? ==> WellFormedRowSet(r.value) && KeyedBy(r.value, UpperKey(pk))
  {
    match ParseFormat(tag)
    case Err(e) => Err(e)
    case Ok(Csv) =>
      if input.CsvInput? then ConvertCsv(input.table, pk) else Err(WrongShape)
    case Ok(DictList) =>
      if input.DictListInput? then ConvertDictList(input.rows, pk) else Err(WrongShape)
    case Ok(TupleList) =>
      if input.TupleListInput? then ConvertTupleListAsWritten(input.tuples, pk) else Err(WrongShape)
  }

  /** The empty tuple list under the tuple_list format. */
  predicate EmptyTupleList(input: RawInput, tag: string) {
    tag == "tuple_list" && input == TupleListInput([])
  }

  /** The dispatch as written and as corrected agree on every input but the empty tuple
      list, where one raises IndexError and the other reports the empty input. */
  lemma ConvertToDictAgree(input: RawInput, pk: PrimaryKey, tag: string)
    requires WellFormedInput(input)
    ensures EmptyTupleList(input, tag) ==>
      ConvertToDictAsWritten(input, pk, tag) == Err(IndexOutOfRange) && ConvertToDict(input, pk, tag) == Err(EmptyInput)
    ensures !EmptyTupleList(input, tag) ==> ConvertToDictAsWritten(input, pk, tag) == ConvertToDict(input, pk, tag)
  {
    if ParseFormat(tag) == Ok(TupleList) && input.TupleListInput? {
      TupleListEmptyDiscrepancy(pk);
    }
  }
}
