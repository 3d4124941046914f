/**
  Phase 2 of parsing: the `TestData` sheet is joined with the schema. The
  header row is indexed by name, each data row with a known test name
  becomes a record holding `TestName` and every schema key, and rows whose
  schema values are all empty are dropped.
 */
module Join {
  import opened Wrappers
  import opened JavaStrings
  import opened OrderedMaps
  import opened Workbooks
  import opened Coercion
  import opened Schema

  /** Header text to column position. */
  type HeaderIndex = Assoc<string, nat>
  /** One data set: parameter key to value, `TestName` included. */
  type Record = Assoc<string, string>
  /** Test name to its data sets, in order. */
  type TestData = Assoc<string, seq<Record>>

  /**
    The header loop once each column has been reduced to its text: an empty
    text is skipped, any other is put with its position, so for a repeated
    header the last column wins.
   */
  function IndexFold(texts: seq<string>): (idx: HeaderIndex)
    ensures DistinctKeys(idx)
    ensures forall k :: Get(idx, k).Some? ==> IndexedAt(texts, k, Get(idx, k).value)
    ensures forall j :: 0 <= j < |texts| && texts[j] != "" ==> Get(idx, texts[j]).Some?
  {
    if |texts| == 0 then []
    else
      var n := |texts| - 1;
      var prev := IndexFold(texts[..n]);
      assert forall j :: 0 <= j < n ==> texts[..n][j] == texts[j];
      if texts[n] == "" then
        IndexFoldSkip(texts, prev);
        prev
      else
        var idx := Put(prev, texts[n], n);
        IndexFoldPut(texts, prev, idx);
        idx
  }

  lemma IndexFoldSkip(texts: seq<string>, prev: HeaderIndex)
    requires |texts| > 0 && texts[|texts| - 1] == ""
    requires forall k :: Get(prev, k).Some? ==> IndexedAt(texts[..|texts| - 1], k, Get(prev, k).value)
    requires forall j :: 0 <= j < |texts| - 1 && texts[j] != "" ==> Get(prev, texts[j]).Some?
    ensures forall k :: Get(prev, k).Some? ==> IndexedAt(texts, k, Get(prev, k).value)
    ensures forall j :: 0 <= j < |texts| && texts[j] != "" ==> Get(prev, texts[j]).Some?
  {
    var n := |texts| - 1;
    forall k | Get(prev, k).Some? ensures IndexedAt(texts, k, Get(prev, k).value) {
      IndexedAtExtend(texts, k, Get(prev, k).value);
    }
  }

  lemma IndexFoldPut(texts: seq<string>, prev: HeaderIndex, idx: HeaderIndex)
    requires |texts| > 0 && texts[|texts| - 1] != ""
    requires forall k :: Get(prev, k).Some? ==> IndexedAt(texts[..|texts| - 1], k, Get(prev, k).value)
    requires forall j :: 0 <= j < |texts| - 1 && texts[j] != "" ==> Get(prev, texts[j]).Some?
    requires idx == Put(prev, texts[|texts| - 1], |texts| - 1)
    ensures forall k :: Get(idx, k).Some? ==> IndexedAt(texts, k, Get(idx, k).value)
    ensures forall j :: 0 <= j < |texts| && texts[j] != "" ==> Get(idx, texts[j]).Some?
  {
    var n := |texts| - 1;
    forall k | Get(idx, k).Some? ensures IndexedAt(texts, k, Get(idx, k).value) {
      if k != texts[n] {
        IndexedAtExtend(texts, k, Get(prev, k).value);
      }
    }
    forall j | 0 <= j < |texts| && texts[j] != "" ensures Get(idx, texts[j]).Some? {
      if texts[j] != texts[n] {
        assert Get(prev, texts[j]).Some?;
      }
    }
  }

  /** Column `j` carries the non-empty text `k`, and no later column does. */
  predicate IndexedAt(texts: seq<string>, k: string, j: nat) {
    && k != "" && j < |texts| && texts[j] == k
    && forall j' :: j < j' < |texts| ==> texts[j'] != k
  }

  lemma IndexedAtExtend(texts: seq<string>, k: string, j: nat)
    requires |texts| > 0 && texts[|texts| - 1] != k
    requires IndexedAt(texts[..|texts| - 1], k, j)
    ensures IndexedAt(texts, k, j)
  {
    assert forall j' :: j < j' < |texts| - 1 ==> texts[..|texts| - 1][j'] == texts[j'];
  }

  /**
    The data-sheet header index. The loop runs over the first
    `getPhysicalNumberOfCells()` column positions, not up to the last cell.
   */
  function BuildHeaderIndex(header: Row, fmt: Formatter): HeaderIndex {
    IndexFold(ColumnTexts(header, PhysicalCount(header), fmt))
  }

  /** The value a row holds for `key`: the coerced cell of the key's column, or "" when no header matches. */
  function ColumnValue(row: Row, idx: HeaderIndex, key: string, fmt: Formatter): string {
    match Get(idx, key)
    case Some(j) => Coerce(GetCell(row, j), fmt)
    case None => ""
  }

  /**
    Keys are matched by header name, case-sensitively, among the first
    `PhysicalCount(header)` columns: the value comes from the last column
    carrying that name, and is "" when there is none.
   */
  lemma ColumnValueByName(header: Row, row: Row, key: string, fmt: Formatter)
    ensures var bound := PhysicalCount(header);
            var v := ColumnValue(row, BuildHeaderIndex(header, fmt), key, fmt);
            && (key == "" || (forall j :: 0 <= j < bound ==> ColumnText(header, j, fmt) != key) ==> v == "")
            && (forall j :: 0 <= j < bound && key != "" && ColumnText(header, j, fmt) == key
                            && (forall j' :: j < j' < bound ==> ColumnText(header, j', fmt) != key)
                            ==> v == Coerce(GetCell(row, j), fmt))
  {
    var bound := PhysicalCount(header);
    var texts := ColumnTexts(header, bound, fmt);
    IndexFoldLookup(texts, key);
    forall j | 0 <= j < bound && key != "" && ColumnText(header, j, fmt) == key
               && (forall j' :: j < j' < bound ==> ColumnText(header, j', fmt) != key)
      ensures ColumnValue(row, BuildHeaderIndex(header, fmt), key, fmt) == Coerce(GetCell(row, j), fmt)
    {
      assert IndexedAt(texts, key, j);
    }
  }

  /** Looking a name up in the folded index, stated over the texts alone. */
  lemma IndexFoldLookup(texts: seq<string>, key: string)
    ensures (key == "" || forall j :: 0 <= j < |texts| ==> texts[j] != key) ==> Get(IndexFold(texts), key) == None
    ensures forall j: nat :: IndexedAt(texts, key, j) ==> Get(IndexFold(texts), key) == Some(j)
  {
    var idx := IndexFold(texts);
    forall j: nat | IndexedAt(texts, key, j)
      ensures Get(idx, key) == Some(j)
    {
      assert Get(idx, texts[j]).Some?;
      IndexedAtUnique(texts, key, j, Get(idx, key).value);
    }
  }

  /** A name is last carried by at most one column. */
  lemma IndexedAtUnique(texts: seq<string>, k: string, j1: nat, j2: nat)
    requires IndexedAt(texts, k, j1) && IndexedAt(texts, k, j2)
    ensures j1 == j2
  {
  }

  /**
    The columns at or past the physical-cell count are never indexed. So when
    the header row has an absent cell, its last columns are out of reach.
   */
  lemma HeaderIndexWithinPhysicalCount(header: Row, fmt: Formatter, key: string)
    requires Get(BuildHeaderIndex(header, fmt), key).Some?
    ensures Get(BuildHeaderIndex(header, fmt), key).value < PhysicalCount(header)
  {
  }

  /**
    A header `TestName | EMAIL | (absent) | PASSWORD` has three physical
    cells, so `PASSWORD` in column 3 is not indexed and every row reads ""
    for that key.
   */
  lemma HeaderGapHidesLastColumn(fmt: Formatter)
    ensures var header := Row([Some(StringCell("TestName")), Some(StringCell("EMAIL")), None, Some(StringCell("PASSWORD"))]);
            Get(BuildHeaderIndex(header, fmt), "PASSWORD").None?
  {
    var header := Row([Some(StringCell("TestName")), Some(StringCell("EMAIL")), None, Some(StringCell("PASSWORD"))]);
    assert PhysicalCount(header) == 3;
    TrimKeepsTrimmed("TestName");
    TrimKeepsTrimmed("EMAIL");
    var texts := ColumnTexts(header, 3, fmt);
    assert texts == ["TestName", "EMAIL", ""];
  }

  /**
    The record half of the loop over a test's schema keys: each key is put
    into the record with its value, a repeated key overwriting in place.
   */
  function FillRecord(rec: Record, keys: seq<string>, valueOf: string -> string): (r: Record)
    decreases |keys|
    ensures |rec| <= |r| <= |rec| + |keys|
  {
    if |keys| == 0 then rec
    else FillRecord(Put(rec, keys[0], valueOf(keys[0])), keys[1..], valueOf)
  }

  /** After filling, a key holds its value and every other name what it held before. */
  lemma {:induction false} FillRecordGet(rec: Record, keys: seq<string>, valueOf: string -> string, k: string)
    decreases |keys|
    ensures Get(FillRecord(rec, keys, valueOf), k) == if k in keys then Some(valueOf(k)) else Get(rec, k)
  {
    if |keys| > 0 {
      var rec' := Put(rec, keys[0], valueOf(keys[0]));
      FillRecordGet(rec', keys[1..], valueOf, k);
      InHeadOrTail(keys, k);
      if k != keys[0] {
        assert Get(rec', k) == Get(rec, k);
      }
    }
  }

  /** Membership in a non-empty sequence splits into its head and its tail. */
  lemma InHeadOrTail(keys: seq<string>, k: string)
    requires |keys| > 0
    ensures k in keys <==> k == keys[0] || k in keys[1..]
  {
    assert keys == [keys[0]] + keys[1..];
  }

  /** Filling keeps the record's names distinct. */
  lemma {:induction false} FillRecordDistinct(rec: Record, keys: seq<string>, valueOf: string -> string)
    decreases |keys|
    requires DistinctKeys(rec)
    ensures DistinctKeys(FillRecord(rec, keys, valueOf))
  {
    if |keys| > 0 {
      FillRecordDistinct(Put(rec, keys[0], valueOf(keys[0])), keys[1..], valueOf);
    }
  }

  /**
    The flag half of the same loop: it is raised by the first key whose value
    is non-empty.
   */
  function AnyValue(keys: seq<string>, valueOf: string -> string): (r: bool)
    decreases |keys|
    ensures r <==> exists k :: k in keys && valueOf(k) != ""
  {
    if |keys| == 0 then false
    else if valueOf(keys[0]) != "" then true
    else
      var r := AnyValue(keys[1..], valueOf);
      assert forall k :: k in keys && k != keys[0] ==> k in keys[1..] by {
        forall k ensures k in keys && k != keys[0] ==> k in keys[1..] {
          InHeadOrTail(keys, k);
        }
      }
      r
  }

  /** A row's record and its meaningfulness flag: `TestName` first, then every key. */
  function BuildRecord(name: string, keys: seq<string>, row: Row, idx: HeaderIndex, fmt: Formatter): (Record, bool) {
    var valueOf := k => ColumnValue(row, idx, k, fmt);
    (FillRecord([(TestNameColumn, name)], keys, valueOf), AnyValue(keys, valueOf))
  }

  /**
    The record holds exactly `TestName` and the keys, each key with its
    column's value and `TestName` with the row's name unless a key of that
    name overwrote it; it is kept exactly when some key's value is non-empty.
   */
  lemma BuildRecordShape(name: string, keys: seq<string>, row: Row, idx: HeaderIndex, fmt: Formatter)
    ensures var (rec, meaningful) := BuildRecord(name, keys, row, idx, fmt);
            && DistinctKeys(rec)
            && (forall k :: k in Keys(rec) <==> k == TestNameColumn || k in keys)
            && (forall k :: k in keys ==> Get(rec, k) == Some(ColumnValue(row, idx, k, fmt)))
            && (TestNameColumn !in keys ==> Get(rec, TestNameColumn) == Some(name))
            && (meaningful <==> exists k :: k in keys && ColumnValue(row, idx, k, fmt) != "")
  {
    var rec0: Record := [(TestNameColumn, name)];
    assert Keys(rec0) == [TestNameColumn];
    var rec := FillRecord(rec0, keys, k => ColumnValue(row, idx, k, fmt));
    FillRecordDistinct(rec0, keys, k => ColumnValue(row, idx, k, fmt));
    forall k ensures Get(rec, k) == if k in keys then Some(ColumnValue(row, idx, k, fmt)) else Get(rec0, k) {
      FillRecordGet(rec0, keys, k => ColumnValue(row, idx, k, fmt), k);
    }
    forall k ensures k in Keys(rec) <==> k == TestNameColumn || k in keys {
      assert Get(rec, k).Some? <==> k in Keys(rec);
      assert Get(rec0, k).Some? <==> k == TestNameColumn;
    }
  }

  /**
    What one data row contributes: nothing when the row is absent, and
    otherwise what its name and cells give.
   */
  function RowRecord(row: Option<Row>, schema: SchemaMap, idx: HeaderIndex, fmt: Formatter): Option<(string, Record)> {
    if row.None? then None else NamedRowRecord(RowName(row, fmt), row.value, schema, idx, fmt)
  }

  /**
    A present row with test name `name`: nothing when the name is empty, has
    no schema keys, or every schema key reads ""; otherwise the name and its record.
   */
  function NamedRowRecord(name: string, row: Row, schema: SchemaMap, idx: HeaderIndex, fmt: Formatter): Option<(string, Record)> {
    if name == "" then None
    else
      match Get(schema, name)
      case None => None
      case Some(keys) =>
        if keys == [] then None
        else
          var (rec, meaningful) := BuildRecord(name, keys, row, idx, fmt);
          if meaningful then Some((name, rec)) else None
  }

  /** The shape every emitted record has. */
  ghost predicate WellShaped(schema: SchemaMap, name: string, rec: Record) {
    && name != ""
    && Get(schema, name).Some?
    && var keys := Get(schema, name).value;
    && keys != []
    && DistinctKeys(rec)
    && (forall k :: k in Keys(rec) <==> k == TestNameColumn || k in keys)
    && (TestNameColumn !in keys ==> Get(rec, TestNameColumn) == Some(name))
    && (exists k :: k in keys && Get(rec, k) != Some(""))
  }

  /**
    A row named `name` is emitted exactly when the name is non-empty, has
    schema keys, and some key reads non-empty.
   */
  lemma RowRecordEmitted(name: string, row: Row, schema: SchemaMap, idx: HeaderIndex, fmt: Formatter)
    ensures NamedRowRecord(name, row, schema, idx, fmt).Some? <==>
              && name != "" && Get(schema, name).Some? && Get(schema, name).value != []
              && exists k :: k in Get(schema, name).value && ColumnValue(row, idx, k, fmt) != ""
  {
    if name != "" && Get(schema, name).Some? && Get(schema, name).value != [] {
      BuildRecordShape(name, Get(schema, name).value, row, idx, fmt);
    }
  }

  /**
    The record an emitted row carries is well-shaped under its own name and
    holds, for each schema key, the value of the key's column.
   */
  lemma RowRecordShape(name: string, row: Row, schema: SchemaMap, idx: HeaderIndex, fmt: Formatter)
    requires NamedRowRecord(name, row, schema, idx, fmt).Some?
    ensures var (name', rec) := NamedRowRecord(name, row, schema, idx, fmt).value;
            && name' == name
            && WellShaped(schema, name, rec)
            && forall k :: k in Get(schema, name).value ==> Get(rec, k) == Some(ColumnValue(row, idx, k, fmt))
  {
    var keys := Get(schema, name).value;
    BuildRecordShape(name, keys, row, idx, fmt);
    var (rec, meaningful) := BuildRecord(name, keys, row, idx, fmt);
    var k :| k in keys && ColumnValue(row, idx, k, fmt) != "";
    assert Get(rec, k) != Some("");
  }

  /** Each row's contribution, in row order. */
  function Contributions(rows: seq<Option<Row>>, schema: SchemaMap, idx: HeaderIndex, fmt: Formatter): (cs: seq<Option<(string, Record)>>)
    ensures |cs| == |rows|
    ensures forall i :: 0 <= i < |rows| ==> cs[i] == RowRecord(rows[i], schema, idx, fmt)
  {
    seq(|rows|, i requires 0 <= i < |rows| => RowRecord(rows[i], schema, idx, fmt))
  }

  /** Reference: the records emitted for `name`, in row order. */
  function RecordsFor(cs: seq<Option<(string, Record)>>, name: string): (recs: seq<Record>)
    ensures forall rec :: rec in recs ==> Some((name, rec)) in cs
  {
    if |cs| == 0 then []
    else
      var prev := RecordsFor(cs[..|cs| - 1], name);
      var last := cs[|cs| - 1];
      assert forall c :: c in cs[..|cs| - 1] ==> c in cs;
      prev + (if last.Some? && last.value.0 == name then [last.value.1] else [])
  }

  /** Reference: the names of the emitted records, in row order, duplicates kept. */
  function EmittedNames(cs: seq<Option<(string, Record)>>): seq<string> {
    if |cs| == 0 then []
    else
      var last := cs[|cs| - 1];
      EmittedNames(cs[..|cs| - 1]) + (if last.Some? then [last.value.0] else [])
  }

  /** Every emitted name has a record. */
  lemma {:induction false} EmittedNamesHaveRecords(cs: seq<Option<(string, Record)>>, name: string)
    ensures name in EmittedNames(cs) <==> RecordsFor(cs, name) != []
  {
    if |cs| > 0 {
      EmittedNamesHaveRecords(cs[..|cs| - 1], name);
    }
  }

  /**
    The grouping loop (`putIfAbsent` then `add`): each emitted record is
    appended to its name's list.
   */
  function GroupFold(cs: seq<Option<(string, Record)>>): (data: TestData)
    ensures DistinctKeys(data)
  {
    if |cs| == 0 then []
    else
      var prev := GroupFold(cs[..|cs| - 1]);
      var last := cs[|cs| - 1];
      if last.Some? then AppendTo(prev, last.value.0, last.value.1) else prev
  }

  /**
    The grouped result holds, for each name, exactly its records in row
    order (no entry when there are none), and the names in order of their
    first emitted record.
   */
  lemma {:induction false} GroupFoldSpec(cs: seq<Option<(string, Record)>>)
    ensures forall name :: Get(GroupFold(cs), name) ==
              (if RecordsFor(cs, name) == [] then None else Some(RecordsFor(cs, name)))
    ensures Keys(GroupFold(cs)) == FirstOccurrences(EmittedNames(cs))
  {
    if |cs| > 0 {
      var prefix := cs[..|cs| - 1];
      GroupFoldSpec(prefix);
      var last := cs[|cs| - 1];
      assert EmittedNames(cs) == EmittedNames(prefix) + (if last.Some? then [last.value.0] else []);
      forall name ensures Get(GroupFold(cs), name) ==
                          (if RecordsFor(cs, name) == [] then None else Some(RecordsFor(cs, name))) {
        assert RecordsFor(cs, name) == RecordsFor(prefix, name) + (if last.Some? && last.value.0 == name then [last.value.1] else []);
        if last.Some? && last.value.0 == name {
          assert GroupFold(cs) == AppendTo(GroupFold(prefix), name, last.value.1);
          if RecordsFor(prefix, name) == [] {
            assert RecordsFor(cs, name) == [last.value.1];
          }
        } else if last.Some? {
          assert GroupFold(cs) == AppendTo(GroupFold(prefix), last.value.0, last.value.1);
          assert RecordsFor(cs, name) == RecordsFor(prefix, name);
        } else {
          assert RecordsFor(cs, name) == RecordsFor(prefix, name);
        }
      }
      if last.Some? {
        var e := EmittedNames(prefix);
        EmittedNamesHaveRecords(prefix, last.value.0);
        assert (e + [last.value.0])[..|e|] == e;
      } else {
        assert EmittedNames(cs) == EmittedNames(prefix);
      }
    }
  }

  /** Phase 2 over the rows after the header. */
  function JoinRows(header: Row, rows: seq<Option<Row>>, schema: SchemaMap, fmt: Formatter): TestData {
    GroupFold(Contributions(rows, schema, BuildHeaderIndex(header, fmt), fmt))
  }

  /**
    Phase 2 in full: the data sheet must exist and carry the name header;
    then its rows after the header are joined with the schema.
   */
  function JoinData(sheet: Option<Sheet>, schema: SchemaMap, fmt: Formatter): (r: Result<TestData, LoadError>)
    ensures r == Failure(DataSheetMissing) <==> sheet.None?
    ensures r == Failure(DataHeaderInvalid) <==> sheet.Some? && !HasNameHeader(sheet.value, fmt)
    ensures r.Failure? ==> r.error in {DataSheetMissing, DataHeaderInvalid}
  {
    if sheet.None? then Failure(DataSheetMissing)
    else if !HasNameHeader(sheet.value, fmt) then Failure(DataHeaderInvalid)
    else Success(JoinRows(GetRow(sheet.value, 0).value, sheet.value.rows[1..], schema, fmt))
  }

  /**
    Schema gating and record shape: every name in the joined result is
    non-empty and has schema keys, its list is non-empty, and every record
    in it is well-shaped and came from a data row with that name.
   */
  lemma JoinRowsGated(header: Row, rows: seq<Option<Row>>, schema: SchemaMap, fmt: Formatter, name: string)
    requires Get(JoinRows(header, rows, schema, fmt), name).Some?
    ensures var recs := Get(JoinRows(header, rows, schema, fmt), name).value;
            && recs != []
            && forall rec :: rec in recs ==>
                 && WellShaped(schema, name, rec)
                 && exists i :: 0 <= i < |rows| && RowName(rows[i], fmt) == name
  {
    var idx := BuildHeaderIndex(header, fmt);
    var cs := Contributions(rows, schema, idx, fmt);
    GroupFoldSpec(cs);
    var recs := RecordsFor(cs, name);
    forall rec | rec in recs
      ensures WellShaped(schema, name, rec) && exists i :: 0 <= i < |rows| && RowName(rows[i], fmt) == name
    {
      var i :| 0 <= i < |cs| && cs[i] == Some((name, rec));
      RowRecordShape(RowName(rows[i], fmt), rows[i].value, schema, idx, fmt);
    }
  }

  /**
    The join against a schema built from a parameter header: every data set
    of a joined name holds exactly `TestName` plus that header's keys.
   */
  lemma JoinedShape(paramHeader: Row, paramRows: seq<Option<Row>>, dataHeader: Row, dataRows: seq<Option<Row>>,
                    fmt: Formatter, name: string)
    requires Get(JoinRows(dataHeader, dataRows, BuildSchema(paramHeader, paramRows, fmt), fmt), name).Some?
    ensures var keys := SchemaKeys(paramHeader, fmt);
            var recs := Get(JoinRows(dataHeader, dataRows, BuildSchema(paramHeader, paramRows, fmt), fmt), name).value;
            && name != "" && name in RowNames(paramRows, fmt)
            && keys != []
            && recs != []
            && forall rec :: rec in recs ==>
                 && DistinctKeys(rec)
                 && (forall k :: k in Keys(rec) <==> k == TestNameColumn || k in keys)
                 && (TestNameColumn !in keys ==> Get(rec, TestNameColumn) == Some(name))
                 && (exists k :: k in keys && Get(rec, k) != Some(""))
  {
    var schema := BuildSchema(paramHeader, paramRows, fmt);
    var keys := SchemaKeys(paramHeader, fmt);
    var recs := Get(JoinRows(dataHeader, dataRows, schema, fmt), name).value;
    JoinRowsGated(dataHeader, dataRows, schema, fmt, name);
    SchemaLookup(paramHeader, paramRows, fmt, name);
    assert recs[0] in recs;
    assert WellShaped(schema, name, recs[0]);
    assert Get(schema, name) == Some(keys);
    forall rec | rec in recs
      ensures && DistinctKeys(rec)
              && (forall k :: k in Keys(rec) <==> k == TestNameColumn || k in keys)
              && (TestNameColumn !in keys ==> Get(rec, TestNameColumn) == Some(name))
              && (exists k :: k in keys && Get(rec, k) != Some(""))
    {
      assert WellShaped(schema, name, rec);
    }
  }
}
