/**
  Phase 1 of parsing: the `TestParameters` sheet becomes an insertion-ordered
  map from test name to the ordered list of parameter keys it expects.
 */
module Schema {
  import opened Wrappers
  import opened JavaStrings
  import opened OrderedMaps
  import opened Workbooks
  import opened Coercion

  /** Test name to its ordered parameter keys. */
  type SchemaMap = Assoc<string, seq<string>>

  /** The trimmed, coerced text of column `j`. */
  function ColumnText(row: Row, j: nat, fmt: Formatter): string {
    Trim(Coerce(GetCell(row, j), fmt))
  }

  /** Only a present cell can have non-empty text. */
  lemma NonEmptyColumnIsPresent(row: Row, j: nat, fmt: Formatter)
    requires ColumnText(row, j, fmt) != ""
    ensures j < |row.cells| && row.cells[j].Some?
  {
  }

  /**
    The header check both sheets must pass: row 0 exists and its cell 0
    coerces to "TestName" ignoring case (no further trim is applied).
   */
  predicate HasNameHeader(sheet: Sheet, fmt: Formatter) {
    && GetRow(sheet, 0).Some?
    && EqualsIgnoreCase(Coerce(GetCell(GetRow(sheet, 0).value, 0), fmt), TestNameColumn)
  }

  /** The test name a row carries in column 0; an absent row carries none. */
  function RowName(row: Option<Row>, fmt: Formatter): string {
    if row.None? then "" else ColumnText(row.value, 0, fmt)
  }

  /** The trimmed texts of columns `0 .. n - 1`. */
  function ColumnTexts(row: Row, n: nat, fmt: Formatter): (texts: seq<string>)
    ensures |texts| == n
    ensures forall j :: 0 <= j < n ==> texts[j] == ColumnText(row, j, fmt)
  {
    seq(n, j requires 0 <= j < n => ColumnText(row, j, fmt))
  }

  /**
    The key loop over the header texts: positions `j`, `j + 1`, ... up to the
    end, stopping at the first empty text.
   */
  function LeadingKeys(texts: seq<string>, j: nat): (keys: seq<string>)
    ensures keys == [] || j + |keys| <= |texts|
    ensures forall i :: 0 <= i < |keys| ==> keys[i] == texts[j + i] && keys[i] != ""
    ensures j + |keys| < |texts| ==> texts[j + |keys|] == ""
    decreases |texts| - j
  {
    if j >= |texts| then []
    else if texts[j] == "" then []
    else [texts[j]] + LeadingKeys(texts, j + 1)
  }

  /**
    The keys every schema entry receives: header columns from 1, bounded by
    the number of physical cells of the header row.
   */
  function SchemaKeys(header: Row, fmt: Formatter): seq<string> {
    LeadingKeys(ColumnTexts(header, PhysicalCount(header), fmt), 1)
  }

  /**
    Once the header has a cell in column 0 (which the header check demands),
    the physical-cell bound never cuts the key list short: it is exactly the
    longest run of non-empty header texts from column 1, ended by an empty one.
   */
  lemma SchemaKeysLongestRun(header: Row, fmt: Formatter)
    requires GetCell(header, 0).Some?
    ensures var keys := SchemaKeys(header, fmt);
            && (forall i :: 0 <= i < |keys| ==> keys[i] == ColumnText(header, i + 1, fmt) && keys[i] != "")
            && ColumnText(header, |keys| + 1, fmt) == ""
  {
    var texts := ColumnTexts(header, PhysicalCount(header), fmt);
    var keys := SchemaKeys(header, fmt);
    var n := |keys|;
    assert forall i :: 0 <= i < n ==> keys[i] == ColumnText(header, i + 1, fmt) by {
      forall i | 0 <= i < n ensures keys[i] == ColumnText(header, i + 1, fmt) {
        assert keys[i] == texts[1 + i];
      }
    }
    if ColumnText(header, n + 1, fmt) != "" {
      forall i | 0 <= i < n + 2 ensures i < |header.cells| && header.cells[i].Some? {
        if 0 < i <= n {
          assert keys[i - 1] == ColumnText(header, 1 + (i - 1), fmt);
          NonEmptyColumnIsPresent(header, i, fmt);
        } else if i == n + 1 {
          NonEmptyColumnIsPresent(header, i, fmt);
        }
      }
      CountPresentAtLeast(header.cells, n + 2);
    }
  }

  /** The test names of `rows`, one per row, in row order. */
  function RowNames(rows: seq<Option<Row>>, fmt: Formatter): (names: seq<string>)
    ensures |names| == |rows|
    ensures forall i :: 0 <= i < |rows| ==> names[i] == RowName(rows[i], fmt)
  {
    seq(|rows|, i requires 0 <= i < |rows| => RowName(rows[i], fmt))
  }

  /** The non-empty entries of `names`, in order, duplicates kept. */
  function NonEmpty(names: seq<string>): (r: seq<string>)
    ensures forall n :: n in r <==> n in names && n != ""
  {
    if |names| == 0 then []
    else
      assert names == names[..|names| - 1] + [names[|names| - 1]];
      NonEmpty(names[..|names| - 1]) + (if names[|names| - 1] == "" then [] else [names[|names| - 1]])
  }

  /**
    The schema row loop, once each row has been reduced to its name and the
    header to its key list: a row with an empty name is skipped, and so is
    every row when the key list is empty; otherwise the name is put with the
    keys (a repeated name overwrites its entry in place).
   */
  function SchemaFold(keys: seq<string>, names: seq<string>): (schema: SchemaMap)
    ensures DistinctKeys(schema)
    ensures forall i :: 0 <= i < |schema| ==> schema[i].1 == keys && schema[i].0 != ""
    ensures Keys(schema) == (if keys == [] then [] else FirstOccurrences(NonEmpty(names)))
  {
    if |names| == 0 then []
    else
      var prev := SchemaFold(keys, names[..|names| - 1]);
      var name := names[|names| - 1];
      assert NonEmpty(names) == NonEmpty(names[..|names| - 1]) + (if name == "" then [] else [name]);
      if name == "" then
        assert NonEmpty(names) == NonEmpty(names[..|names| - 1]);
        prev
      else if keys == [] then prev
      else Put(prev, name, keys)
  }

  /** The schema row loop over `rows`, the sheet's rows after the header. */
  function BuildSchema(header: Row, rows: seq<Option<Row>>, fmt: Formatter): SchemaMap {
    SchemaFold(SchemaKeys(header, fmt), RowNames(rows, fmt))
  }

  /** A name has an entry exactly when the header defines keys and some row carries that name. */
  lemma SchemaLookup(header: Row, rows: seq<Option<Row>>, fmt: Formatter, name: string)
    ensures Get(BuildSchema(header, rows, fmt), name) ==
              (if SchemaKeys(header, fmt) != [] && name != "" && name in RowNames(rows, fmt)
               then Some(SchemaKeys(header, fmt)) else None)
  {
    var schema := BuildSchema(header, rows, fmt);
    var v := Get(schema, name);
    if v.Some? {
      var j :| 0 <= j < |schema| && schema[j].0 == name && schema[j].1 == v.value;
    }
  }

  /**
    Phase 1 in full: the sheet must exist and carry the name header; then
    each row after the header contributes its name, if any.
   */
  function ParseSchema(sheet: Option<Sheet>, fmt: Formatter): (r: Result<SchemaMap, LoadError>)
    ensures r == Failure(ParamSheetMissing) <==> sheet.None?
    ensures r == Failure(ParamHeaderInvalid) <==> sheet.Some? && !HasNameHeader(sheet.value, fmt)
    ensures r.Failure? ==> r.error in {ParamSheetMissing, ParamHeaderInvalid}
    ensures r.Success? ==> DistinctKeys(r.value)
    ensures r.Success? ==> forall i :: 0 <= i < |r.value| ==>
              r.value[i].0 != "" && r.value[i].1 != [] && r.value[i].1 == SchemaKeys(GetRow(sheet.value, 0).value, fmt)
  {
    if sheet.None? then Failure(ParamSheetMissing)
    else if !HasNameHeader(sheet.value, fmt) then Failure(ParamHeaderInvalid)
    else
      var header := GetRow(sheet.value, 0).value;
      var schema := BuildSchema(header, sheet.value.rows[1..], fmt);
      assert |schema| > 0 ==> Keys(schema) != [];
      Success(schema)
  }
}
