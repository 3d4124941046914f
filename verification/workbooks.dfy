/**
  The spreadsheet as the loader sees it: tagged cells, rows of optional
  cells, sheets of optional rows and a workbook of named sheets, plus the
  fixed names of the two-sheet convention and the loader's error kinds.
 */
module Workbooks {
  import opened Wrappers
  import opened JavaStrings

  const ParamSheetName := "TestParameters"
  const DataSheetName := "TestData"
  /** Header of column 0 in both sheets, and the reserved key of every record. */
  const TestNameColumn := "TestName"

  /** What the formula evaluator produced for a formula cell; evaluation itself is not modelled. */
  datatype Evaluated =
    | EvString(text: string)
    | EvNumeric(number: real)
    | EvBoolean(flag: bool)
    | EvError(code: int)

  /** A physical cell, tagged by its cell type; `ErrorCell` stands for every kind the loader does not handle. */
  datatype Cell =
    | StringCell(text: string)
    | NumericCell(number: real, dateFormatted: bool)
    | BooleanCell(flag: bool)
    | FormulaCell(formula: string, result: Evaluated)
    | BlankCell
    | ErrorCell(code: int)

  /** The spreadsheet library's display formatter, left uninterpreted. */
  type Formatter = Cell -> string

  /** A row: `None` where no physical cell exists. */
  datatype Row = Row(cells: seq<Option<Cell>>)

  /** A sheet: `None` where no physical row exists; index 0 is the header row. */
  datatype Sheet = Sheet(rows: seq<Option<Row>>)

  datatype Workbook = Workbook(sheets: seq<(string, Sheet)>)

  /** Every way loading can fail. */
  datatype LoadError =
    | ConfigMissing
    | FileNotFound(path: string)
    | ParamSheetMissing
    | ParamHeaderInvalid
    | DataSheetMissing
    | DataHeaderInvalid

  /** `Row.getCell(j)`: absent beyond the last cell. */
  function GetCell(row: Row, j: nat): Option<Cell> {
    if j < |row.cells| then row.cells[j] else None
  }

  /** `Sheet.getRow(i)`: absent beyond the last row. */
  function GetRow(sheet: Sheet, i: nat): Option<Row> {
    if i < |sheet.rows| then sheet.rows[i] else None
  }

  /** Number of present entries. */
  function CountPresent<T>(xs: seq<Option<T>>): (n: nat)
    ensures n <= |xs|
  {
    if |xs| == 0 then 0
    else (if xs[0].Some? then 1 else 0) + CountPresent(xs[1..])
  }

  /** `Row.getPhysicalNumberOfCells()`: how many cells exist, not the index of the last one. */
  function PhysicalCount(row: Row): nat {
    CountPresent(row.cells)
  }

  /** A present prefix of length `n` contributes `n` to the count. */
  lemma {:induction false} CountPresentAtLeast<T>(xs: seq<Option<T>>, n: nat)
    requires n <= |xs|
    requires forall i :: 0 <= i < n ==> xs[i].Some?
    ensures CountPresent(xs) >= n
  {
    if n > 0 {
      CountPresentAtLeast(xs[1..], n - 1);
    }
  }

  /** The count equals the length exactly when no entry is absent. */
  lemma {:induction false} CountPresentFull<T>(xs: seq<Option<T>>)
    ensures CountPresent(xs) == |xs| <==> forall i :: 0 <= i < |xs| ==> xs[i].Some?
  {
    if |xs| > 0 {
      CountPresentFull(xs[1..]);
      assert forall i :: 1 <= i < |xs| ==> xs[i] == xs[1..][i - 1];
    }
  }

  /** `Workbook.getSheet(name)`: the first sheet whose name matches, ignoring case. */
  function GetSheet(wb: Workbook, name: string): (r: Option<Sheet>)
    ensures r.None? <==> forall i :: 0 <= i < |wb.sheets| ==> !EqualsIgnoreCase(name, wb.sheets[i].0)
    ensures r.Some? ==> exists i :: 0 <= i < |wb.sheets| && EqualsIgnoreCase(name, wb.sheets[i].0) && r.value == wb.sheets[i].1
  {
    FindSheet(wb.sheets, name)
  }

  function FindSheet(sheets: seq<(string, Sheet)>, name: string): (r: Option<Sheet>)
    ensures r.None? <==> forall i :: 0 <= i < |sheets| ==> !EqualsIgnoreCase(name, sheets[i].0)
    ensures r.Some? ==> exists i :: 0 <= i < |sheets| && EqualsIgnoreCase(name, sheets[i].0) && r.value == sheets[i].1
  {
    if |sheets| == 0 then None
    else if EqualsIgnoreCase(name, sheets[0].0) then Some(sheets[0].1)
    else
      var r := FindSheet(sheets[1..], name);
      assert forall i :: 1 <= i < |sheets| ==> sheets[i] == sheets[1..][i - 1];
      r
  }
}
