/** `getCellValueAsString`: a tagged cell to its canonical string. */
module Coercion {
  import opened Wrappers
  import opened JavaStrings
  import opened Workbooks

  /** The cells whose text comes from the display formatter rather than from the cell itself. */
  predicate UsesFormatter(c: Option<Cell>) {
    c.Some? && (c.value.NumericCell? || (c.value.FormulaCell? && c.value.result.EvNumeric?))
  }

  /** The cells that always coerce to the empty string. */
  predicate AlwaysEmpty(c: Option<Cell>) {
    || c.None?
    || c.value.BlankCell?
    || c.value.ErrorCell?
    || (c.value.FormulaCell? && c.value.result.EvError?)
  }

  /** The raw text a text-valued cell carries before trimming. */
  predicate HasText(c: Option<Cell>) {
    c.Some? && (c.value.StringCell? || (c.value.FormulaCell? && c.value.result.EvString?))
  }

  function RawText(c: Option<Cell>): string
    requires HasText(c)
  {
    if c.value.StringCell? then c.value.text else c.value.result.text
  }

  /**
    Coerces one cell. Numeric cells go to the formatter whether or not they
    are date-formatted.
   */
  function Coerce(c: Option<Cell>, fmt: Formatter): (r: string)
    ensures AlwaysEmpty(c) ==> r == ""
    ensures UsesFormatter(c) ==> r == fmt(c.value)
    ensures HasText(c) ==> r == Trim(RawText(c))
    ensures c.Some? && c.value.BooleanCell? ==> (r == "true" <==> c.value.flag) && (r == "false" <==> !c.value.flag)
    ensures !UsesFormatter(c) ==> IsTrimmed(r)
  {
    match c
    case None => ""
    case Some(cell) =>
      match cell
      case StringCell(text) => Trim(text)
      case NumericCell(_, dateFormatted) =>
        if dateFormatted then fmt(cell) else fmt(cell)
      case BooleanCell(flag) => BoolText(flag)
      case FormulaCell(_, _) => CoerceFormula(cell, fmt)
      case BlankCell => ""
      case ErrorCell(_) => ""
  }

  /**
    A formula cell, by the kind of its evaluated result. A numeric result is
    formatted through the formula cell itself, as the source passes `cell`
    and not the evaluated value to the formatter.
   */
  function CoerceFormula(cell: Cell, fmt: Formatter): (r: string)
    requires cell.FormulaCell?
    ensures cell.result.EvError? ==> r == ""
    ensures cell.result.EvNumeric? ==> r == fmt(cell)
    ensures cell.result.EvString? ==> r == Trim(cell.result.text)
    ensures cell.result.EvBoolean? ==> (r == "true" <==> cell.result.flag) && (r == "false" <==> !cell.result.flag)
    ensures !cell.result.EvNumeric? ==> IsTrimmed(r)
  {
    match cell.result
    case EvString(text) => Trim(text)
    case EvNumeric(_) => fmt(cell)
    case EvBoolean(flag) => BoolText(flag)
    case EvError(_) => ""
  }

  /**
    The coerced value is empty exactly for the always-empty kinds, for text
    that is nothing but trim-space, and when the formatter renders nothing.
   */
  lemma CoerceEmptyIff(c: Option<Cell>, fmt: Formatter)
    ensures Coerce(c, fmt) == "" <==>
              || AlwaysEmpty(c)
              || (HasText(c) && AllTrimSpace(RawText(c)))
              || (UsesFormatter(c) && fmt(c.value) == "")
  {
    if HasText(c) {
      TrimEmptyIff(RawText(c));
    }
  }

  /**
    Every `.trim()` the loader applies on top of a coercion is a no-op unless
    the value came from the formatter.
   */
  lemma CoerceTrimStable(c: Option<Cell>, fmt: Formatter)
    requires !UsesFormatter(c)
    ensures Trim(Coerce(c, fmt)) == Coerce(c, fmt)
  {
    TrimKeepsTrimmed(Coerce(c, fmt));
  }
}
