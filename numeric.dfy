/** Numeric coercion as the transform stage performs it:
    `pd.to_numeric(column, errors="coerce")`, optionally followed by
    `.astype("Int64")`, one cell at a time. */
module Numeric {
  import opened Wrappers
  import opened Text
  import opened Decimals
  import opened Frames

  /** `pd.to_numeric(errors="coerce")` of one cell: the number it holds, or
      `None` (a missing value) when it holds none. Never fails. */
  function ToNumeric(c: Cell): (r: Option<Decimal>)
    ensures c.Missing? ==> r.None?
    ensures c.Int? ==> r == Some(Decimal(c.i, 0))
    ensures c.Dec? ==> r == Some(c.d)
    ensures c.Text? ==> r == ParseDecimal(c.s)
  {
    match c
    case Missing(_) => None
    case Int(i) => Some(Decimal(i, 0))
    case Dec(d) => Some(d)
    case Text(s) => ParseDecimal(s)
    case Day(_) => None
  }

  /** A cell of an integer column after `to_numeric(...).astype("Int64")`:
      `pd.NA` when no number, the whole number otherwise; a number with a
      fractional part makes the cast raise. */
  function IntCell(c: Cell): (r: Result<Cell, Crash>)
    ensures r.Ok? <==> (ToNumeric(c).None? || IsWhole(ToNumeric(c).value))
    ensures r.Ok? ==> r.value == Missing(NA) || r.value.Int?
    ensures r.Err? ==> r.error == NotWholeNumber
  {
    match ToNumeric(c)
    case None => Ok(Missing(NA))
    case Some(d) => if IsWhole(d) then Ok(Int(WholeValue(d))) else Err(NotWholeNumber)
  }

  /** The integer a coerced cell holds is the number the cell held. */
  lemma IntCellValue(c: Cell)
    requires IntCell(c).Ok? && ToNumeric(c).Some?
    ensures var d := ToNumeric(c).value;
      IntCell(c).value.Int? && IntCell(c).value.i * Pow10(d.scale) == d.mantissa
  {
  }

  /** A cell of a decimal column after `to_numeric`: `NaN` when no number. */
  function DecimalCell(c: Cell): (r: Cell)
    ensures r == Missing(NaN) || r.Dec?
    ensures r.Dec? <==> ToNumeric(c).Some?
    ensures r.Dec? ==> r.d == ToNumeric(c).value
  {
    match ToNumeric(c)
    case None => Missing(NaN)
    case Some(d) => Dec(d)
  }

  /** Coercing a cell that is already coerced changes nothing. */
  lemma IntCellIdempotent(c: Cell)
    requires IntCell(c).Ok?
    ensures IntCell(IntCell(c).value) == IntCell(c)
  {
  }

  /** A whole number written as digits becomes that integer. */
  lemma IntCellOfDigits(negative: bool, digits: string)
    requires AllDigits(digits) && |digits| > 0
    ensures IntCell(Text(SignText(negative) + digits)) == Ok(Int(FromParts(negative, digits, "").mantissa))
  {
    ParseInteger(negative, digits);
    WholeOfScaleZero(FromParts(negative, digits, ""));
  }

  /** A count written with a minus sign becomes a negative integer. */
  lemma IntCellOfNegative(digits: string)
    requires AllDigits(digits) && |digits| > 0
    ensures IntCell(Text(SignText(true) + digits)) == Ok(Int(-(DigitsValue(digits) as int)))
  {
    IntCellOfDigits(true, digits);
    IntegerParts(true, digits);
  }
}
