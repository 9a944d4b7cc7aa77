/** The table a CSV reader hands over, and the field normaliser that turns one raw cell into a number
    or the missing-value marker. */
module Cells {
  import opened Wrappers
  import opened Strings
  import opened Numbers

  /** One cell of a freshly read table: text, a number the reader already recognised, or the
      missing-value marker (`NaN`, which the reader also produces for a blank field). */
  datatype Cell = Text(s: string) | Num(x: real) | NaN

  type Row = seq<Cell>

  /** A table with a fixed number of columns. */
  datatype Table = Table(columns: nat, rows: seq<Row>)

  predicate WellFormed(t: Table) {
    forall i :: 0 <= i < |t.rows| ==> |t.rows[i]| == t.columns
  }

  /** Renaming the columns fails when the table does not have as many columns as names. */
  datatype LoadError = ColumnCountMismatch(expected: nat, found: nat)

  /** The placeholder the source tables use for "no data": a single en dash. */
  const EN_DASH: string := "\U{2013}"

  /** The number a cleaned cell holds, `None` for the missing-value marker. */
  function Value(c: Cell): (r: Option<real>)
    ensures r.Some? <==> c.Num?
  {
    if c.Num? then Some(c.x) else None
  }

  /** Numeric conversion that never fails: numeric text becomes its number, every other text the
      missing-value marker; numbers and missing values are kept. */
  function ToNumeric(c: Cell): (r: Cell)
    ensures !r.Text?
    ensures !c.Text? ==> r == c
    ensures c.Text? ==> Value(r) == ParseDecimal(c.s)
  {
    match c
    case Text(s) => (match ParseDecimal(s) case Some(v) => Num(v) case None => NaN)
    case _ => c
  }

  /** Step 1: a cell that is exactly the en dash or empty becomes missing. */
  function ReplacePlaceholder(c: Cell): Cell {
    if c == Text(EN_DASH) || c == Text("") then NaN else c
  }

  /** Step 2: every `$` and `,` is removed from text. */
  function RemoveCurrency(c: Cell): Cell {
    if c.Text? then Text(StripCurrency(c.s)) else c
  }

  /** The field normaliser for a numeric column: placeholders become missing, currency symbols
      and thousands separators go, and the rest is converted, unparseable text becoming missing. */
  function NormalizeNumeric(c: Cell): (r: Cell)
    ensures !r.Text?
    ensures c == Text(EN_DASH) || c == Text("") ==> r == NaN
    ensures !c.Text? ==> r == c
    ensures c.Text? && c.s != EN_DASH ==> Value(r) == ParseDecimal(StripCurrency(c.s))
  {
    ToNumeric(RemoveCurrency(ReplacePlaceholder(c)))
  }

  /** A normalised cell is a fixed point: cleaning a column twice changes nothing. */
  lemma NormalizeIdempotent(c: Cell)
    ensures NormalizeNumeric(NormalizeNumeric(c)) == NormalizeNumeric(c)
  {
  }

  /** Text that reads as digits once its `$` and `,` are gone is that number, however the
      symbols were placed (`"$2,000"`, `"2,000"`, `"$2000"`). */
  lemma NormalizeCurrencyAmount(s: string, n: nat)
    requires StripCurrency(s) == Digits(n)
    ensures NormalizeNumeric(Text(s)) == Num(n as real)
  {
    assert StripCurrency(EN_DASH) == EN_DASH;
    assert !IsDigit(EN_DASH[0]);
    DigitsRoundTrip(n);
  }

  /** Text with a letter in it (after the symbols are removed) becomes missing instead of failing. */
  lemma NormalizeRejectsWords(s: string, i: nat)
    requires i < |StripCurrency(s)|
    requires 'A' <= StripCurrency(s)[i] <= 'z'
    ensures NormalizeNumeric(Text(s)) == NaN
  {
  }
}
