/** A CSV export after tokenising: one record per data line, mapping each
    header to that line's cell. Tokenising itself (quoting, empty lines) is
    the CSV library's business and happens before this model starts. */
module Csv {
  import opened Wrappers
  import opened Text
  import opened Parse

  type Record = map<string, string>

  /** The cell under `column`, or `None` when the export has no such column. */
  function Cell(rec: Record, column: string): Option<string> {
    if column in rec then Some(rec[column]) else None
  }

  /** `String(row.Column ?? '').trim()`: the trimmed cell, "" when missing. */
  function TextCell(rec: Record, column: string): (t: string)
    ensures column !in rec ==> t == ""
    ensures column in rec ==> t == Trim(rec[column])
  {
    Trim(Cell(rec, column).GetOr(""))
  }

  /** `toInt(row.Column)`: the cell read leniently, 0 when it is missing or
      not a number. */
  function IntCell(rec: Record, column: string): (n: int)
    ensures column !in rec ==> n == 0
    ensures column in rec && NumberValue(rec[column]).NaN? ==> n == 0
    ensures column in rec && |rec[column]| > 0 && AllDigits(rec[column]) ==> n == DigitsValue(rec[column])
  {
    DigitCell(rec, column);
    ToInt(Cell(rec, column), 0)
  }

  /** A cell of digits reads as its decimal value. */
  lemma DigitCell(rec: Record, column: string)
    ensures column in rec && |rec[column]| > 0 && AllDigits(rec[column]) ==> ToInt(Cell(rec, column), 0) == DigitsValue(rec[column])
  {
    if column in rec && |rec[column]| > 0 && AllDigits(rec[column]) {
      ToIntOfDigits(rec[column], 0);
    }
  }
}
