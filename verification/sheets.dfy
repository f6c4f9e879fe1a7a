/**
 * Spreadsheet contents as the pandas readers deliver them: a table of cells,
 * each missing (NaN) or holding a string or an integer, addressed by
 * position.
 */
module Sheets {

  /** One cell of a sheet. */
  datatype Cell = Missing | Text(text: string) | Number(n: int)

  /**
   * A sheet as `pd.read_excel` returns it: `width` is `df.shape[1]`; a row
   * shorter than the widest one is padded with missing cells.
   */
  datatype Table = Table(width: nat, rows: seq<seq<Cell>>)

  /** What reading one file gives: its sheet, or the reason the reader raised. */
  datatype ReadOutcome = Sheet(table: Table) | Unreadable(reason: string)

  /** The cell of `row` in column `j` (missing past the row's end). */
  function CellAt(row: seq<Cell>, j: nat): Cell
  {
    if j < |row| then row[j] else Missing
  }

  /** `df.iloc[:, j]`: column `j`, top to bottom. */
  function ColumnCells(t: Table, j: nat): seq<Cell>
  {
    seq(|t.rows|, i requires 0 <= i < |t.rows| => CellAt(t.rows[i], j))
  }

  /** pandas' `notna` test, the cells that `dropna` keeps. */
  predicate IsPresent(c: Cell)
  {
    !c.Missing?
  }

  function Digit(d: nat): char
    requires d < 10
  {
    "0123456789"[d]
  }

  /** The decimal digits of `n`, most significant first. */
  function NaturalText(n: nat): string
  {
    if n < 10 then [Digit(n)] else NaturalText(n / 10) + [Digit(n % 10)]
  }

  /** Python's `str(n)` for an integer. */
  function IntText(n: int): string
  {
    if n < 0 then "-" + NaturalText(-n) else NaturalText(n)
  }

  /** `Series.astype(str)` applied to one cell; NaN becomes the text "nan". */
  function CellText(c: Cell): string
  {
    match c
    case Missing => "nan"
    case Text(s) => s
    case Number(n) => IntText(n)
  }
}
