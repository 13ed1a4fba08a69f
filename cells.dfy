/** Raw spreadsheet cells and rows, as the tabular decoder hands them to the analyzer. */
module Cells {
  import opened Wrappers
  import opened JsBuiltins

  /** A cell value: absent (`undefined` or `null`), text, or a number (kept as an exact real). */
  datatype Cell = Blank | Text(text: string) | Number(num: real)

  /** A row maps column names to cells; a column the row lacks reads as `Blank`. */
  type RawRow = map<string, Cell>

  /** `row[column]`. */
  function Field(row: RawRow, column: string): Cell {
    if column in row then row[column] else Blank
  }

  /** JavaScript falsiness of a cell: `undefined`, `null`, the empty string and the number 0. */
  predicate Falsy(c: Cell) {
    c.Blank? || c == Text("") || c == Number(0.0)
  }

  /** `cell?.toString().toLowerCase()`: `undefined` (None) for an absent cell. */
  function LowerText(c: Cell): (r: Option<string>)
    ensures r.None? <==> c.Blank?
    ensures c.Number? ==> r.value != ""
  {
    match c
    case Blank => None
    case Text(s) => Some(Lower(s))
    case Number(x) => Some(Lower(NumberText(x)))
  }
}
