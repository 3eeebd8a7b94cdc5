/**
 * Spreadsheet cell values as the Python code receives them from openpyxl or
 * pandas, and the three Python built-ins the code applies to them: `str()`,
 * truthiness (`if cell.value`) and `pd.isna`.
 */
module Cells {
  import opened Text

  /**
   * A cell value.  `Empty` is `None` and pandas' `NaN`/`NaT`.  A float keeps
   * its value and its Python `repr`; a date keeps its instant, in
   * microseconds since the epoch, and its `str()` rendering.
   */
  datatype Cell =
    | Empty
    | Str(s: string)
    | Int(n: int)
    | Bool(b: bool)
    | Float(x: real, repr: string)
    | Date(micros: int, repr: string)

  /** `str(v)`. */
  function Render(c: Cell): string {
    match c
    case Empty => "None"
    case Str(s) => s
    case Int(n) => IntToString(n)
    case Bool(b) => if b then "True" else "False"
    case Float(_, repr) => repr
    case Date(_, repr) => repr
  }

  /** `bool(v)`: `None`, `""`, `0`, `False` and `0.0` are false, everything else true. */
  predicate Truthy(c: Cell) {
    match c
    case Empty => false
    case Str(s) => s != []
    case Int(n) => n != 0
    case Bool(b) => b
    case Float(x, _) => x != 0.0
    case Date(_, _) => true
  }

  /** `pd.isna(v)` / `pd.notna(v)` negated. */
  predicate IsNa(c: Cell) {
    c.Empty?
  }
}
