/** Values shared by the sheet parser and the route matcher: the cells that
    openpyxl hands over, the dictionaries built from them, and Python's
    truthiness of a cell. */
module Cells {

  datatype Option<+T> = None | Some(value: T)

  /** One spreadsheet cell as read with `values_only=True`: `None`, a string,
      or a number (Python `int` and `float` alike, as an exact real). */
  datatype Cell = Empty | Str(s: string) | Num(n: real)

  /** Python truthiness: `None`, `""` and `0` are false, everything else true.
      This is what both `any(row)` and `if cell` test. */
  predicate Falsy(c: Cell) {
    c == Empty || c == Str("") || c == Num(0.0)
  }

  /** A route record: the dictionary `dict(zip(headers, row))`. Keys are the
      header cells, values the row's cells. */
  type Record = map<Cell, Cell>

  /** `record.get(key)`: the stored value, or `None` when the key is absent. */
  function Get(rec: Record, key: Cell): Cell {
    if key in rec then rec[key] else Empty
  }

  function Min(a: nat, b: nat): nat {
    if a < b then a else b
  }

  /** The column names the core reads. */
  const RouteNameField: Cell := Str("Route name")
  const DistanceField: Cell := Str("Distance (mi)")
  const WindDirectionField: Cell := Str("Ideal Wind Direction")
  const NotesField: Cell := Str("Notes")
}
