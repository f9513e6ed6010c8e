/**
 A table cell as the extraction library hands it over: either no value
 (Python's `None`) or a string. Both `clean_cell` variants receive cells of
 this shape; the tagged union replaces the runtime tests `not value` and
 `isinstance(value, str)`.
 */
module Cells {

  datatype Cell = Absent | Text(s: string)

  /** Python truthiness of a cell: `None` and `""` are false. */
  predicate Falsy(c: Cell) {
    c.Absent? || c.s == ""
  }

  /** A table as a list of rows, each a list of cells. */
  type Table = seq<seq<Cell>>

  /** pandas' cell-wise `applymap(f)` / `map(f)`: `f` applied to every cell,
      the table's shape kept. */
  function MapTable(f: Cell -> Cell, t: Table): (r: Table)
    ensures |r| == |t|
    ensures forall i :: 0 <= i < |t| ==> |r[i]| == |t[i]|
    ensures forall i, j :: 0 <= i < |t| && 0 <= j < |t[i]| ==> r[i][j] == f(t[i][j])
  {
    if t == [] then [] else [MapRow(f, t[0])] + MapTable(f, t[1..])
  }

  function MapRow(f: Cell -> Cell, row: seq<Cell>): (r: seq<Cell>)
    ensures |r| == |row|
    ensures forall j :: 0 <= j < |row| ==> r[j] == f(row[j])
  {
    if row == [] then [] else [f(row[0])] + MapRow(f, row[1..])
  }
}
