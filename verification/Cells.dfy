/**
 The value types the Snake game state is built from: positions, directions,
 cell values, and the rectangular grid of cell values with its single-cell
 update.
 */
module Cells {

  /** A (row, column) coordinate, compared structurally. Off-grid
      coordinates are representable: bounds are checked separately. */
  datatype Position = Position(row: int, column: int)

  /** The four headings the snake can take. No translation vectors are
      attached: the game state only stores and replaces the heading. */
  datatype Direction = Up | Down | Left | Right

  /** What a cell holds. `Empty` comes first, so a freshly allocated grid is
      all `Empty`; `Outside` is never stored and only reports off-grid
      positions. */
  datatype GridValue = Empty | Snake | Food | Outside

  /** No position occurs twice. */
  predicate Distinct(ps: seq<Position>) {
    forall a, b :: 0 <= a < b < |ps| ==> ps[a] != ps[b]
  }

  /** A grid is stored row by row. */
  type Grid = seq<seq<GridValue>>

  /** `g` is a `rows` by `columns` rectangle. */
  predicate Shaped(g: Grid, rows: nat, columns: nat) {
    |g| == rows && forall i :: 0 <= i < |g| ==> |g[i]| == columns
  }

  /** `p` indexes a cell of `g`. */
  predicate Indexes(g: Grid, p: Position) {
    0 <= p.row < |g| && 0 <= p.column < |g[p.row]|
  }

  /** The set of positions of a `rows` by `columns` grid. */
  function CellsOf(rows: nat, columns: nat): set<Position> {
    set i, j | 0 <= i < rows && 0 <= j < columns :: Position(i, j)
  }

  /** A freshly allocated grid: every cell holds the default value. */
  function BlankGrid(rows: nat, columns: nat): (g: Grid)
    ensures Shaped(g, rows, columns)
    ensures forall i, j :: 0 <= i < rows && 0 <= j < columns ==> g[i][j] == Empty
  {
    seq(rows, _ => seq(columns, _ => Empty))
  }

  /** `g` with the cell at `p` overwritten by `v`: the shape is kept, the
      cell at `p` reads `v` and every other cell reads as before. */
  function SetCell(g: Grid, p: Position, v: GridValue): (g': Grid)
    requires Indexes(g, p)
    ensures |g'| == |g|
    ensures forall i :: 0 <= i < |g| ==> |g'[i]| == |g[i]|
    ensures g'[p.row][p.column] == v
    ensures forall i, j :: 0 <= i < |g| && 0 <= j < |g[i]| && (i != p.row || j != p.column) ==> g'[i][j] == g[i][j]
  {
    g[p.row := g[p.row][p.column := v]]
  }
}
