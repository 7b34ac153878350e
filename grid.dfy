/** The playing field: a fixed grid of integer cells without wrap-around. */
module Grid {
  const Width: int := 20
  const Height: int := 20

  /** A grid cell, or a unit direction vector: both are integer pairs in the game. */
  datatype Cell = Cell(x: int, y: int)

  function Add(a: Cell, b: Cell): Cell {
    Cell(a.x + b.x, a.y + b.y)
  }

  function Opposite(d: Cell): Cell {
    Cell(-d.x, -d.y)
  }

  const UpVec: Cell := Cell(0, -1)
  const DownVec: Cell := Cell(0, 1)
  const LeftVec: Cell := Cell(-1, 0)
  const RightVec: Cell := Cell(1, 0)

  predicate IsDirection(d: Cell) {
    d == UpVec || d == DownVec || d == LeftVec || d == RightVec
  }

  predicate OnGrid(c: Cell) {
    0 <= c.x < Width && 0 <= c.y < Height
  }

  /** Every cell of the grid appears among `cells`. */
  ghost predicate GridFull(cells: seq<Cell>) {
    forall c :: OnGrid(c) ==> c in cells
  }

  /** `a` comes strictly before `b` when the grid is scanned column by column (x outer, y inner). */
  predicate XMajorBefore(a: Cell, b: Cell) {
    a.x < b.x || (a.x == b.x && a.y < b.y)
  }
}
