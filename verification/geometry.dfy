/** Positions on the playing field and the field's fixed dimensions
    (class Cell, and Board.width() / Board.height()). */
module Geometry {

  /** A 1-based position: column `x`, row `y`. Equality is component-wise,
      as Cell.__eq__ compares both coordinates. */
  datatype Cell = Cell(x: int, y: int)

  /** Cell.__add__: the offset of `a` by `b`, used to step along a ship.
      Only the zero offset leaves a cell in place, and the result is the
      cell itself or a neighbour exactly when the offset is at most one
      unit step. */
  function Add(a: Cell, b: Cell): (r: Cell)
    ensures r == a <==> b == Cell(0, 0)
    ensures Near(a, r) <==> Near(Cell(0, 0), b)
  {
    Cell(a.x + b.x, a.y + b.y)
  }

  /** Board.width() and Board.height(). */
  const Width: int := 6
  const Height: int := 6

  /** The bounds test of Ship.on_board for one cell. */
  predicate OnGrid(c: Cell) {
    1 <= c.x <= Width && 1 <= c.y <= Height
  }

  function Dist(a: int, b: int): nat {
    if a < b then b - a else a - b
  }

  /** `a` and `b` are the same cell or share an edge. */
  predicate Near(a: Cell, b: Cell) {
    Dist(a.x, b.x) + Dist(a.y, b.y) <= 1
  }
}
