/** Class Board: the 6x6 grid of markers and the fleet behind it. */
module Boards {
  import opened Geometry
  import opened Ships
  import opened Fleet

  /** CELL_EMPTY '0', CELL_SHIP '■', CELL_HIT 'X', CELL_NOT_HIT 'T'. */
  datatype Mark = Empty | ShipMark | HitMark | MissMark

  /** Rows of markers; row `y - 1`, column `x - 1` shows Cell(x, y). */
  type Field = seq<seq<Mark>>

  datatype Board = Board(field: Field, ships: seq<Ship>)

  /** Height rows of Width markers each. */
  predicate WellFormed(f: Field) {
    |f| == Height && forall r :: 0 <= r < |f| ==> |f[r]| == Width
  }

  /** The marker shown for cell `c`. */
  function At(f: Field, c: Cell): Mark
    requires WellFormed(f) && OnGrid(c)
  {
    f[c.y - 1][c.x - 1]
  }

  /** `field[c.y-1][c.x-1] = m`: changes the marker of `c` and no other. */
  function SetMark(f: Field, c: Cell, m: Mark): (r: Field)
    requires WellFormed(f) && OnGrid(c)
    ensures WellFormed(r)
    ensures At(r, c) == m
    ensures forall d :: OnGrid(d) && d != c ==> At(r, d) == At(f, d)
  {
    f[c.y - 1 := f[c.y - 1][c.x - 1 := m]]
  }

  /** Sets the marker of every cell in `cells` to `m`. */
  function Paint(f: Field, cells: seq<Cell>, m: Mark): (r: Field)
    requires WellFormed(f) && forall i :: 0 <= i < |cells| ==> OnGrid(cells[i])
    ensures WellFormed(r)
    ensures forall d :: OnGrid(d) ==> At(r, d) == if d in cells then m else At(f, d)
    decreases |cells|
  {
    if |cells| == 0 then f else Paint(SetMark(f, cells[0], m), cells[1..], m)
  }

  /** Every cell of every ship is on the grid. */
  predicate FleetOnGrid(ships: seq<Ship>) {
    forall k, i :: 0 <= k < |ships| && 0 <= i < ships[k].Size() ==> OnGrid(Cells(ships[k])[i])
  }

  /** Board.__place_ships: marks the cells of every ship with the ship marker. */
  function PlaceShips(f: Field, ships: seq<Ship>): (r: Field)
    requires WellFormed(f) && FleetOnGrid(ships)
    ensures WellFormed(r)
    ensures forall d :: OnGrid(d) ==> At(r, d) == if Occupied(ships, d) then ShipMark else At(f, d)
    decreases |ships|
  {
    if |ships| == 0 then f
    else
      var f' := Paint(f, Cells(ships[0]), ShipMark);
      var r := PlaceShips(f', ships[1..]);
      assert forall d :: Occupied(ships, d) <==> d in Cells(ships[0]) || Occupied(ships[1..], d) by {
        forall d { OccupiedCons(ships, d); }
      }
      r
  }

  /** A 6x6 grid of empty markers. */
  function EmptyField(): (r: Field)
    ensures WellFormed(r)
    ensures forall d :: OnGrid(d) ==> At(r, d) == Empty
  {
    seq(Height, _ => seq(Width, _ => Empty))
  }

  /** Board(ships, show_ships): an empty grid, with the ships' cells shown
      as ship markers only when `showShips` is set. */
  function NewBoard(ships: seq<Ship>, showShips: bool): (b: Board)
    requires showShips ==> FleetOnGrid(ships)
    ensures b.ships == ships && WellFormed(b.field)
    ensures forall d :: OnGrid(d) ==>
      At(b.field, d) == if showShips && Occupied(ships, d) then ShipMark else Empty
  {
    if showShips then Board(PlaceShips(EmptyField(), ships), ships)
    else Board(EmptyField(), ships)
  }

  /** Board.hit(cell): resolves the shot against the fleet and shows a hit
      marker where a ship was struck and a miss marker otherwise; every other
      marker stays. */
  function BoardHit(b: Board, c: Cell): (r: Board)
    requires WellFormed(b.field) && OnGrid(c)
    ensures WellFormed(r.field)
    ensures r.ships == FleetHit(b.ships, c).1
    ensures At(r.field, c) == if Occupied(b.ships, c) then HitMark else MissMark
    ensures forall d :: OnGrid(d) && d != c ==> At(r.field, d) == At(b.field, d)
  {
    var (struck, ships) := FleetHit(b.ships, c);
    Board(SetMark(b.field, c, if struck then HitMark else MissMark), ships)
  }

  /** Board.killed: the whole fleet is sunk. From then on the fleet takes
      no further damage from any shot. */
  function BoardKilled(b: Board): (r: bool)
    ensures r ==> forall c :: FleetHit(b.ships, c).1 == b.ships
  {
    FleetKilled(b.ships)
  }
}
