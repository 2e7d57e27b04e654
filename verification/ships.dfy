/** Class Ship: a straight run of cells with one damage flag per segment. */
module Ships {
  import opened Geometry
  import opened Outcomes

  /** Ship.TYPE_HORIZONTAL (0) and Ship.TYPE_VERTICAL (1). */
  datatype Kind = Horizontal | Vertical

  /** A placed ship. Its size is the number of damage flags, since the
      constructor creates `[False] * size`; its cells follow from the
      origin, the kind and the size. */
  datatype Ship = Ship(kind: Kind, origin: Cell, hits: seq<bool>) {
    function Size(): nat { |hits| }
  }

  /** The unit step between consecutive segments. */
  function Step(k: Kind): Cell {
    if k == Vertical then Cell(0, 1) else Cell(1, 0)
  }

  /** Closed form of the `i`-th segment of a ship that starts at `origin`. */
  function Segment(origin: Cell, k: Kind, i: int): Cell {
    if k == Vertical then Cell(origin.x, origin.y + i) else Cell(origin.x + i, origin.y)
  }

  /** The loop of the `pos` setter: `n` cells from `start`, each one step
      further along the axis of `k`. */
  function Run(start: Cell, k: Kind, n: nat): (r: seq<Cell>)
    ensures |r| == n
    ensures n > 0 ==> r[0] == start
    ensures forall i :: 0 <= i < n ==> r[i] == Segment(start, k, i)
    decreases n
  {
    if n == 0 then [] else [start] + Run(Add(start, Step(k)), k, n - 1)
  }

  /** Ship.cells once `pos` has been set. */
  function Cells(s: Ship): seq<Cell> {
    Run(s.origin, s.kind, s.Size())
  }

  /** No segment has been hit yet. */
  predicate Fresh(s: Ship) {
    forall i :: 0 <= i < |s.hits| ==> !s.hits[i]
  }

  /** `Ship(size, t)` followed by `ship.pos = origin`. */
  function NewShip(size: nat, t: int, origin: Cell): (r: Result<Ship>)
    ensures r.Err? <==> t != 0 && t != 1
    ensures r.Err? ==> r.error == BadShipType
    ensures r.Ok? ==> r.value.Size() == size && r.value.origin == origin && Fresh(r.value)
    ensures r.Ok? ==> (r.value.kind == Vertical <==> t == 1)
  {
    if t == 0 then Ok(Ship(Horizontal, origin, seq(size, _ => false)))
    else if t == 1 then Ok(Ship(Vertical, origin, seq(size, _ => false)))
    else Err(BadShipType)
  }

  /** Two distinct segments of one ship never share a cell. */
  lemma CellsDistinct(s: Ship, i: int, j: int)
    requires 0 <= i < s.Size() && 0 <= j < s.Size() && i != j
    ensures Cells(s)[i] != Cells(s)[j]
  {
  }

  /** Ship.killed: every segment has been hit. A further shot at a killed
      ship leaves it as it is. */
  function Killed(s: Ship): (r: bool)
    ensures r ==> forall c :: Hit(s, c).1 == s
  {
    var all := forall i :: 0 <= i < |s.hits| ==> s.hits[i];
    assert all ==> forall c :: Hit(s, c).1 == s by {
      if all {
        forall c ensures Hit(s, c).1 == s {
          assert Hit(s, c).1.hits == s.hits;
        }
      }
    }
    all
  }

  // ---------------------------------------------------------------------
  // Bounds and adjacency checks
  // ---------------------------------------------------------------------

  /** The loop of Ship.on_board: true when no cell is outside the grid. */
  function AllOnGrid(cells: seq<Cell>): (r: bool)
    ensures r <==> forall i :: 0 <= i < |cells| ==> OnGrid(cells[i])
  {
    if |cells| == 0 then true else OnGrid(cells[0]) && AllOnGrid(cells[1..])
  }

  /** Ship.on_board: refuses when some cell has x < 1, y < 1, x > 6 or y > 6. */
  function OnBoard(s: Ship): (r: Outcome)
    ensures r.Pass? <==> forall i :: 0 <= i < s.Size() ==> OnGrid(Cells(s)[i])
    ensures r.Fail? ==> r.error == OffBoard
  {
    if AllOnGrid(Cells(s)) then Pass else Fail(OffBoard)
  }

  /** A straight ship lies on the grid exactly when both of its ends do. */
  lemma OnBoardIffEndsOnGrid(s: Ship)
    requires s.Size() >= 1
    ensures OnBoard(s).Pass? <==> OnGrid(s.origin) && OnGrid(Segment(s.origin, s.kind, s.Size() - 1))
  {
    var c := Cells(s);
    if OnGrid(s.origin) && OnGrid(Segment(s.origin, s.kind, s.Size() - 1)) {
      forall i | 0 <= i < s.Size() ensures OnGrid(c[i]) {
        assert c[i] == Segment(s.origin, s.kind, i);
      }
    } else {
      assert !OnGrid(c[0]) || !OnGrid(c[s.Size() - 1]);
    }
  }

  /** A closed rectangle given by two opposite corners (Ship.area's pair). */
  datatype Box = Box(lo: Cell, hi: Cell)

  /** Ship.area: the box from one step before the first cell to one step
      after the last, in both directions. */
  function Area(s: Ship): (r: Box)
    requires s.Size() >= 1
    ensures forall i :: 0 <= i < s.Size() ==> Blocked(r, Cells(s)[i])
  {
    var n := s.Size();
    var r := Box(Add(Cells(s)[0], Cell(-1, -1)), Add(Cells(s)[n - 1], Cell(1, 1)));
    assert forall i :: 0 <= i < n ==> Blocked(r, Cells(s)[i]) by {
      forall i | 0 <= i < n ensures Blocked(r, Cells(s)[i]) {
        assert Cells(s)[i] == Segment(s.origin, s.kind, i);
        assert Cells(s)[n - 1] == Segment(s.origin, s.kind, n - 1);
      }
    }
    r
  }

  /** The test of one cell in Ship.in_area: inside the closed box and not
      one of its four corners. */
  predicate Blocked(b: Box, p: Cell) {
    var c3 := Cell(b.lo.x, b.hi.y);
    var c4 := Cell(b.hi.x, b.lo.y);
    && b.lo.x <= p.x <= b.hi.x
    && b.lo.y <= p.y <= b.hi.y
    && !(p == b.lo || p == b.hi || p == c3 || p == c4)
  }

  /** The loop of Ship.in_area. */
  function AnyBlocked(cells: seq<Cell>, b: Box): (r: bool)
    ensures r <==> exists i :: 0 <= i < |cells| && Blocked(b, cells[i])
  {
    if |cells| == 0 then false else Blocked(b, cells[0]) || AnyBlocked(cells[1..], b)
  }

  /** Ship.in_area(area): refuses when one of this ship's cells lies in the
      box `b` without being one of its corners. */
  function InArea(s: Ship, b: Box): (r: Outcome)
    ensures r.Fail? <==> exists i :: 0 <= i < s.Size() && Blocked(b, Cells(s)[i])
    ensures r.Fail? ==> r.error == Adjacent
  {
    if AnyBlocked(Cells(s), b) then Fail(Adjacent) else Pass
  }

  /** A cell blocked by a ship's area lies on the ship or next to one of
      its cells: the ship's cell nearest to it. */
  lemma BlockedGivesNear(s: Ship, p: Cell) returns (i: int)
    requires s.Size() >= 1 && Blocked(Area(s), p)
    ensures 0 <= i < s.Size() && Near(Cells(s)[i], p)
  {
    var n, o := s.Size(), s.origin;
    if s.kind == Horizontal {
      i := if p.x - o.x < 0 then 0 else if p.x - o.x > n - 1 then n - 1 else p.x - o.x;
    } else {
      i := if p.y - o.y < 0 then 0 else if p.y - o.y > n - 1 then n - 1 else p.y - o.y;
    }
    assert Cells(s)[i] == Segment(o, s.kind, i);
  }

  /** A cell on a ship or sharing an edge with one of its cells is blocked
      by the ship's area. */
  lemma NearGivesBlocked(s: Ship, p: Cell, j: int)
    requires s.Size() >= 1 && 0 <= j < s.Size() && Near(Cells(s)[j], p)
    ensures Blocked(Area(s), p)
  {
    var n := s.Size();
    assert Cells(s)[j] == Segment(s.origin, s.kind, j);
    assert Cells(s)[n - 1] == Segment(s.origin, s.kind, n - 1);
  }

  /** For a straight ship, the area with its corners removed is exactly the
      set of cells that are on the ship or share an edge with it. */
  lemma BlockedIffNear(s: Ship, p: Cell)
    requires s.Size() >= 1
    ensures Blocked(Area(s), p) <==> exists i :: 0 <= i < s.Size() && Near(Cells(s)[i], p)
  {
    if Blocked(Area(s), p) {
      var i := BlockedGivesNear(s, p);
    }
    if exists i :: 0 <= i < s.Size() && Near(Cells(s)[i], p) {
      var j :| 0 <= j < s.Size() && Near(Cells(s)[j], p);
      NearGivesBlocked(s, p, j);
    }
  }

  /** Geometric reference for the placement rule: some cell of `a` and some
      cell of `b` coincide or share an edge. */
  predicate Conflict(a: Ship, b: Ship) {
    Touch(Cells(a), Cells(b))
  }

  /** Some cell of `p` and some cell of `q` coincide or share an edge. */
  predicate Touch(p: seq<Cell>, q: seq<Cell>) {
    exists i, j :: 0 <= i < |p| && 0 <= j < |q| && Near(p[i], q[j])
  }

  /** Touch does not depend on the order of its arguments. */
  lemma TouchFlip(p: seq<Cell>, q: seq<Cell>)
    requires Touch(p, q)
    ensures Touch(q, p)
  {
    var i, j := TouchWitness(p, q);
  }

  /** A pair of touching cells, the one from `q` first. */
  lemma TouchWitness(p: seq<Cell>, q: seq<Cell>) returns (i: int, j: int)
    requires Touch(p, q)
    ensures 0 <= i < |p| && 0 <= j < |q| && Near(q[j], p[i])
  {
    i, j :| 0 <= i < |p| && 0 <= j < |q| && Near(p[i], q[j]);
  }

  /** If a cell of `a` is blocked by the area of `b`, the ships conflict. */
  lemma BlockedGivesConflict(a: Ship, b: Ship, i: int)
    requires b.Size() >= 1 && 0 <= i < a.Size()
    requires Blocked(Area(b), Cells(a)[i])
    ensures Conflict(a, b)
  {
    var j := BlockedGivesNear(b, Cells(a)[i]);
    assert Near(Cells(a)[i], Cells(b)[j]);
  }

  /** If the ships conflict, the area of `b` blocks some cell of `a`. */
  lemma ConflictGivesBlocked(a: Ship, b: Ship) returns (i: int)
    requires b.Size() >= 1 && Conflict(a, b)
    ensures 0 <= i < a.Size() && Blocked(Area(b), Cells(a)[i])
  {
    var j;
    i, j := TouchWitness(Cells(a), Cells(b));
    NearGivesBlocked(b, Cells(a)[i], j);
  }

  /** `a.in_area(b.area)` refuses exactly when the two ships overlap or touch
      along an edge; touching at a corner only is allowed. */
  lemma InAreaIffConflict(a: Ship, b: Ship)
    requires b.Size() >= 1
    ensures InArea(a, Area(b)).Fail? <==> Conflict(a, b)
  {
    if InArea(a, Area(b)).Fail? {
      var i :| 0 <= i < a.Size() && Blocked(Area(b), Cells(a)[i]);
      BlockedGivesConflict(a, b, i);
    }
    if Conflict(a, b) {
      var i := ConflictGivesBlocked(a, b);
    }
  }

  /** One direction of the symmetry of Conflict. */
  lemma ConflictFlip(a: Ship, b: Ship)
    requires Conflict(a, b)
    ensures Conflict(b, a)
  {
    TouchFlip(Cells(a), Cells(b));
  }

  /** The placement test gives the same verdict whichever of the two ships
      supplies the area and whichever supplies the cells. */
  lemma InAreaSymmetric(a: Ship, b: Ship)
    requires a.Size() >= 1 && b.Size() >= 1
    ensures InArea(a, Area(b)) == InArea(b, Area(a))
  {
    InAreaIffConflict(a, b);
    InAreaIffConflict(b, a);
    if Conflict(a, b) { ConflictFlip(a, b); }
    if Conflict(b, a) { ConflictFlip(b, a); }
  }

  // ---------------------------------------------------------------------
  // Damage
  // ---------------------------------------------------------------------

  /** The position of the first occurrence of `c` in `cells`. */
  function IndexOf(cells: seq<Cell>, c: Cell): (r: Option<nat>)
    ensures r.None? <==> c !in cells
    ensures r.Some? ==> r.value < |cells| && cells[r.value] == c && c !in cells[..r.value]
  {
    if |cells| == 0 then None
    else if cells[0] == c then Some(0)
    else match IndexOf(cells[1..], c)
      case None => None
      case Some(i) =>
        assert cells[..i + 1] == [cells[0]] + cells[1..][..i];
        Some(i + 1)
  }

  /** Ship.hit(cell): reports whether `c` is one of the ship's cells and
      marks the first segment at `c` as hit; no other flag changes. */
  function Hit(s: Ship, c: Cell): (r: (bool, Ship))
    ensures r.0 <==> c in Cells(s)
    ensures r.1.kind == s.kind && r.1.origin == s.origin && r.1.Size() == s.Size()
    ensures forall i :: 0 <= i < s.Size() ==> r.1.hits[i] == (s.hits[i] || Cells(s)[i] == c)
  {
    match IndexOf(Cells(s), c)
    case None => (false, s)
    case Some(k) =>
      var s' := s.(hits := s.hits[k := true]);
      assert forall i :: 0 <= i < s.Size() && i != k ==> Cells(s)[i] != c by {
        forall i | 0 <= i < s.Size() && i != k ensures Cells(s)[i] != c {
          CellsDistinct(s, i, k);
        }
      }
      (true, s')
  }

  /** Ship.hit applied to each shot in turn: the ship stays where it is, and
      a killed ship does not change at all. */
  function Shoot(s: Ship, shots: seq<Cell>): (r: Ship)
    ensures r.kind == s.kind && r.origin == s.origin && r.Size() == s.Size()
    ensures Killed(s) ==> r == s
    decreases |shots|
  {
    if |shots| == 0 then s else Shoot(Hit(s, shots[0]).1, shots[1..])
  }

  /** After a series of shots a segment is damaged exactly when it was
      damaged before or one of the shots landed on its cell. */
  lemma {:induction false} ShootMarks(s: Ship, shots: seq<Cell>)
    ensures Shoot(s, shots).kind == s.kind && Shoot(s, shots).origin == s.origin
    ensures Shoot(s, shots).Size() == s.Size()
    ensures forall i :: 0 <= i < s.Size() ==>
      Shoot(s, shots).hits[i] == (s.hits[i] || Cells(s)[i] in shots)
    decreases |shots|
  {
    if |shots| > 0 {
      var s1 := Hit(s, shots[0]).1;
      ShootMarks(s1, shots[1..]);
      assert Cells(s1) == Cells(s);
      assert shots == [shots[0]] + shots[1..];
    }
  }

  /** An undamaged ship is killed by a series of shots exactly when every
      one of its cells was targeted at least once. */
  lemma KilledIffAllCellsShot(s: Ship, shots: seq<Cell>)
    requires Fresh(s)
    ensures Killed(Shoot(s, shots)) <==> forall i :: 0 <= i < s.Size() ==> Cells(s)[i] in shots
  {
    ShootMarks(s, shots);
  }

  /** A one-cell ship is killed by the first shot at its cell. */
  lemma SingleCellKilledByOneHit(s: Ship)
    requires s.Size() == 1
    ensures Hit(s, s.origin).0 && Killed(Hit(s, s.origin).1)
  {
    assert Cells(s)[0] == s.origin;
  }
}
