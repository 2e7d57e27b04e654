/** Class ShipList: the ordered fleet of one player. */
module Fleet {
  import opened Geometry
  import opened Ships

  /** Some ship of the fleet has a segment at `c`. */
  predicate Occupied(ships: seq<Ship>, c: Cell) {
    exists k :: 0 <= k < |ships| && c in Cells(ships[k])
  }

  /** Ship `k` is the first ship of the fleet with a segment at `c`. */
  predicate FirstHolder(ships: seq<Ship>, c: Cell, k: int) {
    && 0 <= k < |ships|
    && c in Cells(ships[k])
    && forall j :: 0 <= j < k ==> c !in Cells(ships[j])
  }

  /** A fleet holds `c` when its first ship does or the rest of it does. */
  lemma OccupiedCons(ships: seq<Ship>, c: Cell)
    requires |ships| > 0
    ensures Occupied(ships, c) <==> c in Cells(ships[0]) || Occupied(ships[1..], c)
  {
    if Occupied(ships, c) && c !in Cells(ships[0]) {
      var k :| 0 <= k < |ships| && c in Cells(ships[k]);
      assert c in Cells(ships[1..][k - 1]);
    }
    if Occupied(ships[1..], c) {
      var k :| 0 <= k < |ships| - 1 && c in Cells(ships[1..][k]);
      assert c in Cells(ships[k + 1]);
    }
  }

  /** When the first ship misses `c`, the first holder moves down by one
      position in the rest of the fleet. */
  lemma FirstHolderShift(ships: seq<Ship>, c: Cell)
    requires |ships| > 0 && c !in Cells(ships[0])
    ensures forall k :: 1 <= k < |ships| ==>
      (FirstHolder(ships, c, k) <==> FirstHolder(ships[1..], c, k - 1))
  {
    forall k | 1 <= k < |ships|
      ensures FirstHolder(ships, c, k) <==> FirstHolder(ships[1..], c, k - 1)
    {
      assert forall j :: 0 <= j < k - 1 ==> ships[1..][j] == ships[j + 1];
    }
  }

  /** ShipList.hit(cell): asks the ships in order and stops at the first one
      that is hit; that ship alone records the damage. */
  function FleetHit(ships: seq<Ship>, c: Cell): (r: (bool, seq<Ship>))
    ensures r.0 <==> Occupied(ships, c)
    ensures |r.1| == |ships|
    ensures forall k :: 0 <= k < |ships| ==>
      r.1[k] == if FirstHolder(ships, c, k) then Hit(ships[k], c).1 else ships[k]
    decreases |ships|
  {
    if |ships| == 0 then (false, ships)
    else
      var (h, s) := Hit(ships[0], c);
      OccupiedCons(ships, c);
      if h then (true, [s] + ships[1..])
      else
        var (h', rest) := FleetHit(ships[1..], c);
        FirstHolderShift(ships, c);
        (h', [ships[0]] + rest)
  }

  /** ShipList.killed: every ship is killed (so an empty fleet is). A
      further shot at a sunk fleet leaves it as it is. */
  function FleetKilled(ships: seq<Ship>): (r: bool)
    ensures r ==> forall c :: FleetHit(ships, c).1 == ships
  {
    var all := forall k :: 0 <= k < |ships| ==> Killed(ships[k]);
    assert all ==> forall c :: FleetHit(ships, c).1 == ships by {
      if all {
        forall c ensures FleetHit(ships, c).1 == ships {
          var r := FleetHit(ships, c).1;
          forall k | 0 <= k < |ships| ensures r[k] == ships[k] {
            assert Killed(ships[k]);
          }
        }
      }
    }
    all
  }

  /** No cell belongs to two different ships. */
  predicate Disjoint(ships: seq<Ship>) {
    forall j, k, c :: 0 <= j < |ships| && 0 <= k < |ships| && c in Cells(ships[j]) && c in Cells(ships[k]) ==> j == k
  }

  /** Every ship is still undamaged. */
  predicate AllFresh(ships: seq<Ship>) {
    forall k :: 0 <= k < |ships| ==> Fresh(ships[k])
  }

  /** Same ships in the same places, damage aside. */
  predicate SameLayout(a: seq<Ship>, b: seq<Ship>) {
    && |a| == |b|
    && forall k :: 0 <= k < |a| ==>
         a[k].kind == b[k].kind && a[k].origin == b[k].origin && a[k].Size() == b[k].Size()
  }

  /** In a fleet without shared cells, a shot damages exactly the segments
      at the target cell, whichever ship they belong to. */
  lemma FleetHitMarks(ships: seq<Ship>, c: Cell)
    requires Disjoint(ships)
    ensures SameLayout(FleetHit(ships, c).1, ships)
    ensures forall k, i :: 0 <= k < |ships| && 0 <= i < ships[k].Size() ==>
      FleetHit(ships, c).1[k].hits[i] == (ships[k].hits[i] || Cells(ships[k])[i] == c)
  {
    var r := FleetHit(ships, c).1;
    forall k, i | 0 <= k < |ships| && 0 <= i < ships[k].Size()
      ensures r[k].hits[i] == (ships[k].hits[i] || Cells(ships[k])[i] == c)
    {
      if !FirstHolder(ships, c, k) {
        assert c !in Cells(ships[k]);
      }
    }
  }

  /** ShipList.hit applied to each shot in turn: every ship stays where it
      is, and a sunk fleet does not change at all. */
  function FleetShoot(ships: seq<Ship>, shots: seq<Cell>): (r: seq<Ship>)
    ensures SameLayout(r, ships)
    ensures FleetKilled(ships) ==> r == ships
    decreases |shots|
  {
    if |shots| == 0 then ships else FleetShoot(FleetHit(ships, shots[0]).1, shots[1..])
  }

  /** Fleets with the same layout have the same cells, ship by ship. */
  lemma SameLayoutKeepsCells(a: seq<Ship>, b: seq<Ship>)
    requires SameLayout(a, b)
    ensures forall k :: 0 <= k < |a| ==> Cells(a[k]) == Cells(b[k])
  {
  }

  /** A fleet laid out like a fleet without shared cells has none either. */
  lemma LayoutKeepsDisjoint(a: seq<Ship>, b: seq<Ship>)
    requires SameLayout(a, b) && Disjoint(b)
    ensures Disjoint(a)
  {
    SameLayoutKeepsCells(a, b);
  }

  /** In a fleet without shared cells, after a series of shots a segment is
      damaged exactly when it was before or some shot targeted its cell. */
  lemma {:induction false} FleetShootMarks(ships: seq<Ship>, shots: seq<Cell>)
    requires Disjoint(ships)
    ensures SameLayout(FleetShoot(ships, shots), ships)
    ensures forall k, i :: 0 <= k < |ships| && 0 <= i < ships[k].Size() ==>
      FleetShoot(ships, shots)[k].hits[i] == (ships[k].hits[i] || Cells(ships[k])[i] in shots)
    decreases |shots|
  {
    if |shots| > 0 {
      var s1 := FleetHit(ships, shots[0]).1;
      FleetHitMarks(ships, shots[0]);
      LayoutKeepsDisjoint(s1, ships);
      FleetShootMarks(s1, shots[1..]);
      assert shots == [shots[0]] + shots[1..];
    }
  }

  /** A fleet that starts undamaged and shares no cells is sunk by a series
      of shots exactly when every cell of every ship was targeted. */
  lemma FleetSunkIffAllCellsShot(ships: seq<Ship>, shots: seq<Cell>)
    requires Disjoint(ships) && AllFresh(ships)
    ensures FleetKilled(FleetShoot(ships, shots)) <==>
      forall k, i :: 0 <= k < |ships| && 0 <= i < ships[k].Size() ==> Cells(ships[k])[i] in shots
  {
    FleetShootMarks(ships, shots);
    var r := FleetShoot(ships, shots);
    if FleetKilled(r) {
      forall k, i | 0 <= k < |ships| && 0 <= i < ships[k].Size() ensures Cells(ships[k])[i] in shots {
        assert Killed(r[k]);
        assert r[k].hits[i];
      }
    }
  }

  /** Once every ship is killed, further shots keep the fleet sunk. */
  lemma FleetHitKeepsKilled(ships: seq<Ship>, c: Cell)
    requires FleetKilled(ships)
    ensures FleetKilled(FleetHit(ships, c).1)
  {
    var r := FleetHit(ships, c).1;
    forall k | 0 <= k < |ships| ensures Killed(r[k]) {
      assert Killed(ships[k]);
    }
  }
}
