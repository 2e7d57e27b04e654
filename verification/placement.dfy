/** Player.generate_board: placing the fleet one validated ship at a time. */
module Placement {
  import opened Geometry
  import opened Outcomes
  import opened Ships
  import opened Fleet
  import opened Boards
  import opened Players

  /** A size get_ship_params knows how to prompt for. */
  type ShipSize = n: nat | 1 <= n <= 3 witness 1

  /** Board.ship_sizes(): the order in which the fleet is placed. */
  const ShipSizes: seq<ShipSize> := [3, 2, 2, 1, 1, 1, 1]

  /** Every ship is non-empty and on the grid, and no two ships overlap or
      share an edge. */
  predicate LegalFleet(ships: seq<Ship>) {
    && (forall k :: 0 <= k < |ships| ==> ships[k].Size() >= 1 && OnBoard(ships[k]).Pass?)
    && (forall j, k :: 0 <= j < k < |ships| ==> !Conflict(ships[j], ships[k]))
  }

  /** Two ships with a common cell conflict. */
  lemma SharedCellConflict(a: Ship, b: Ship, c: Cell)
    requires c in Cells(a) && c in Cells(b)
    ensures Conflict(a, b)
  {
    var i :| 0 <= i < |Cells(a)| && Cells(a)[i] == c;
    var j :| 0 <= j < |Cells(b)| && Cells(b)[j] == c;
    assert Near(Cells(a)[i], Cells(b)[j]);
  }

  /** A legal fleet can be drawn on the grid and shares no cells. */
  lemma LegalFleetIsDisjointOnGrid(ships: seq<Ship>)
    requires LegalFleet(ships)
    ensures FleetOnGrid(ships) && Disjoint(ships)
  {
    forall j, k, c | 0 <= j < |ships| && 0 <= k < |ships| && c in Cells(ships[j]) && c in Cells(ships[k])
      ensures j == k
    {
      SharedCellConflict(ships[j], ships[k], c);
      SharedCellConflict(ships[k], ships[j], c);
    }
  }

  /** The loop `for check in ships: check.in_area(area)`. */
  function ClearOf(ships: seq<Ship>, b: Box): (r: Outcome)
    ensures r.Fail? <==> exists j :: 0 <= j < |ships| && InArea(ships[j], b).Fail?
    ensures r.Fail? ==> r.error == Adjacent
    decreases |ships|
  {
    if |ships| == 0 then Pass
    else match InArea(ships[0], b)
      case Fail(e) => Fail(e)
      case Pass =>
        var r := ClearOf(ships[1..], b);
        assert forall j :: 1 <= j < |ships| ==> ships[j] == ships[1..][j - 1];
        r
  }

  /** The candidate's area clears every earlier ship exactly when the
      candidate conflicts with none of them. */
  lemma ClearOfIffNoConflict(ships: seq<Ship>, s: Ship)
    requires s.Size() >= 1
    ensures ClearOf(ships, Area(s)).Pass? <==> forall j :: 0 <= j < |ships| ==> !Conflict(ships[j], s)
  {
    forall j | 0 <= j < |ships| ensures InArea(ships[j], Area(s)).Fail? <==> Conflict(ships[j], s) {
      InAreaIffConflict(ships[j], s);
    }
  }

  /** Appending a ship that is on the board and conflicts with no earlier
      ship keeps a fleet legal. */
  lemma AppendKeepsLegal(ships: seq<Ship>, s: Ship)
    requires LegalFleet(ships) && s.Size() >= 1 && OnBoard(s).Pass?
    requires forall j :: 0 <= j < |ships| ==> !Conflict(ships[j], s)
    ensures LegalFleet(ships + [s])
  {
    var r := ships + [s];
    assert forall k :: 0 <= k < |ships| ==> r[k] == ships[k];
    assert r[|ships|] == s;
  }

  /** One try of the retry loop of generate_board: build the candidate,
      check it is on the board, then test every earlier ship against the
      candidate's area; append it only if all of this passes. */
  function PlaceStep(ships: seq<Ship>, size: nat, p: Params): (r: Result<seq<Ship>>)
    requires size >= 1
    ensures match NewShip(size, p.t, Cell(p.x, p.y))
      case Err(e) => r == Err(e)
      case Ok(s) =>
        && (r.Ok? <==>
             && OnGrid(Cell(p.x, p.y)) && OnGrid(Segment(s.origin, s.kind, size - 1))
             && forall j :: 0 <= j < |ships| ==> !Conflict(ships[j], s))
        && (r.Ok? ==> r.value == ships + [s])
        && (r.Err? ==> r.error == if OnBoard(s).Pass? then Adjacent else OffBoard)
    ensures r.Ok? && LegalFleet(ships) ==> LegalFleet(r.value)
  {
    match NewShip(size, p.t, Cell(p.x, p.y))
    case Err(e) => Err(e)
    case Ok(s) =>
      OnBoardIffEndsOnGrid(s);
      ClearOfIffNoConflict(ships, s);
      match OnBoard(s)
      case Fail(e) => Err(e)
      case Pass =>
        match ClearOf(ships, Area(s))
        case Fail(e) => Err(e)
        case Pass =>
          assert LegalFleet(ships) ==> LegalFleet(ships + [s]) by {
            if LegalFleet(ships) { AppendKeepsLegal(ships, s); }
          }
          Ok(ships + [s])
  }

  /** `r` is `ships` followed by one undamaged ship of each size in `sizes`. */
  predicate Extends(r: seq<Ship>, ships: seq<Ship>, sizes: seq<nat>) {
    && |r| == |ships| + |sizes|
    && r[..|ships|] == ships
    && forall k :: 0 <= k < |sizes| ==> r[|ships| + k].Size() == sizes[k] && Fresh(r[|ships| + k])
  }

  /** Extending by the first size and then by the rest is extending by all. */
  lemma ExtendsCons(r: seq<Ship>, ships: seq<Ship>, s: Ship, sizes: seq<nat>)
    requires |sizes| > 0 && s.Size() == sizes[0] && Fresh(s)
    requires Extends(r, ships + [s], sizes[1..])
    ensures Extends(r, ships, sizes)
  {
    var n := |ships|;
    assert r[..n] == r[..n + 1][..n];
    forall k | 0 <= k < |sizes| ensures r[n + k].Size() == sizes[k] && Fresh(r[n + k]) {
      if k == 0 {
        assert r[n] == r[..n + 1][n];
      } else {
        assert r[n + k] == r[(n + 1) + (k - 1)];
      }
    }
  }

  /** Extending the empty fleet yields exactly one ship per size. */
  lemma ExtendsEmpty(r: seq<Ship>, sizes: seq<nat>)
    requires Extends(r, [], sizes)
    ensures |r| == |sizes| && AllFresh(r)
    ensures forall k :: 0 <= k < |sizes| ==> r[k].Size() == sizes[k]
  {
    var none: seq<Ship> := [];
    forall k | 0 <= k < |sizes| ensures r[k].Size() == sizes[k] && Fresh(r[k]) {
      assert r[k] == r[|none| + k];
    }
  }

  /** Every size of the fleet is one that get_ship_params can prompt for. */
  predicate ValidSizes(sizes: seq<nat>) {
    forall k :: 0 <= k < |sizes| ==> 1 <= sizes[k] <= 3
  }

  /** One answer to get_ship_params: parameters the bot drew at random, or
      a line the human typed. */
  datatype Attempt = Drawn(params: Params) | Typed(line: Line)

  /** get_ship_params for a ship of `size`. */
  function AttemptParams(size: nat, a: Attempt): Result<Params>
    requires 1 <= size <= 3
  {
    match a
    case Drawn(p) => Ok(p)
    case Typed(line) => ShipParams(size, line)
  }

  /** The ship an attempt proposes, `Ship(size, t)` with `pos` set, or the
      error raised on the way: the input's error first, then a bad type. */
  function Candidate(size: nat, a: Attempt): (r: Result<Ship>)
    requires 1 <= size <= 3
    ensures r.Ok? <==> AttemptParams(size, a).Ok? && AttemptParams(size, a).value.t in {0, 1}
    ensures r.Ok? ==>
      var p := AttemptParams(size, a).value;
      && r.value.Size() == size && Fresh(r.value)
      && r.value.origin == Cell(p.x, p.y)
      && (r.value.kind == Vertical <==> p.t == 1)
    ensures r.Err? ==>
      r.error == if AttemptParams(size, a).Err? then AttemptParams(size, a).error else BadShipType
  {
    match AttemptParams(size, a)
    case Err(e) => Err(e)
    case Ok(p) => NewShip(size, p.t, Cell(p.x, p.y))
  }

  /** One pass of the body of the retry loop of generate_board: the
      candidate is appended exactly when it exists, lies on the grid and
      conflicts with no earlier ship. */
  function Try(ships: seq<Ship>, size: nat, a: Attempt): (r: Result<seq<Ship>>)
    requires 1 <= size <= 3
    ensures r.Ok? ==> Candidate(size, a).Ok? && r.value == ships + [Candidate(size, a).value]
    ensures Candidate(size, a).Ok? ==>
      var s := Candidate(size, a).value;
      (r.Ok? <==> OnBoard(s).Pass? && forall j :: 0 <= j < |ships| ==> !Conflict(ships[j], s))
    ensures Candidate(size, a).Err? ==> r == Err(Candidate(size, a).error)
    ensures r.Ok? && LegalFleet(ships) ==> LegalFleet(r.value)
  {
    match AttemptParams(size, a)
    case Err(e) => Err(e)
    case Ok(p) => PlaceStep(ships, size, p)
  }

  /** How placing a fleet ends: every ship placed, the attempts used up
      first, or the quit sentinel typed at a placement prompt. */
  datatype Setup<T> = Ready(value: T) | Exhausted | Quit

  /** `s` is the candidate of one of the attempts for a ship of `size`. */
  predicate Proposed(s: Ship, size: nat, attempts: seq<Attempt>)
    requires 1 <= size <= 3
  {
    exists i :: 0 <= i < |attempts| && Candidate(size, attempts[i]) == Ok(s)
  }

  /** Every ship after `ships` in `r` is the candidate of one of the attempts. */
  predicate FromAttempts(r: seq<Ship>, ships: seq<Ship>, sizes: seq<nat>, attempts: seq<Attempt>)
    requires ValidSizes(sizes) && |r| == |ships| + |sizes|
  {
    forall k :: 0 <= k < |sizes| ==> Proposed(r[|ships| + k], sizes[k], attempts)
  }

  /** An attempt skipped at the front does not break FromAttempts. */
  lemma FromAttemptsSkip(r: seq<Ship>, ships: seq<Ship>, sizes: seq<nat>, attempts: seq<Attempt>)
    requires ValidSizes(sizes) && |r| == |ships| + |sizes| && |attempts| > 0
    requires FromAttempts(r, ships, sizes, attempts[1..])
    ensures FromAttempts(r, ships, sizes, attempts)
  {
    forall k | 0 <= k < |sizes| ensures Proposed(r[|ships| + k], sizes[k], attempts) {
      var rest := attempts[1..];
      assert Proposed(r[|ships| + k], sizes[k], rest);
      var i :| 0 <= i < |rest| && Candidate(sizes[k], rest[i]) == Ok(r[|ships| + k]);
      assert rest[i] == attempts[i + 1];
    }
  }

  /** The first attempt accepted for the first size, followed by ships from
      the remaining attempts, gives ships from all the attempts. */
  lemma FromAttemptsCons(r: seq<Ship>, ships: seq<Ship>, s: Ship, sizes: seq<nat>, attempts: seq<Attempt>)
    requires ValidSizes(sizes) && |sizes| > 0 && |attempts| > 0
    requires |r| == |ships| + |sizes| && r[|ships|] == s
    requires Candidate(sizes[0], attempts[0]) == Ok(s)
    requires FromAttempts(r, ships + [s], sizes[1..], attempts[1..])
    ensures FromAttempts(r, ships, sizes, attempts)
  {
    var n := |ships|;
    forall k | 0 <= k < |sizes| ensures Proposed(r[n + k], sizes[k], attempts) {
      if k == 0 {
        assert Candidate(sizes[0], attempts[0]) == Ok(r[n + 0]);
      } else {
        var rest := attempts[1..];
        assert sizes[1..][k - 1] == sizes[k];
        assert r[|ships + [s]| + (k - 1)] == r[n + k];
        assert Proposed(r[n + k], sizes[k], rest);
        var i :| 0 <= i < |rest| && Candidate(sizes[k], rest[i]) == Ok(r[n + k]);
        assert rest[i] == attempts[i + 1];
      }
    }
  }

  /** One instance of FromAttempts. */
  lemma FromAttemptsAt(r: seq<Ship>, ships: seq<Ship>, sizes: seq<nat>, attempts: seq<Attempt>, k: nat)
    requires ValidSizes(sizes) && |r| == |ships| + |sizes| && FromAttempts(r, ships, sizes, attempts)
    requires k < |sizes|
    ensures Proposed(r[|ships| + k], sizes[k], attempts)
  {
  }

  /** From the empty fleet, ship `k` is proposed for size `k`. */
  lemma FromAttemptsEmpty(r: seq<Ship>, sizes: seq<nat>, attempts: seq<Attempt>)
    requires ValidSizes(sizes) && |r| == |sizes| && FromAttempts(r, [], sizes, attempts)
    ensures forall k :: 0 <= k < |sizes| ==> Proposed(r[k], sizes[k], attempts)
  {
    forall k | 0 <= k < |sizes| ensures Proposed(r[k], sizes[k], attempts) {
      FromAttemptsAt(r, [], sizes, attempts, k);
    }
  }

  /** What PlaceAll promises about the rest of the attempts carries over to
      all of them when the first one is refused. */
  lemma SkipAttempt(r: Setup<seq<Ship>>, ships: seq<Ship>, sizes: seq<nat>, attempts: seq<Attempt>)
    requires ValidSizes(sizes) && |attempts| > 0
    requires r.Ready? ==> Extends(r.value, ships, sizes) && FromAttempts(r.value, ships, sizes, attempts[1..])
    requires r.Ready? ==> |attempts[1..]| >= |sizes|
    requires r.Quit? ==> Typed(QuitLine) in attempts[1..]
    ensures r.Ready? ==> FromAttempts(r.value, ships, sizes, attempts) && |attempts| >= |sizes|
    ensures r.Quit? ==> Typed(QuitLine) in attempts
  {
    if r.Ready? { FromAttemptsSkip(r.value, ships, sizes, attempts); }
    if r.Quit? {
      var i :| 0 <= i < |attempts[1..]| && attempts[1..][i] == Typed(QuitLine);
      assert attempts[i + 1] == Typed(QuitLine);
    }
  }

  /** What PlaceAll promises about the rest of the sizes and attempts carries
      over to all of them when the first attempt placed ship `s`. */
  lemma AcceptAttempt(r: Setup<seq<Ship>>, ships: seq<Ship>, s: Ship, sizes: seq<nat>, attempts: seq<Attempt>)
    requires ValidSizes(sizes) && |sizes| > 0 && |attempts| > 0
    requires Candidate(sizes[0], attempts[0]) == Ok(s)
    requires r.Ready? ==>
      && Extends(r.value, ships + [s], sizes[1..])
      && FromAttempts(r.value, ships + [s], sizes[1..], attempts[1..])
      && |attempts[1..]| >= |sizes[1..]|
    requires r.Quit? ==> Typed(QuitLine) in attempts[1..]
    ensures r.Ready? ==>
      && Extends(r.value, ships, sizes)
      && FromAttempts(r.value, ships, sizes, attempts)
      && |attempts| >= |sizes|
    ensures r.Quit? ==> Typed(QuitLine) in attempts
  {
    if r.Ready? {
      ExtendsCons(r.value, ships, s, sizes);
      assert r.value[|ships|] == r.value[..|ships| + 1][|ships|];
      FromAttemptsCons(r.value, ships, s, sizes, attempts);
    }
    if r.Quit? {
      var i :| 0 <= i < |attempts[1..]| && attempts[1..][i] == Typed(QuitLine);
      assert attempts[i + 1] == Typed(QuitLine);
    }
  }

  /** Player.generate_board driven by a finite list of attempts: each size is
      retried with the next attempt until one is accepted. A refused attempt
      (bad input, bad type, off the board, adjacent) is used up; the quit
      sentinel ends placement; running out of attempts gives Exhausted. */
  function PlaceAll(ships: seq<Ship>, sizes: seq<nat>, attempts: seq<Attempt>): (r: Setup<seq<Ship>>)
    requires ValidSizes(sizes)
    ensures |sizes| == 0 ==> r == Ready(ships)
    ensures r.Ready? ==> Extends(r.value, ships, sizes) && FromAttempts(r.value, ships, sizes, attempts)
    ensures r.Ready? ==> |attempts| >= |sizes|
    ensures r.Ready? && LegalFleet(ships) ==> LegalFleet(r.value)
    ensures r.Quit? ==> Typed(QuitLine) in attempts
    ensures |sizes| > 0 && |attempts| > 0 && attempts[0] == Typed(QuitLine) ==> r.Quit?
    ensures EachAccepted(ships, sizes, attempts) ==> r.Ready?
    decreases |attempts|
  {
    if |sizes| == 0 then
      assert ships[..|ships|] == ships;
      Ready(ships)
    else if |attempts| == 0 then Exhausted
    else
      var params := AttemptParams(sizes[0], attempts[0]);
      if params == Err(QuitGame) then Quit
      else
        var step := Try(ships, sizes[0], attempts[0]);
        if step.Err? then
          var r := PlaceAll(ships, sizes, attempts[1..]);
          SkipAttempt(r, ships, sizes, attempts);
          r
        else
          var s := Candidate(sizes[0], attempts[0]).value;
          var r := PlaceAll(ships + [s], sizes[1..], attempts[1..]);
          AcceptAttempt(r, ships, s, sizes, attempts);
          r
  }

  /** The attempt is refused for the next ship, without quitting. */
  predicate Refused(ships: seq<Ship>, size: nat, a: Attempt)
    requires 1 <= size <= 3
  {
    AttemptParams(size, a) != Err(QuitGame) && Try(ships, size, a).Err?
  }

  /** Every attempt of `pre` is refused for the next ship. */
  predicate AllRefused(ships: seq<Ship>, size: nat, pre: seq<Attempt>)
    requires 1 <= size <= 3
    decreases |pre|
  {
    |pre| == 0 || (Refused(ships, size, pre[0]) && AllRefused(ships, size, pre[1..]))
  }

  /** A refused attempt at the front is used up and the same size is tried
      with the next one. */
  lemma RefusedFirstSkipped(ships: seq<Ship>, sizes: seq<nat>, a: Attempt, rest: seq<Attempt>)
    requires ValidSizes(sizes) && |sizes| > 0
    requires Refused(ships, sizes[0], a)
    ensures PlaceAll(ships, sizes, [a] + rest) == PlaceAll(ships, sizes, rest)
  {
    assert ([a] + rest)[1..] == rest;
  }

  /** An accepted attempt at the front places the first size, and the rest
      of the sizes go on with the rest of the attempts. */
  lemma AcceptedFirstPlaced(ships: seq<Ship>, sizes: seq<nat>, a: Attempt, rest: seq<Attempt>)
    requires ValidSizes(sizes) && |sizes| > 0 && Try(ships, sizes[0], a).Ok?
    ensures PlaceAll(ships, sizes, [a] + rest) == PlaceAll(Try(ships, sizes[0], a).value, sizes[1..], rest)
  {
    assert ([a] + rest)[1..] == rest;
  }

  /** Splitting off the head of the front part of a concatenation. */
  lemma ConcatCons(pre: seq<Attempt>, rest: seq<Attempt>)
    requires |pre| > 0
    ensures pre + rest == [pre[0]] + (pre[1..] + rest)
  {
  }

  /** Any run of refused attempts is skipped: placement goes on as if they
      had never been made. */
  lemma {:induction false} RefusedSkipped(ships: seq<Ship>, sizes: seq<nat>, pre: seq<Attempt>, rest: seq<Attempt>)
    requires ValidSizes(sizes) && |sizes| > 0 && AllRefused(ships, sizes[0], pre)
    ensures PlaceAll(ships, sizes, pre + rest) == PlaceAll(ships, sizes, rest)
    decreases |pre|
  {
    if |pre| == 0 {
      assert pre + rest == rest;
    } else {
      ConcatCons(pre, rest);
      RefusedFirstSkipped(ships, sizes, pre[0], pre[1..] + rest);
      RefusedSkipped(ships, sizes, pre[1..], rest);
    }
  }

  /** The quit line typed after any number of refused attempts ends
      placement. */
  lemma QuitAfterRefusals(ships: seq<Ship>, sizes: seq<nat>, pre: seq<Attempt>, rest: seq<Attempt>)
    requires ValidSizes(sizes) && |sizes| > 0 && AllRefused(ships, sizes[0], pre)
    ensures PlaceAll(ships, sizes, pre + [Typed(QuitLine)] + rest).Quit?
  {
    RefusedSkipped(ships, sizes, pre, [Typed(QuitLine)] + rest);
    assert pre + [Typed(QuitLine)] + rest == pre + ([Typed(QuitLine)] + rest);
  }

  /** Each attempt is accepted in turn, one per size. */
  predicate EachAccepted(ships: seq<Ship>, sizes: seq<nat>, attempts: seq<Attempt>)
    requires ValidSizes(sizes)
    decreases |sizes|
  {
    |sizes| == 0 ||
    (&& |attempts| > 0
     && Try(ships, sizes[0], attempts[0]).Ok?
     && EachAccepted(Try(ships, sizes[0], attempts[0]).value, sizes[1..], attempts[1..]))
  }

  /** Placing `sizes` from the empty fleet: a legal fleet of fresh ships on
      the grid, ship `k` of size `sizes[k]` and proposed by one of the
      attempts; attempts each accepted in turn complete it. */
  function PlaceFrom(sizes: seq<nat>, attempts: seq<Attempt>): (r: Setup<seq<Ship>>)
    requires ValidSizes(sizes)
    ensures r.Ready? ==> LegalFleet(r.value) && AllFresh(r.value) && FleetOnGrid(r.value)
    ensures r.Ready? ==> |r.value| == |sizes|
    ensures r.Ready? ==> forall k :: 0 <= k < |sizes| ==>
      r.value[k].Size() == sizes[k] && Proposed(r.value[k], sizes[k], attempts)
    ensures r.Quit? ==> Typed(QuitLine) in attempts
    ensures EachAccepted([], sizes, attempts) ==> r.Ready?
  {
    var placed := PlaceAll([], sizes, attempts);
    assert placed.Ready? ==>
      && LegalFleet(placed.value) && AllFresh(placed.value) && FleetOnGrid(placed.value)
      && |placed.value| == |sizes|
      && (forall k :: 0 <= k < |sizes| ==>
            placed.value[k].Size() == sizes[k] && Proposed(placed.value[k], sizes[k], attempts)) by {
      if placed.Ready? {
        var ships := placed.value;
        assert LegalFleet([]);
        ExtendsEmpty(ships, sizes);
        FromAttemptsEmpty(ships, sizes, attempts);
        LegalFleetIsDisjointOnGrid(ships);
      }
    }
    placed
  }

  /** Player.generate_board: the fleet in the order of ShipSizes, each ship
      the candidate of one of the attempts, legal and undamaged. */
  function PlaceFleet(attempts: seq<Attempt>): (r: Setup<seq<Ship>>)
    ensures r.Ready? ==> LegalFleet(r.value) && AllFresh(r.value) && FleetOnGrid(r.value)
    ensures r.Ready? ==> |r.value| == |ShipSizes|
    ensures r.Ready? ==> forall k :: 0 <= k < |ShipSizes| ==>
      r.value[k].Size() == ShipSizes[k] && Proposed(r.value[k], ShipSizes[k], attempts)
    ensures r.Quit? ==> Typed(QuitLine) in attempts
    ensures EachAccepted([], ShipSizes, attempts) ==> r.Ready?
  {
    assert ValidSizes(ShipSizes);
    PlaceFrom(ShipSizes, attempts)
  }

  /** Player.generate_board followed by create_board: the fleet in the order
      of ShipSizes, each ship the candidate of one of the attempts, legal and
      undamaged, on a board that shows the ships only when `showShips` is
      set (the human's board). */
  function GenerateBoard(attempts: seq<Attempt>, showShips: bool): (r: Setup<Board>)
    ensures r.Ready? <==> PlaceFleet(attempts).Ready?
    ensures r.Quit? <==> PlaceFleet(attempts).Quit?
    ensures r.Ready? ==> r.value.ships == PlaceFleet(attempts).value
    ensures r.Ready? ==> WellFormed(r.value.field) && forall d :: OnGrid(d) ==>
      At(r.value.field, d) == if showShips && Occupied(r.value.ships, d) then ShipMark else Empty
  {
    match PlaceFleet(attempts)
    case Exhausted => Exhausted
    case Quit => Quit
    case Ready(ships) => Ready(NewBoard(ships, showShips))
  }

  /** A candidate with any segment on a cell of an earlier ship is always
      refused. */
  lemma OverlapRefused(ships: seq<Ship>, size: nat, p: Params, j: int, i: int)
    requires size >= 1 && (p.t == 0 || p.t == 1) && 0 <= j < |ships| && 0 <= i < size
    requires Segment(Cell(p.x, p.y), if p.t == 1 then Vertical else Horizontal, i) in Cells(ships[j])
    ensures PlaceStep(ships, size, p).Err?
  {
    var s := NewShip(size, p.t, Cell(p.x, p.y)).value;
    assert Cells(s)[i] == Segment(Cell(p.x, p.y), s.kind, i);
    SharedCellConflict(ships[j], s, Cells(s)[i]);
  }

  /** A one-cell ship placed diagonally next to an earlier one-cell ship,
      touching it only at a corner, is accepted. */
  lemma CornerTouchAccepted(a: Ship, p: Params)
    requires a.Size() == 1 && (p.t == 0 || p.t == 1) && OnGrid(Cell(p.x, p.y))
    requires Dist(p.x, a.origin.x) == 1 && Dist(p.y, a.origin.y) == 1
    ensures PlaceStep([a], 1, p).Ok?
  {
    var s := NewShip(1, p.t, Cell(p.x, p.y)).value;
    assert Cells(s) == [Cell(p.x, p.y)];
    assert Cells(a) == [a.origin];
    assert !Conflict([a][0], s);
  }
}
