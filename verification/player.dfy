/** Classes Player and HumanPlayer: the firing bookkeeping and the parsing
    of typed moves. Bot choices (random in the game) are parameters. */
module Players {
  import opened Geometry
  import opened Outcomes
  import opened Boards

  /** A player's own board and the map of cells it has fired at on the
      opponent's grid, one flag per cell in row-major order. */
  datatype Player = Player(board: Board, hitMap: seq<bool>)

  /** Number of cells of the grid, and of entries of every hit map. */
  const GridSize: int := Width * Height

  predicate Valid(p: Player) {
    |p.hitMap| == GridSize && WellFormed(p.board.field)
  }

  /** `[False] * width * height`. */
  function NewHitMap(): (m: seq<bool>)
    ensures |m| == GridSize && forall i :: 0 <= i < |m| ==> !m[i]
  {
    seq(GridSize, _ => false)
  }

  /** Player.hit_variants: the indices not fired at yet, in increasing order. */
  function HitVariants(m: seq<bool>): (r: seq<nat>)
    ensures forall i: nat :: i in r <==> i < |m| && !m[i]
    ensures forall a, b :: 0 <= a < b < |r| ==> r[a] < r[b]
    decreases |m|
  {
    if |m| == 0 then []
    else
      var r := HitVariants(m[..|m| - 1]);
      assert forall a :: 0 <= a < |r| ==> r[a] < |m| - 1 by {
        forall a | 0 <= a < |r| ensures r[a] < |m| - 1 {
          assert r[a] in r;
        }
      }
      r + (if m[|m| - 1] then [] else [|m| - 1])
  }

  /** A map with no shot yet offers every one of its indices. */
  lemma {:induction false} FreshVariants(n: nat)
    ensures |HitVariants(seq(n, _ => false))| == n
  {
    if n > 0 {
      var m := seq(n, _ => false);
      assert m[..n - 1] == seq(n - 1, _ => false);
      FreshVariants(n - 1);
    }
  }

  /** A new player has all 36 cells to fire at. */
  lemma InitialVariants()
    ensures |HitVariants(NewHitMap())| == GridSize
  {
    FreshVariants(GridSize);
  }

  /** Marking one index not fired at before removes exactly one variant. */
  lemma {:induction false} MarkShrinksVariants(m: seq<bool>, k: nat)
    requires k < |m| && !m[k]
    ensures |HitVariants(m[k := true])| == |HitVariants(m)| - 1
    decreases |m|
  {
    var n := |m| - 1;
    var m' := m[k := true];
    if k == n {
      assert m'[..n] == m[..n];
    } else {
      assert m'[..n] == m[..n][k := true];
      MarkShrinksVariants(m[..n], k);
    }
  }

  /** Player.get_hit's index-to-cell conversion (`hit % width + 1`,
      `hit // width + 1`; both operands are non-negative, where floor and
      Euclidean division agree). */
  function ShotCell(hit: int): (c: Cell)
    ensures 0 <= hit < GridSize ==> OnGrid(c) && (c.y - 1) * Width + (c.x - 1) == hit
  {
    Cell(hit % Width + 1, hit / Width + 1)
  }

  /** HumanPlayer.make_hit's cell-to-index conversion `(y-1)*width + (x-1)`. */
  function ShotIndex(c: Cell): (hit: int)
    ensures OnGrid(c) ==> 0 <= hit < GridSize && ShotCell(hit) == c
  {
    (c.y - 1) * Width + (c.x - 1)
  }

  /** Every index of the grid names a cell on it, and converts back. */
  lemma IndexToCellRoundTrip(hit: int)
    requires 0 <= hit < GridSize
    ensures OnGrid(ShotCell(hit)) && ShotIndex(ShotCell(hit)) == hit
  {
  }

  /** Every cell of the grid has an index in range, and converts back. */
  lemma CellToIndexRoundTrip(c: Cell)
    requires OnGrid(c)
    ensures 0 <= ShotIndex(c) < GridSize && ShotCell(ShotIndex(c)) == c
  {
  }

  /** Player.get_hit once make_hit has produced `hit`: a cell fired at
      before is refused without change; otherwise only its flag is set and
      the cell is returned. */
  function GetHit(m: seq<bool>, hit: int): (r: Result<(Cell, seq<bool>)>)
    requires |m| == GridSize && 0 <= hit < GridSize
    ensures r.Err? <==> m[hit]
    ensures r.Err? ==> r.error == AlreadyFired(ShotCell(hit))
    ensures r.Ok? ==> OnGrid(r.value.0) && ShotIndex(r.value.0) == hit
    ensures r.Ok? ==> |r.value.1| == |m| && r.value.1[hit]
    ensures r.Ok? ==> forall j :: 0 <= j < |m| && j != hit ==> r.value.1[j] == m[j]
    ensures r.Ok? ==> |HitVariants(r.value.1)| == |HitVariants(m)| - 1
  {
    var cell := ShotCell(hit);
    if m[hit] then Err(AlreadyFired(cell))
    else
      IndexToCellRoundTrip(hit);
      MarkShrinksVariants(m, hit);
      Ok((cell, m[hit := true]))
  }

  // ---------------------------------------------------------------------
  // Typed input (HumanPlayer)
  // ---------------------------------------------------------------------

  /** One whitespace-separated word of a typed line: a number int() accepts,
      or anything else. */
  datatype Token = Number(value: int) | Word

  /** What HumanPlayer.input returns: the quit sentinel "0", or the line
      split into words. */
  datatype Line = QuitLine | Tokens(items: seq<Token>)

  predicate AllNumbers(ts: seq<Token>) {
    forall i :: 0 <= i < |ts| ==> ts[i].Number?
  }

  /** HumanPlayer.make_hit: two numbers, column first, both within the
      grid, turned into a row-major index. */
  function MakeHit(line: Line): (r: Result<int>)
    ensures r == Err(QuitGame) <==> line.QuitLine?
    ensures r.Ok? <==>
      && line.Tokens? && |line.items| == 2 && AllNumbers(line.items)
      && OnGrid(Cell(line.items[0].value, line.items[1].value))
    ensures r.Ok? ==> 0 <= r.value < GridSize
    ensures r.Ok? ==> ShotCell(r.value) == Cell(line.items[0].value, line.items[1].value)
    ensures r.Err? && line.Tokens? ==>
      r.error == (if |line.items| != 2 then WrongCount
                  else if !AllNumbers(line.items) then NotANumber
                  else if !(1 <= line.items[0].value <= Width) then XOutOfRange
                  else YOutOfRange)
  {
    match line
    case QuitLine => Err(QuitGame)
    case Tokens(xy) =>
      if |xy| != 2 then Err(WrongCount)
      else if !(xy[0].Number? && xy[1].Number?) then Err(NotANumber)
      else
        var x, y := xy[0].value, xy[1].value;
        if !(1 <= x <= Width) then Err(XOutOfRange)
        else if !(1 <= y <= Height) then Err(YOutOfRange)
        else
          CellToIndexRoundTrip(Cell(x, y));
          Ok((y - 1) * Width + (x - 1))
  }

  /** Placement parameters: first cell and type code (0 horizontal,
      1 vertical). */
  datatype Params = Params(x: int, y: int, t: int)

  /** HumanPlayer.get_ship_params: a one-cell ship takes "X Y" and gets type
      0 appended; a longer ship takes "X Y T". The type code is not checked
      here but by the Ship constructor. The prompt names sizes 1 to 3 only
      (any other size fails its word lookup). */
  function ShipParams(size: nat, line: Line): (r: Result<Params>)
    requires 1 <= size <= 3
    ensures r == Err(QuitGame) <==> line.QuitLine?
    ensures r.Ok? <==>
      line.Tokens? && |line.items| == (if size == 1 then 2 else 3) && AllNumbers(line.items)
    ensures r.Ok? ==> r.value.x == line.items[0].value && r.value.y == line.items[1].value
    ensures r.Ok? ==> r.value.t == if size == 1 then 0 else line.items[2].value
    ensures r.Err? && line.Tokens? ==>
      r.error == if |line.items| == (if size == 1 then 2 else 3) then NotANumber else WrongCount
  {
    match line
    case QuitLine => Err(QuitGame)
    case Tokens(ts) =>
      var xyt := if size == 1 then ts + [Number(0)] else ts;
      if |xyt| != 3 then Err(WrongCount)
      else if !AllNumbers(xyt) then Err(NotANumber)
      else Ok(Params(xyt[0].value, xyt[1].value, xyt[2].value))
  }

  // ---------------------------------------------------------------------
  // Firing
  // ---------------------------------------------------------------------

  /** Player.play(enemy) once the target index is chosen: the shot is
      recorded in the shooter's map and resolved on the enemy's board, and
      the result says whether the enemy's fleet is now sunk. A repeated
      index changes nothing. */
  function Play(me: Player, enemy: Player, hit: int): (r: Result<(Player, Player, bool)>)
    requires Valid(me) && Valid(enemy) && 0 <= hit < GridSize
    ensures r.Err? <==> me.hitMap[hit]
    ensures r.Err? ==> r.error == AlreadyFired(ShotCell(hit))
    ensures r.Ok? ==> Valid(r.value.0) && Valid(r.value.1)
    ensures r.Ok? ==> r.value.0.board == me.board && r.value.1.hitMap == enemy.hitMap
    ensures r.Ok? ==> r.value.0.hitMap == me.hitMap[hit := true]
    ensures r.Ok? ==> |HitVariants(r.value.0.hitMap)| == |HitVariants(me.hitMap)| - 1
    ensures r.Ok? ==> r.value.1.board == BoardHit(enemy.board, ShotCell(hit))
    ensures r.Ok? ==> (r.value.2 <==> BoardKilled(r.value.1.board))
  {
    match GetHit(me.hitMap, hit)
    case Err(e) => Err(e)
    case Ok((cell, m)) =>
      var board := BoardHit(enemy.board, cell);
      Ok((me.(hitMap := m), enemy.(board := board), BoardKilled(board)))
  }
}
