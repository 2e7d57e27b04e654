/** GameLogic.play_game: one pass of the turn loop. */
module GameLogic {
  import opened Geometry
  import opened Outcomes
  import opened Boards
  import opened Players

  datatype Role = Human | Bot

  function Other(r: Role): Role {
    if r == Human then Bot else Human
  }

  /** Both players and whose turn it is. */
  datatype State = State(human: Player, bot: Player, turn: Role)

  predicate ValidState(g: State) {
    Valid(g.human) && Valid(g.bot)
  }

  function Mover(g: State): Player {
    if g.turn == Human then g.human else g.bot
  }

  function Opponent(g: State): Player {
    if g.turn == Human then g.bot else g.human
  }

  /** Cells still open to fire at, summed over both players; every accepted
      turn lowers it by one, so a game has at most 72 accepted turns. */
  function Remaining(g: State): int {
    |HitVariants(g.human.hitMap)| + |HitVariants(g.bot.hitMap)|
  }

  /** The move of the player whose turn it is: a typed line from the human,
      or the index the bot drew from its hit variants. */
  datatype Move = Typed(line: Line) | Picked(index: int)

  /** What one pass of the loop leads to. */
  datatype Step =
    | Next(game: State)                 // accepted shot, the turn passes
    | Retry(game: State, error: Error)  // ValueError: same state, same mover
    | Over(winner: Role, game: State)   // the shot sank the whole fleet
    | Quit                              // QuitGame leaves the loop

  /** The start of play_game, given the two boards the players generated:
      both hit maps fresh and the human moves first. */
  function NewGame(humanBoard: Board, botBoard: Board): (g: State)
    requires WellFormed(humanBoard.field) && WellFormed(botBoard.field)
    ensures ValidState(g) && g.turn == Human
    ensures g.human.board == humanBoard && g.bot.board == botBoard
    ensures Remaining(g) == 2 * GridSize
  {
    InitialVariants();
    State(Player(humanBoard, NewHitMap()), Player(botBoard, NewHitMap()), Human)
  }

  /** Puts the two players back in their seats after the mover shot. */
  function Seat(g: State, mover: Player, opponent: Player): State {
    if g.turn == Human then g.(human := mover, bot := opponent)
    else g.(human := opponent, bot := mover)
  }

  /** One pass of the loop of play_game: the mover plays; a ValueError keeps
      the mover, a shot that sinks the fleet ends the game with the mover as
      winner, any other shot hands the turn over. */
  function TurnStep(g: State, m: Move): (r: Step)
    requires ValidState(g)
    requires m.Typed? <==> g.turn == Human
    requires m.Picked? ==> m.index in HitVariants(g.bot.hitMap)
    ensures r.Quit? <==> m == Typed(QuitLine)
    ensures r.Retry? ==> r.game == g
    ensures m.Picked? ==> !r.Retry?
    ensures m.Typed? && m.line.Tokens? ==>
      (r.Retry? <==> MakeHit(m.line).Err? || Mover(g).hitMap[MakeHit(m.line).value])
    ensures r.Retry? ==>
      && m.Typed?
      && r.error == (if MakeHit(m.line).Err? then MakeHit(m.line).error
                     else AlreadyFired(ShotCell(MakeHit(m.line).value)))
    ensures r.Over? ==> r.winner == g.turn && r.game.turn == g.turn
    ensures r.Over? ==> BoardKilled(Opponent(r.game).board)
    ensures r.Next? ==> r.game.turn == Other(g.turn) && !BoardKilled(Mover(r.game).board)
    ensures r.Next? || r.Over? ==> ValidState(r.game) && Remaining(r.game) == Remaining(g) - 1
    ensures (r.Next? || r.Over?) && g.turn == Human ==>
      r.game.human.board == g.human.board && r.game.bot.hitMap == g.bot.hitMap
    ensures (r.Next? || r.Over?) && g.turn == Bot ==>
      r.game.bot.board == g.bot.board && r.game.human.hitMap == g.human.hitMap
    ensures (r.Next? || r.Over?) && m.Typed? ==>
      && MakeHit(m.line).Ok?
      && r.game.human.hitMap == g.human.hitMap[MakeHit(m.line).value := true]
      && r.game.bot.board == BoardHit(g.bot.board, ShotCell(MakeHit(m.line).value))
    ensures (r.Next? || r.Over?) && m.Picked? ==>
      && r.game.bot.hitMap == g.bot.hitMap[m.index := true]
      && r.game.human.board == BoardHit(g.human.board, ShotCell(m.index))
  {
    var hit: Result<int> := match m
      case Typed(line) => MakeHit(line)
      case Picked(i) => Ok(i);
    if hit.Err? then
      if hit.error == QuitGame then Quit else Retry(g, hit.error)
    else
      match Play(Mover(g), Opponent(g), hit.value)
      case Err(e) => Retry(g, e)
      case Ok((mover, opponent, won)) =>
        var g' := Seat(g, mover, opponent);
        if won then Over(g.turn, g') else Next(g'.(turn := Other(g.turn)))
  }
}
