# SeaBattle game engine in Dafny

A model of the engine of a console Battleship game played by a human
against a bot on a fixed 6x6 grid (`main.py`). The fleet of each side is
one ship of size 3, two of size 2 and four of size 1. Ships may touch at
corners but may not overlap or share an edge. Players take turns firing at
cells of the opponent's grid. A shot at a cell fired at before is refused
and the same player tries again. The first player to sink the whole enemy
fleet wins.

The model is functional. Every class becomes an immutable datatype and
every mutating method becomes a function that returns the new value. The
game's exceptions become `Result` / `Outcome` values carrying an `Error`.

| module | file | models |
|---|---|---|
| `Geometry` | geometry.dfy | `Cell`, the board size 6x6, the bounds test |
| `Outcomes` | outcomes.dfy | `ShipException`, `ValueError` and `QuitGame` as error values |
| `Ships` | ships.dfy | `Ship`: the `pos` setter, `area`, `on_board`, `in_area`, `hit`, `killed` |
| `Fleet` | fleet.dfy | `ShipList.hit` and `ShipList.killed` |
| `Boards` | board.dfy | `Board`: construction, ship markers, `hit`, `killed` |
| `Players` | player.dfy | `Player.hit_variants`, `get_hit`, `play`; `HumanPlayer.make_hit`, `get_ship_params` |
| `Placement` | placement.dfy | `Player.generate_board` driven by a list of attempts, and `create_board` |
| `GameLogic` | game.dfy | one pass of the turn loop of `GameLogic.play_game` |

A ship has no separate size field. Its size is the length of its damage
flags, which the constructor creates as `[False] * size`. Its cells are
computed from the origin, the orientation and the size.

The placement rule is modelled in the direction the code uses. Each
earlier ship's cells are tested against the candidate's area
(main.py:208-210). Stated the other way round, with the candidate's cells
tested against each earlier ship's area, the test gives the same verdict
(`Ships.InAreaSymmetric`). For a
straight ship, its area minus the four corners is exactly the set of cells
that are on the ship or share an edge with it (`Ships.BlockedIffNear`). So
the test refuses exactly when the two ships overlap or touch along an edge
(`Ships.InAreaIffConflict`), and that relation is symmetric.

Python's `//` and `%` round toward minus infinity. Dafny's are Euclidean.
They agree whenever the divisor is positive, as it always is here (the
board width).

## Model

| member | source | states |
|---|---|---|
| `Geometry.Add` | main.py:28-29 | offsetting a cell moves it unless the offset is zero, and lands on the cell itself or an edge neighbour exactly when the offset is at most one unit step |
| `Ships.Run` | main.py:62-69 | the `pos` setter yields exactly `size` cells; the first is the origin and cell `i` is the origin moved `i` steps right (horizontal) or down (vertical) |
| `Ships.CellsDistinct` | main.py:62-69 | two different segments of one ship are never at the same cell |
| `Ships.NewShip` | main.py:36-48 | a type code other than 0 or 1 is refused with the ship-type error; otherwise the ship has the requested size and origin, vertical exactly for code 1, and no damage |
| `Ships.AllOnGrid` | main.py:85-87 | the bounds loop passes exactly when every cell has 1 <= x, y <= 6 |
| `Ships.OnBoard` | main.py:83-87 | `on_board` refuses, with the off-board error, exactly when some cell has x < 1, y < 1, x > 6 or y > 6 |
| `Ships.OnBoardIffEndsOnGrid` | main.py:83-87 | a straight ship is on the board exactly when its first and last cells are |
| `Ships.Area` | main.py:75-77 | the box from one step before the first cell to one step after the last blocks every cell of the ship itself: each lies inside it and none is a corner |
| `Ships.AnyBlocked` | main.py:93-97 | the loop of `in_area` finds a cell exactly when some cell is inside the box and not one of its corners |
| `Ships.InArea` | main.py:89-97 | `in_area` refuses, with the adjacency error, exactly when some cell of the ship lies in the closed box and is none of its four corners |
| `Ships.BlockedIffNear` | main.py:75-97 | a cell is blocked by a ship's area (box from one step before the first cell to one step after the last, corners excluded) exactly when it is on the ship or shares an edge with one of its cells |
| `Ships.InAreaIffConflict` | main.py:89-97 | `a.in_area(b.area)` refuses exactly when some cell of `a` and some cell of `b` coincide or share an edge |
| `Ships.InAreaSymmetric` | main.py:208-210 | the placement test gives the same verdict with the roles of the candidate and the earlier ship swapped |
| `Ships.IndexOf` | main.py:100-101 | the search in `hit` finds the first position of the cell, or reports that the cell is not on the ship |
| `Ships.Hit` | main.py:99-104 | `hit` answers true exactly when the cell is one of the ship's cells; the segment at that cell becomes damaged and every other flag keeps its value |
| `Ships.Killed` | main.py:71-73 | a killed ship is left exactly as it is by any further shot |
| `Ships.Shoot` | main.py:99-104 | repeated hits never move, turn or resize a ship, and leave a killed ship unchanged |
| `Ships.ShootMarks` | main.py:99-104 | after a series of shots a segment is damaged exactly when it was before or some shot targeted its cell |
| `Ships.KilledIffAllCellsShot` | main.py:71-73 | an undamaged ship is killed by a series of shots exactly when every one of its cells was targeted |
| `Ships.SingleCellKilledByOneHit` | main.py:71-73 | a one-cell ship is hit and killed by the first shot at its cell |
| `Fleet.FleetHit` | main.py:109-113 | `ShipList.hit` answers true exactly when some ship holds the cell; only the first such ship records the hit, all other ships are unchanged |
| `Fleet.FleetKilled` | main.py:115-117 | a sunk fleet is left exactly as it is by any further shot |
| `Fleet.FleetShoot` | main.py:109-113 | repeated `ShipList.hit` keeps every ship in its place, and leaves a sunk fleet unchanged |
| `Fleet.FleetHitMarks` | main.py:109-113 | in a fleet without shared cells, a shot damages exactly the segments at the target cell |
| `Fleet.FleetShootMarks` | main.py:109-113 | in a fleet without shared cells, after a series of shots a segment is damaged exactly when it was before or some shot targeted its cell; layouts do not change |
| `Fleet.FleetSunkIffAllCellsShot` | main.py:115-117 | an undamaged fleet without shared cells is sunk exactly when every cell of every ship was targeted |
| `Fleet.FleetHitKeepsKilled` | main.py:115-117 | once every ship is killed, a further shot keeps the fleet sunk |
| `Boards.EmptyField` | main.py:127 | a new grid has 6 rows of 6 markers, all empty |
| `Boards.SetMark` | main.py:163-165 | writing `field[y-1][x-1]` changes the marker of that one cell and no other |
| `Boards.Paint` | main.py:134-136 | after marking a list of cells, a cell shows the marker exactly when it is in the list; others keep theirs |
| `Boards.PlaceShips` | main.py:132-136 | after placing the ships, a cell shows the ship marker exactly when some ship holds it; others keep theirs |
| `Boards.NewBoard` | main.py:126-130 | a new board keeps the given fleet; with `show_ships` exactly the ship cells show the ship marker, without it every cell is empty |
| `Boards.BoardHit` | main.py:163-165 | `Board.hit` resolves the shot against the fleet; the target cell shows `X` if a ship was there and `T` otherwise; no other marker changes |
| `Boards.BoardKilled` | main.py:167-169 | once the board reports its fleet sunk, the fleet takes no further damage from any shot |
| `Players.NewHitMap` | main.py:176 | a new hit map has 36 entries, none set |
| `Players.HitVariants` | main.py:182-184 | `hit_variants` holds exactly the indices not fired at, in increasing order |
| `Players.FreshVariants` | main.py:182-184 | a map with no shot offers every one of its indices |
| `Players.InitialVariants` | main.py:176-184 | a new player has 36 cells to fire at |
| `Players.MarkShrinksVariants` | main.py:182-191 | marking an index not fired at before removes exactly one entry from `hit_variants` |
| `Players.ShotCell` | main.py:188 | an index in [0, 36) converts to a cell on the grid whose `(y-1)*6+(x-1)` is that index again |
| `Players.ShotIndex` | main.py:278 | a cell on the grid converts to an index in [0, 36) that `get_hit` converts back to the same cell |
| `Players.IndexToCellRoundTrip` | main.py:186-188 | every index in [0, 36) names a cell on the grid whose index is that number again |
| `Players.CellToIndexRoundTrip` | main.py:274-278 | every cell of the grid has an index `(y-1)*6+(x-1)` in [0, 36) that converts back to the same cell |
| `Players.GetHit` | main.py:186-192 | `get_hit` refuses an index fired at before, naming its cell, without change; otherwise it sets exactly that entry, returns the cell on the grid with that index, and `hit_variants` shrinks by one |
| `Players.MakeHit` | main.py:260-279 | the human's shot: the line "0" quits; otherwise it is accepted exactly when it is two numbers forming a cell on the grid, and then yields an index in [0, 36) naming that cell; each refusal carries the error of the first failing check (count, number, X range, Y range) |
| `Players.ShipParams` | main.py:281-299 | the human's placement input for a size from 1 to 3: the line "0" quits; a one-cell ship takes two numbers and gets type 0, a longer one takes three; a wrong count or a non-number is refused with its error |
| `Players.Play` | main.py:236-238 | `play` refuses an index fired at before without change; otherwise exactly the shooter's entry for that index is set, the enemy's board takes the hit at that cell, and the result is whether the enemy's fleet is sunk |
| `Placement.ClearOf` | main.py:209-210 | the loop over earlier ships refuses exactly when some earlier ship's `in_area` refuses |
| `Placement.ClearOfIffNoConflict` | main.py:208-210 | the candidate clears all earlier ships exactly when it overlaps or edge-touches none of them |
| `Placement.PlaceStep` | main.py:203-215 | one try appends the candidate exactly when its type code is valid, both its ends are on the grid and it conflicts with no earlier ship; errors come in the code's order (type, board, adjacency); it keeps the fleet legal |
| `Placement.Candidate` | main.py:204-206 | an attempt proposes a ship exactly when its input is accepted and its type code is 0 or 1; the ship has the requested size, no damage, the given origin, and is vertical exactly for code 1; otherwise the input's error, or the ship-type error, is raised |
| `Placement.Try` | main.py:203-215 | one pass of the retry body: an attempt whose candidate exists is accepted exactly when the candidate is on the board and conflicts with no earlier ship, and then the candidate is appended; without a candidate its error is passed on; it keeps the fleet legal |
| `Placement.PlaceAll` | main.py:199-217 | the retry loop fed a finite list of attempts (a bot draw or a typed line each): the quit line as the next attempt ends placement; a completed placement extends the fleet by one undamaged ship per size in order, each the candidate of one of the attempts, uses at least one attempt per size, and keeps the fleet legal; attempts accepted one after the other, one per size, always complete it |
| `Placement.RefusedFirstSkipped` | main.py:211-214 | a refused attempt (wrong count, non-number, bad type, off the board, adjacent) is used up and the same size is tried with the next attempt |
| `Placement.AcceptedFirstPlaced` | main.py:215-217 | an accepted attempt places the current size, and the next size is tried with the following attempts |
| `Placement.RefusedSkipped` | main.py:202-214 | any run of refused attempts leaves placement exactly as if they had never been made |
| `Placement.QuitAfterRefusals` | main.py:262-263 | the quit line typed after any number of refused attempts ends placement |
| `Placement.PlaceFrom` | main.py:199-217 | placing from the empty fleet gives a legal fleet of undamaged ships on the grid, ship `k` of size `sizes[k]` and proposed by one of the attempts; it quits only on a typed quit line; attempts accepted in turn complete it |
| `Placement.PlaceFleet` | main.py:199-217 | the same for the game's sizes 3, 2, 2, 1, 1, 1, 1 in that order |
| `Placement.GenerateBoard` | main.py:199-218 | a board is built exactly when placement completes; it holds the placed fleet and shows exactly the ship cells when built for the human and nothing for the bot |
| `Placement.OverlapRefused` | main.py:208-210 | a candidate with a valid type code is always refused when any of its segments lies on a cell of an earlier ship |
| `Placement.CornerTouchAccepted` | main.py:89-97 | any one-cell candidate on the grid, with a valid type code, diagonally next to an earlier one-cell ship is accepted |
| `GameLogic.NewGame` | main.py:322-323 | a game starts with the human to move, both hit maps empty and 72 cells open in total |
| `GameLogic.TurnStep` | main.py:325-337 | one pass of the loop: the line "0" quits; any other typed line is refused exactly when `make_hit` refuses it or its cell was fired at before, carrying `make_hit`'s error or the already-fired error naming the cell, and a refusal leaves the state and the mover unchanged; a bot move is never refused; an accepted shot sets exactly the shooter's entry for its index and the target board takes the hit at that cell; a shot that sinks the enemy fleet ends the game with the shooter as winner; any other shot passes the turn; each accepted shot lowers the open cells by one |

## Left out

- Console output is not modelled: `print`, `print_exception`, `print_ships`, `print_fields`, `print_score` and the text layout of `Board.__str__`. It is presentation only.
- Reading a line and splitting it into words is replaced by the `Line` value (the quit sentinel, or a list of words, each a number or not). Converting a word to `int` is taken as given.
- Random choices are parameters. `BotPlayer.make_hit` becomes a `Picked` move whose index must be in `hit_variants`. `BotPlayer.get_ship_params` becomes a `Drawn` attempt in the list given to `Placement.PlaceAll`; its range (1 to 6, type 0 or 1) is not required of the attempt.
- The unbounded retry loops are bounded or cut into passes. In `generate_board` the list of attempts bounds the retries, and `Placement.PlaceAll` gives up with `Exhausted` when it runs out. The loop of `play_game` is modelled one pass at a time by `GameLogic.TurnStep`. Their termination is probabilistic or interactive. `GameLogic.TurnStep` proves the measure that bounds accepted turns.
- The session loop `GameLogic.run`, the score counters and `won_player` are not modelled. They only count wins and print messages.
- `KeyboardInterrupt` and the catch-all `BaseException` handler are not modelled. The quit signal is the `QuitGame` error, and `GameLogic.TurnStep` returns `Quit` for it.
- A ship of size 0 is excluded by `size >= 1` in `Placement.PlaceStep`. In the code `area` would raise `IndexError` for it, but the game only builds sizes 3, 2 and 1.
- `Boards.NewBoard` requires the ships to be on the grid when they are shown. The code would otherwise write outside the grid or wrap a negative index, but it only builds boards from fleets that passed `on_board`.
- The position of an unplaced ship (`pos` is `None`, cells are `None`) is not modelled. The code always sets `pos` right after construction.
- `Players.ShipParams` requires a size from 1 to 3. For any other size `size_word[size]` raises `KeyError`, and the game asks only for sizes 3, 2 and 1.
