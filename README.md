# Othello rules engine in Dafny

This project models and verifies the rules engine of a small Othello (Reversi) program, `othellolib.py`. It covers:

- the n-by-n board of integers: BLACK = -1, WHITE = 1, EMPTY = 0;
- the opening position (`init_board`);
- the three ray scans that share one termination rule: legality (`is_valid_move`), the flip count (`count_flipped_pieces`) and move application (`do_move`);
- the row-major list of legal cells (`get_valid_moves`);
- the computer player's choice (`move_AI`);
- one turn (`move_one_step`), and the game loop with its final tally (`game`).

Modules, one file each:

- `Grid` (`grid.dfy`): the board as a value, cell counts, and the opening position.
- `Engine` (`engine.dfy`): the scans as recursive functions that mirror the source's `while` loops.
  - `Run` is the scan loop.
  - `Enclosed` is one direction's bracketed run.
  - `ValidInDirs`, `FlipsInDirs` and `FlipDirs` are the direction loops of the three functions.

  Engine also proves how the scans relate. `do_move` flips direction by direction on a board that keeps changing. The proofs show that the result equals a cellwise description computed on the original board, and that it changes exactly `count_flipped_pieces` cells.
- `Enumerate` (`enumerate.dfy`): `get_valid_moves` as recursion over rows and columns.
- `Ai` (`ai.dfy`): `move_AI`, with Python's `max` modelled as a scan that keeps the first maximum.
- `Play` (`play.dfy`): the parts of the source that change state, as methods on an `array2<int>`: `init_board`, `do_move` and `move_one_step`. Each method is proved against the functional definition of what it does.
  - `Snapshot` reads the array as a `Board`.
  - The move source is a parameter: a function from board and piece to an optional cell.
- `GameLoop` (`gameloop.dfy`): `game`, the loop that alternates the two sides on one array until a pass ends the game, and its tally. `RoundSpec` describes one pass of the loop body and `GameSpec` iterates it; the `Game` method's result is exactly what `GameSpec` computes from the opening.

Where the source's own description and its code disagree, the model follows the code:

- `move_AI` does not break ties at random. Python's `max` returns the first maximal move in list order, which is row-major order.
- The game ends as soon as the side to move has no valid move (`othellolib.py:238-240`). It does not wait for both sides to pass. After a SKIP, the other side moves at once, and then the turn passes as after any step. As a result, the side that did not skip moves twice in a row. The model keeps this behaviour.
- `init_board` does not check the size. The model requires n >= 2, which is what makes the four opening cells exist.
- `do_move` does not check that the move is legal. `DoMove` is defined for every on-board cell, as the code is.

## Model

| member | source | states |
|---|---|---|
| Grid.Opponent | othellolib.py:79 | the opponent differs from `piece` and is BLACK or WHITE (BLACK unless `piece` is WHITE) |
| Grid.Opening | othellolib.py:44-55 | definition of the opening board; see `Grid.OpeningLayout` and `Grid.OpeningCounts` |
| Grid.RowCount | othellolib.py:242-243 | definition of the per-row count of a value; see `Grid.CountTotal` and `Grid.CountSet` |
| Grid.Count | othellolib.py:242-243 | definition of the board count of a value that the tally uses; see `Grid.CountTotal` and `Grid.CountSet` |
| Grid.OpeningLayout | othellolib.py:44-55 | the opening board is n by n: WHITE on (n/2-1, n/2-1) and (n/2, n/2), BLACK on (n/2-1, n/2) and (n/2, n/2-1), EMPTY everywhere else |
| Grid.OpeningCounts | othellolib.py:44-55 | the opening holds exactly two BLACK and two WHITE pieces and n*n - 4 EMPTY cells |
| Grid.CountTotal | othellolib.py:242-243 | on a board of valid cells, the BLACK, WHITE and EMPTY counts add up to the number of cells |
| Grid.CountSet | othellolib.py:106 | setting one cell moves it from the count of its old value to the count of its new one |
| Engine.Run | othellolib.py:83-86 | definition of the scan loop that `is_valid_move` shares with `do_move` (lines 111-114) and `count_flipped_pieces` (lines 188-191): it steps over opponent cells until the border or another value; see `Engine.RunFacts` and `Engine.BracketIsRun` |
| Engine.Enclosed | othellolib.py:80-88 | definition of one direction's bracketed run length, the test also made at lines 115 and 192: 0 when the scan ends off the board or on a non-`piece` cell; see `Engine.EnclosedIsBracketed` |
| Engine.ValidInDirs | othellolib.py:80-89 | definition of the early-return direction loop of `is_valid_move`; see `Engine.ValidInDirsExists` |
| Engine.FlipsInDirs | othellolib.py:185-194 | definition of the summing direction loop of `count_flipped_pieces`; see `Engine.FlipsInDirsPositive` |
| Engine.IsValidMove | othellolib.py:73-89 | definition of `is_valid_move`; see `Engine.ValidMoveIsBracketing` and `Engine.ValidMoveFlips` |
| Engine.CountFlipped | othellolib.py:179-194 | definition of `count_flipped_pieces`; see `Engine.DoMoveChanges` and `Engine.ValidMoveCounts` |
| Engine.DirectionsAreTheUnitSteps | othellolib.py:13-17 | the direction table holds each of the eight unit steps exactly once |
| Engine.RunFacts | othellolib.py:83-86 | the cells the scan loop steps over are on the board and hold the opponent; the cell where it stops is off the board or holds something else |
| Engine.ScanFacts | othellolib.py:80-86 | the same facts for the scan that starts next to (row, col), counted from (row, col) |
| Engine.EnclosedIsBracketed | othellolib.py:80-88 | a direction encloses a nonzero run exactly when some k >= 1 brackets it (k opponent cells, then a `piece` cell on the board), and then the run has exactly that length |
| Engine.BracketIsRun | othellolib.py:83-88 | a bracketed run of length k is the run the scan finds |
| Engine.ValidInDirsExists | othellolib.py:80-89 | the early-return direction loop answers true exactly when some direction encloses a run |
| Engine.ValidMoveIsBracketing | othellolib.py:73-89 | a move is valid exactly when the target cell is EMPTY and some direction brackets a run of one or more opponent cells with a `piece` cell |
| Engine.FlipsInDirsPositive | othellolib.py:182-194 | the flip sum is positive exactly when some direction encloses a run |
| Engine.ValidMoveFlips | othellolib.py:73-89 | a move is valid exactly when the target is EMPTY and `count_flipped_pieces` is at least 1 |
| Engine.SetRun | othellolib.py:115-117 | flipping a path keeps the board's shape |
| Engine.FlipRay | othellolib.py:108-117 | one round of the direction loop keeps the board's shape |
| Engine.FlipDirs | othellolib.py:108-117 | the direction loop keeps the board's shape |
| Engine.DoMove | othellolib.py:102-117 | `do_move` keeps the board's shape |
| Engine.RayInjective | othellolib.py:108-112 | different steps along one direction reach different cells |
| Engine.RaysDisjoint | othellolib.py:108-112 | rays from one cell in two directions share only their origin |
| Engine.SetRunCells | othellolib.py:115-117 | flipping a path sets exactly the path's cells and leaves every other cell as it was |
| Engine.FlipRayCells | othellolib.py:108-117 | one round sets to `piece` exactly the run its direction encloses |
| Engine.SetRunCounts | othellolib.py:115-117 | flipping k cells of one value to another moves k cells between the two counts and adds k to the changed-cell count |
| Engine.RunAgrees | othellolib.py:83-86 | boards that agree along a ray give the same scan |
| Engine.EnclosedAgrees | othellolib.py:108-114 | boards that agree along a ray (origin excepted) enclose the same run there |
| Engine.OffOtherRays | othellolib.py:108-117 | a cell of one direction's ray lies on no run of another direction |
| Engine.NotTurnedAhead | othellolib.py:108-117 | earlier rounds do not touch the ray of the current direction |
| Engine.NextRoundAgrees | othellolib.py:108-117 | on the board earlier rounds leave, each round finds the same run it would find on the original board |
| Engine.TurnedByNext | othellolib.py:108-117 | the cells turned after i rounds are those turned after i - 1 rounds plus round i's run |
| Engine.AfterRounds | othellolib.py:106-117 | the board after i rounds keeps the shape |
| Engine.AfterRoundsStep | othellolib.py:108-117 | round i works on the board the previous rounds left, and adds its run to the flip sum |
| Engine.RoundCells | othellolib.py:108-117 | one round extends the cellwise description by that round's run |
| Engine.FlipDirsCells | othellolib.py:106-117 | after i rounds, a cell holds `piece` if it is the origin or lies on one of the first i enclosed runs, and its old value otherwise |
| Engine.EnclosedRunCells | othellolib.py:108-114 | the enclosed run's cells hold the opponent, both on the original board and on the board earlier rounds leave |
| Engine.RoundCounts | othellolib.py:108-117 | one round moves its run from the opponent's count to the mover's count |
| Engine.FlipRayCounts | othellolib.py:115-117 | a round that flips k opponent cells moves k cells between the counts |
| Engine.FlipDirsCounts | othellolib.py:106-117 | after i rounds the counts and the changed-cell count have moved by the first i terms of the flip sum |
| Engine.BracketedOnRun | othellolib.py:108-117 | a cell of a bracketed run lies on the run the scan encloses |
| Engine.RunIsTurned | othellolib.py:108-117 | a cell on an enclosed run is a turned cell |
| Engine.TurnedIsTurnedBy | othellolib.py:108-117 | the reference description of turned cells is the same as the cells the eight rounds turn |
| Engine.AllRounds | othellolib.py:106-117 | the eight rounds make up `do_move`, and the eight terms make up `count_flipped_pieces` |
| Engine.DoMoveCells | othellolib.py:102-117 | `do_move` puts `piece` on (row, col) and on every cell of every bracketed opponent run, and leaves all other cells as they were (runs that end at the border or at an EMPTY cell are not touched) |
| Engine.DoMoveCounts | othellolib.py:102-117 | `do_move` changes each colour's count as `count_flipped_pieces` predicts |
| Engine.DoMoveChanges | othellolib.py:179-194 | `count_flipped_pieces` equals the number of cells other than (row, col) that `do_move` changes; the board keeps its shape |
| Engine.ValidMoveCounts | othellolib.py:106-117 | a valid move flipping k >= 1 pieces raises the mover's count by k + 1, lowers the opponent's by k and the EMPTY count by 1, and keeps the cell values valid |
| Enumerate.RowMoves | othellolib.py:97-99 | the inner loop lists exactly the valid cells of the row from column c on, in increasing column order |
| Enumerate.MovesFrom | othellolib.py:96-99 | the outer loop lists exactly the valid cells from row r on, in row-major order |
| Enumerate.GetValidMoves | othellolib.py:91-100 | `get_valid_moves` lists exactly the on-board cells where `is_valid_move` holds, each once, in strictly increasing row-major order |
| Enumerate.HasMove | othellolib.py:238 | definition of the game loop's `any(...)` test; see `Enumerate.HasMoveIffMoves` |
| Enumerate.HasMoveIffMoves | othellolib.py:238 | on a square board, the game loop's `any(...)` check holds exactly when `get_valid_moves` is not empty |
| Enumerate.IncreasingIndex | othellolib.py:91-100 | in a row-major-increasing list, an entry that comes earlier in row-major order sits at a smaller index |
| Enumerate.EnclosingMove | othellolib.py:73-100 | an EMPTY cell where some direction encloses a run is in `get_valid_moves` |
| Enumerate.IncreasingUnique | othellolib.py:91-100 | two row-major-increasing lists with the same entries are the same list, so `get_valid_moves` is fixed by which cells are valid |
| Enumerate.InTail | othellolib.py:91-100 | in a row-major-increasing list, the tail holds exactly the entries other than the head |
| Enumerate.OpeningBracket | othellolib.py:44-55 | on the opening position, every bracket for BLACK is a single WHITE piece closed by a BLACK one, and it starts at one of the four cells next to the centre |
| Enumerate.OpeningHasMoves | othellolib.py:44-55 | on the opening of any n >= 4 board, each of the four cells next to the centre is a valid move for BLACK |
| Enumerate.OpeningOnlyMoves | othellolib.py:44-55 | on the opening of any n >= 4 board, BLACK has no valid move other than those four cells |
| Enumerate.OpeningMoves | othellolib.py:44-55 | on the opening of any n >= 4 board, `get_valid_moves` for BLACK is exactly the list of the four cells next to the centre in row-major order: `[(2, 3), (3, 2), (4, 5), (5, 4)]` on 8 by 8 |
| Ai.IsCorner | othellolib.py:163 | definition of the corner test; see `Ai.TierMovesAreTier` |
| Ai.IsEdge | othellolib.py:164 | definition of the edge test; see `Ai.TierMovesAreTier` |
| Ai.Filter | othellolib.py:167-172 | the comprehension keeps exactly the entries that pass, in order, so a row-major-increasing list stays increasing |
| Ai.BestIndex | othellolib.py:169 | Python's `max` scan finds an index with the largest flip count, and every earlier entry flips strictly fewer |
| Ai.MaxByFlips | othellolib.py:169 | the move `max` returns is in the list, flips at least as many pieces as any entry, and, in a row-major list, strictly more than every earlier entry |
| Ai.TierMoves | othellolib.py:161-177 | the list `move_AI` maximises over is row-major increasing, holds only valid moves, and is empty only when no move is valid |
| Ai.MoveAI | othellolib.py:153-177 | `move_AI` answers None exactly when `get_valid_moves` is empty, and otherwise one of the valid moves |
| Ai.FilterValid | othellolib.py:166-172 | a filtered list of valid moves is empty exactly when no valid move passes the test |
| Ai.TierMovesAreTier | othellolib.py:161-177 | the list `move_AI` maximises over holds exactly the corners if a valid corner exists, else the edges if a valid edge exists, else all valid moves |
| Ai.MoveAIChoice | othellolib.py:153-177 | `move_AI` answers None exactly when no cell is valid; otherwise its move is in its tier, flips at least as many pieces as any move of the tier, and flips strictly more than every tier move before it in row-major order |
| Play.InitBoard | othellolib.py:44-55 | `init_board` returns a new n-by-n array holding the opening position |
| Play.RayCells | othellolib.py:110-113 | the path along a direction has one entry per step |
| Play.RayCellsAt | othellolib.py:110-113 | entry j of the path is the cell j + 1 steps from (row, col) |
| Play.FlipPath | othellolib.py:115-117 | the flip loop sets the path's cells to `piece` in order, as `SetRun` describes |
| Play.Scanned | othellolib.py:109-113 | definition of the scan loop's state: `path` holds the first cells of the ray, (r, c) is the next cell, and the rest of the run starts there; see `Play.ScanStep` and `Play.ScanStop` |
| Play.ScanStep | othellolib.py:111-113 | one iteration of the scan loop over an opponent cell keeps the scan state and strictly shortens what is left of the run |
| Play.ScanStop | othellolib.py:111 | when the loop test fails, `path` holds exactly the run of opponent cells next to (row, col) |
| Play.SnapshotCell | othellolib.py:111 | the loop test on the array (on the board and holding the opponent) is the same test on the board it snapshots |
| Play.ScanPath | othellolib.py:109-113 | the scan loop collects the run of opponent cells next to (row, col) into `path` and stops one cell past it |
| Play.ScanDecides | othellolib.py:114-117 | the test after the scan decides the round: the round flips the path when the path is non-empty and a `piece` cell on the board closes it, and changes nothing otherwise |
| Play.FlipDirection | othellolib.py:108-117 | one round of the direction loop, done in place, leaves the board `FlipRay` describes |
| Play.DoMoveInPlace | othellolib.py:102-117 | `do_move` in place leaves the array holding `DoMove` of the old board |
| Play.StepStatus | othellolib.py:204-214 | definition of the status a step answers (SKIP, CONTINUE, WRONG); see `Play.StepEffects` and `Play.HonestStep` |
| Play.StepBoard | othellolib.py:204-214 | definition of the board a step leaves; see `Play.StepEffects` |
| Play.MoveOneStep | othellolib.py:196-214 | `move_one_step` answers SKIP for no proposal, CONTINUE after applying a valid move, and WRONG for an invalid one, and leaves the board as `StepBoard` says |
| Play.StepEffects | othellolib.py:204-214 | a step answers SKIP exactly when there is no proposal; the board changes only on CONTINUE; a step keeps the cell values valid and fills exactly one EMPTY cell on CONTINUE |
| Play.HonestStep | othellolib.py:143-151 | with a source that plays by the rules (like `move_input`, `move_random` or `move_AI`), a step never answers WRONG, and answers SKIP exactly when the side has no valid move |
| Play.HonestOnBoard | othellolib.py:143-151 | a source that plays by the rules proposes only cells on the board |
| Play.AiIsHonest | othellolib.py:153-177 | `move_AI` as a move source plays by the rules |
| GameLoop.Winner | othellolib.py:244-250 | BLACK wins exactly when it has strictly more pieces, WHITE exactly when it has strictly more, and equal counts are a draw |
| GameLoop.Tally | othellolib.py:242-252 | definition of the final report: the BLACK and WHITE counts, the winner, the board and the side to move; see `GameLoop.TallyReported` |
| GameLoop.TallyReported | othellolib.py:242-252 | the final tally reports the board's BLACK and WHITE counts, which together with the EMPTY count cover all n*n cells, and the winner |
| GameLoop.RoundSpec | othellolib.py:229-240 | definition of one pass of the loop body (step, SKIP then SKIP, WRONG, turn change, `any(...)` test); see `GameLoop.RoundProgress` and `GameLoop.PlayRound` |
| GameLoop.RoundProgress | othellolib.py:229-240 | one pass of the game loop keeps an n-by-n board of valid cells. With a source that plays by the rules, a pass that ends the game leaves the side to move without a valid move, and every other pass fills at least one EMPTY cell |
| GameLoop.PlayRound | othellolib.py:229-240 | the loop body, done in place, leaves the board, end flag and turn that `RoundSpec` describes: WRONG leaves board and turn alone; SKIP then SKIP ends the game; otherwise the turn passes and the game ends when the new side to move has no valid move |
| GameLoop.GameSpec | othellolib.py:227-252 | definition of the loop: passes of `RoundSpec` from a board and side until one ends the game, then its tally; None when the passes run out; see `GameLoop.GameSpecStep` |
| GameLoop.GameFrom | othellolib.py:216-252 | definition of the whole game: `GameSpec` from the opening position with BLACK to move; see `GameLoop.GameFromFacts` |
| GameLoop.GameSpecStep | othellolib.py:227-240 | one pass keeps an n-by-n board of valid cells; if it ends the game the result is the tally of the board it leaves, with the side then to move, and otherwise the result is that of the remaining passes on that board |
| GameLoop.GameSpecReported | othellolib.py:227-252 | whatever the loop reports is the tally of an n-by-n board of valid cells; with a source that plays by the rules, the side to move at the end has no valid move |
| GameLoop.Fills | othellolib.py:229-240 | definition: every pass that does not end the game fills an EMPTY cell; see `GameLoop.HonestFills` |
| GameLoop.HonestFills | othellolib.py:229-240 | with a source that plays by the rules, every pass that does not end the game fills an EMPTY cell |
| GameLoop.GameSpecEnds | othellolib.py:227-240 | when every pass that goes on fills a cell, more passes than the board's EMPTY cells always end the game |
| GameLoop.GameFromFacts | othellolib.py:216-252 | the game from the opening reports the tally of an n-by-n board; with a source that plays by the rules the side to move at the end has no valid move, and more than n*n - 4 passes always end the game |
| GameLoop.Game | othellolib.py:216-252 | `game`, done in place on one array, returns exactly the result of `RoundSpec` iterated from the opening with BLACK to move (`GameFrom`): the tally of the board at the pass that ends the game, with the side then to move, or None if maxRounds passes do not end it. That tally covers an n-by-n board; with a source that plays by the rules the side to move has no valid move, and more than n*n - 4 passes always end the game |

## Left out

- Rendering is left out: `stone`, `display_board`, the glyph and ANSI constants, `time.sleep` and every `print`. None of it affects the board.
- `move_input` is represented only as a source that plays by the rules (`Play.Honest`): it answers None exactly when `get_valid_moves` is empty, and otherwise keeps asking until the typed cell is in `get_valid_moves` (`othellolib.py:124-137`). Reading the keyboard, parsing the letters and the '?' listing are left out, and so is a user who never types a valid cell. WRONG therefore never comes from the source's three players. It arises only from an arbitrary move source, which the model also allows: one that may propose any on-board cell.
- `move_random` is represented only as a source that plays by the rules (`Play.Honest`): it answers None exactly when there is no valid move, and otherwise proposes a member of `get_valid_moves`. The random choice itself is not modelled.
- The player dictionaries, their names and the stored `move` callables are left out. The sides are BLACK for the first player and WHITE for the second (`GameLoop.Sides`), and the move source is a function parameter.
- `test_board` and the `__main__` entry point are left out.
- Python's list-of-lists board is modelled as one `array2<int>` whose rows cannot alias. `init_board` builds distinct rows, so nothing is lost.
- Python indexing outside the board is left out: negative indices that wrap around, and `IndexError`. `Engine.IsValidMove` and `Play.DoMoveInPlace` require an on-board cell. `Play.MoveOneStep` and `GameLoop.Game` require a source that proposes only on-board cells (`Play.OnBoard`).
- `Grid.Opening`: boards with n < 2 are excluded by a precondition. In the source, n = 0 raises an error and n = 1 wraps around to a single cell.
- GameLoop.Game: the source's loop never ends when a source keeps proposing invalid moves, so the model cuts it off after `maxRounds` passes and answers None. The model proves that, with a source that plays by the rules, more than n*n - 4 passes always suffice.
- `init_board(n=8)` and `game(..., n=8)` give n a default of 8 (`othellolib.py:44`, `othellolib.py:216`). In the model n is a required parameter of `Play.InitBoard` and `GameLoop.Game`; passing 8 gives the default.
- Engine.IsValidMove accepts any integer as `piece`, as the code does (its opponent is BLACK unless `piece` is WHITE). The count lemmas that need a real side require `IsPiece(piece)`.
