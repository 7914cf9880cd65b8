# Five in a row: a Dafny model of the game logic and the bot

This project models the game logic of a five-in-a-row game (gomoku on a bounded
`rows × cols` grid of `' '`, `'O'` and `'X'`). The C++ sources hold the logic in several
near-duplicate copies:

- `finalProject.cpp`: the graphical game. Its bot looks for an immediate win, then blocks a
  four or an open three, then searches three plies with minimax. It scores with the
  1000/−1500 table and uses a `std::set` of candidate moves.
- `sapfinal.cpp`: a variant. Its bot only searches, to a depth that grows as the grid
  fills. It scores with the 1100/−1000 table and uses a `vector` of candidates, which may
  repeat.
- `game.cpp`: the grid primitives, the players, and the ray-walking `checkWinner`.
- `gameLogic.cpp`: the console `TicTacToe` state machine, with a full-line scan as its
  `checkWinner`.

The model is functional. A `Board` is an immutable record with a well-formedness
predicate. Every "write a stone, look, write `' '` back" sequence of the source is a pure
function of the board, and the board the caller holds afterwards is the one it passed
in. The two bot variants share one definition, parameterised by
`Scanners.Variant = Fixed | Dynamic`.

Modules, leaves first:

- `Cells`: directions and coordinates.
- `Grid`: the board and its primitives.
- `Players`: the two symbols and turn switching.
- `WinRay`: the `WinSequence` winner check of `finalProject.cpp` and `game.cpp`.
- `WinScan`: the full-line winner check of `sapfinal.cpp` and `gameLogic.cpp`.
- `Scanners`: `countSequence`, `countConsecutive` and `countOpenConsecutive`.
- `Evaluator`: `evaluatePosition` and `evaluateGrid`.
- `Candidates`: both versions of `getCandidateMoves`.
- `Threats`: `canWinNextMove` and `detectAndBlockThreat`.
- `GameTree`: alpha-beta on an explicit game tree, and the plain minimax value it must equal.
- `Search`: the bot's `minimax`, as alpha-beta over the tree of candidate moves.
- `Bot`: `getDynamicDepth` and `makeMove`.
- `TicTacToe`: the console game.

Both `minimax` functions run alpha-beta in place on the shared grid. The model builds the
game tree that this recursion walks:

- A position that is full, or at depth 0, is a leaf scored by `evaluateGrid`.
- Any other position has one child per candidate move.

`GameTree.AlphaBeta` reproduces the source's loop exactly, with its fail-soft return, its
shared `alpha`/`beta` and its `beta <= alpha` cut. The main theorems are:

- `GameTree.AlphaBetaExact`: alpha-beta with the full window returns the plain minimax
  value.
- `Search.MinimaxFinite`: the `INT_MIN`/`INT_MAX` sentinels never reach the root once a
  stone is on the board.

## Model

| member | source | states |
|---|---|---|
| Grid.NewBoard | Home/src/game.cpp:56-58 | the new grid has the requested dimensions and every cell is `' '` |
| Grid.ClearGrid | Home/src/finalProject.cpp:95-99 | dimensions are kept and afterwards every cell is empty |
| Grid.SetCell | Home/src/game.cpp:107-117 | the written cell reads back as the symbol, every other cell reads as before, and the dimensions are kept |
| Grid.UndoRestores | Home/src/finalProject.cpp:524-531 | writing a symbol and then writing back the previous content gives back exactly the original grid (the look-ahead's place-then-undo) |
| Grid.WriteBackIsNoop | Home/src/finalProject.cpp:524-531 | writing a cell's own content back changes nothing |
| Grid.IsFull | Home/src/game.cpp:122-129 | true exactly when no in-bounds cell holds `' '` |
| Grid.CountEmptyCells | Home/src/sapfinal.cpp:93-105 | the count equals the size of the set of empty cells |
| Grid.FullIffNoEmptyCells | Home/src/sapfinal.cpp:122-129 | `isFull()` holds exactly when `countEmptyCells()` is 0 |
| Grid.PlaceCountsDown | Home/src/sapfinal.cpp:93-105 | a stone on an empty cell removes exactly that cell from the empty cells and lowers the count by one |
| Players.NewPlayerManager | Home/src/game.cpp:139 | the first player is `'O'` |
| Players.SwitchPlayer | Home/src/game.cpp:145-147 | the result is a player symbol different from the current one |
| Players.SwitchTwice | Home/src/finalProject.cpp:153-155 | switching twice gives back the original manager |
| WinRay.RayFiveIff | Home/src/finalProject.cpp:176-211 | the two four-step walks from a cell, plus the cell itself, reach five exactly when five consecutive cells through it along that direction hold its symbol |
| WinRay.CheckWinner | Home/src/finalProject.cpp:172-215 | a win is reported exactly when some direction has five in a row through (row, col). The reported start and end cells are the ends of an in-bounds, collinear run of 5 to 9 cells through (row, col), all holding its symbol. Otherwise the result is `{false, -1, -1, -1, -1}`. The textually identical copy in game.cpp is the same member |
| WinScan.LineRangeIsBoard | Home/src/sapfinal.cpp:162-187 | each loop's index range, both diagonal ranges included, is exactly the set of indices whose cell is on the grid |
| WinScan.ScanLine | Home/src/gameLogic.cpp:37-63 | one counter-resetting loop answers true exactly when the line has a window of five consecutive copies of the symbol |
| WinScan.CheckWinner | Home/src/sapfinal.cpp:158-190 | true exactly when the row, the column or one of the diagonals through (row, col) holds five consecutive copies of the symbol at (row, col), wherever on the line they are. The console game's copy (gameLogic.cpp) is the same member |
| WinScan.RayWinImpliesScanWin | Home/src/sapfinal.cpp:158-190 | every win the ray walk reports is also reported by the line scan |
| WinScan.ScanMayMissAnchor | Home/src/sapfinal.cpp:158-190 | the converse fails: on the one-row grid `"OOOOO O"` the scan from (0, 6) reports a win that the ray walk from (0, 6) does not |
| Scanners.NoReentry | Home/src/finalProject.cpp:411-418 | once a walk is off the grid, skipping the remaining off-grid cells adds nothing, so skipping and stopping agree |
| Scanners.WalkFromIsRay | Home/src/finalProject.cpp:442-455 | the skipping walk counts exactly the matching run before the first mismatch. It reports an open end exactly when that mismatch is an empty in-bounds cell |
| Scanners.CountSequence | Home/src/finalProject.cpp:404-434 | the result is the length of the run through (row, col) along the direction, not counting the cell, and is at most 8 |
| Scanners.Tier | Home/src/sapfinal.cpp:377-382 | a shape scores nonzero exactly when it has a run of four or more, or a run of 2 or 3 with an open end. Own scores are never negative and opponent scores never positive. The four-tier is 1000/−1500 in one table and 1100/−1000 in the other, and every shorter shape stays within −900 .. 700, so a four outweighs it for either side |
| Scanners.CountConsecutive | Home/src/finalProject.cpp:438-481 | the result is the table score of the run length and the number of open ends (0 to 2) through (row, col), signed by whether the symbol is the bot's |
| Scanners.CountOpenConsecutive | Home/src/finalProject.cpp:628-681 | the result is at most 8. It is at least the run length of every direction with an open end, and it is 0 or the run length of one such direction, so it is their maximum, or 0 when none qualifies |
| Evaluator.Centrality | Home/src/finalProject.cpp:391-393 | the centre bonus is at most 50, and exactly 50 only at the centre cell |
| Evaluator.EvaluatePosition | Home/src/finalProject.cpp:387-402 | a bot stone scores at least its centre bonus and an opponent stone at most its own, and the four direction terms are bounded by the table's extremes |
| Evaluator.EvaluatePositionIsTable | Home/src/finalProject.cpp:387-402 | the score equals the centre bonus plus, for each of the four directions, the table entry of the run length and open ends through the cell, signed by ownership |
| Evaluator.CellScore | Home/src/finalProject.cpp:376-380 | an empty cell contributes nothing, a bot cell at least its centre bonus, and an opponent cell at least −2 times its centre bonus |
| Evaluator.EvalSplits | Home/src/finalProject.cpp:370-384 | from any row-major point, the running score equals the sum of `evaluatePosition` over the bot's cells minus twice the sum over the opponent's cells |
| Evaluator.EvaluateGrid | Home/src/finalProject.cpp:370-384 | the grid score is the sum of `evaluatePosition` over the bot's stones minus twice the sum over the opponent's stones; empty cells contribute nothing |
| Evaluator.EmptyBoardScoresZero | Home/src/finalProject.cpp:370-384 | a grid with no stones evaluates to 0 |
| Candidates.CandidateMoves | Home/src/finalProject.cpp:550-571 | the moves are exactly the empty in-bounds cells with a stone among their 8 neighbours, in strictly increasing row-major order |
| Candidates.IncreasingHasNoRepeats | Home/src/finalProject.cpp:570 | a strictly increasing list, such as one read out of the `std::set`, has no repeated cell |
| Candidates.CandidateList | Home/src/sapfinal.cpp:414-434 | a cell occurs in the vector exactly when it is an empty in-bounds cell next to a stone. Repeats are allowed |
| Candidates.SameMoves | Home/src/sapfinal.cpp:414-434 | the vector and the set versions contain the same cells |
| Candidates.CandidatesExistIff | Home/src/finalProject.cpp:550-571 | there is a candidate exactly when the grid has both a stone and an empty cell, so there is none on an empty or a full grid |
| Threats.CanWinNextMove | Home/src/finalProject.cpp:519-535 | on success, the cell is the first empty cell in row-major order where the symbol makes five through it. On failure, no such cell exists. Either way the grid is handed back unchanged |
| Threats.FourThreatIsWin | Home/src/finalProject.cpp:591-600 | an empty cell gives `countSequence >= 4` in some direction after the symbol is placed exactly when placing it wins |
| Threats.OpenCountIff | Home/src/finalProject.cpp:605 | `countOpenConsecutive >= 3` holds exactly when some direction with an open end has a run of at least three |
| Threats.DetectAndBlockThreat | Home/src/finalProject.cpp:574-625 | if any empty cell makes a four, the result is the first such cell. Otherwise, if any makes an open three, the result is the first of those. Otherwise there is no result. The grid is handed back unchanged |
| GameTree.ScoreLattice | Home/src/finalProject.cpp:497-510 | `max` and `min` on scores with −∞/+∞ are the least upper and greatest lower bounds, and return one of their arguments |
| GameTree.AlphaBetaSound | Home/src/finalProject.cpp:483-515 | for any window `alpha < beta`, the pruned result is exact when it lies inside the window and a bound on the true minimax value when it lies outside |
| GameTree.AlphaBetaExact | Home/src/finalProject.cpp:483-515 | alpha-beta with the full window returns exactly the plain minimax value of the tree |
| GameTree.ValueFinite | Home/src/finalProject.cpp:483-515 | a tree whose every inner node has a child has a finite minimax value |
| GameTree.NoMovesSentinel | Home/src/finalProject.cpp:490-505 | a node with no children scores −∞ at a maximising level and +∞ at a minimising one |
| Search.MovesAreCandidates | Home/src/sapfinal.cpp:390-402 | the moves the search expands, in either variant, are exactly the candidate cells |
| Search.SearcherOfMeans | Home/src/finalProject.cpp:489-508 | the bot's search expands the variant's candidate moves, scores leaves with `evaluateGrid`, and plays the bot at maximising levels and the opponent at minimising ones |
| Search.SearchTreeShape | Home/src/finalProject.cpp:484-508 | a position is a leaf exactly when the grid is full or the depth is 0, and then it holds `evaluateGrid`. Otherwise its children are, in order, the positions after each candidate move by the side to move, one level shallower |
| Search.MinimaxAtLeaf | Home/src/sapfinal.cpp:387 | on a full grid or at depth 0, `minimax` returns `evaluateGrid` for any window |
| Search.Minimax | Home/src/finalProject.cpp:483-515 | in any window with alpha below beta the result is exact inside the window and a bound on the game tree's minimax value outside it; called with the `INT_MIN`/`INT_MAX` window it returns exactly that value |
| Search.StoneMeansMoves | Home/src/sapfinal.cpp:414-434 | a grid that has a stone and is not full has a candidate move |
| Search.NodesHaveMoves | Home/src/finalProject.cpp:483-515 | from any grid with a stone, every inner position of the search has at least one move |
| Search.BotNeverStuck | Home/src/finalProject.cpp:550-571 | the bot's move generator proposes a move on every grid that has a stone and is not full |
| Search.MinimaxFinite | Home/src/finalProject.cpp:483-515 | from any grid with a stone, the full-window `minimax` value is finite, never a sentinel |
| Bot.NewBotManager | Home/src/finalProject.cpp:684-685 | the manager keeps the bot's symbol, its opponent is the other of `'O'`/`'X'`, and no move has been made yet (−1, −1) |
| Bot.DynamicDepth | Home/src/sapfinal.cpp:311-316 | the depth is 2, 3 or 4. It is 2 exactly when more than 70 cells are empty, and 4 exactly when at most 50 are |
| Bot.DeeperAsGridFills | Home/src/sapfinal.cpp:311-316 | fewer empty cells never give a shallower search |
| Bot.SearchDepth | Home/src/sapfinal.cpp:441-448 | the bot searches 1 to 3 plies below its move: exactly 3 in the graphical game (finalProject.cpp:718), and the dynamic depth minus one in the other |
| Bot.RootScoreIsValue | Home/src/finalProject.cpp:716-719 | each candidate's score is the exact minimax value of the position after the bot plays there |
| Bot.RootScoreAboveSentinel | Home/src/sapfinal.cpp:446-448 | each candidate's score is finite, so it beats the initial `INT_MIN` |
| Bot.BestMove | Home/src/finalProject.cpp:711-727 | the chosen candidate has the greatest score, and it is the first with that score (the strict `>`). No candidate is chosen only when every score is −∞ |
| Bot.SearchAndPlace | Home/src/sapfinal.cpp:440-465 | with no candidates, neither the grid nor the last move changes. Otherwise the bot's symbol goes into exactly the first best-scoring candidate, which becomes the last move |
| Bot.MakeMove | Home/src/finalProject.cpp:687-736 | the bot either changes nothing or writes its symbol into one previously empty cell, and records it. In the graphical game the order is: the first winning cell if there is one; else the first cell completing an opponent four; else the first blocking an open three; else the best searched move. In the dynamic game the move is the one `Bot.SearchAndPlace` describes, at the dynamic depth |
| TicTacToe.NewGame | Home/src/gameLogic.cpp:15-17 | a `rows × cols` grid of `' '`, with `'O'` to move and the game running |
| TicTacToe.HandleMove | Home/src/gameLogic.cpp:19-32 | a move after the game ends, off the grid or onto a stone leaves the whole state unchanged. Otherwise it writes the mover's symbol into exactly (row, col), ends the game exactly when the line scan finds five, and passes the turn |
| TicTacToe.HandleMoveKeepsInv | Home/src/gameLogic.cpp:31 | the player to move is always `'O'` or `'X'`, and it changes on every accepted move, including the winning one |
| TicTacToe.AcceptedMoveFillsOneCell | Home/src/gameLogic.cpp:24 | an accepted move lowers the number of empty cells by exactly one |
| TicTacToe.OverIsFrozen | Home/src/gameLogic.cpp:20-21 | once the game is over a move changes nothing |
| TicTacToe.GameEndsOnFive | Home/src/gameLogic.cpp:26-29 | a running game ends only on an accepted move that makes five for the player who made it |
| TicTacToe.PlayKeepsInv | Home/src/gameLogic.cpp:19-32 | every state reached by a sequence of clicks has a well-formed grid and a player to move |
| TicTacToe.FrozenAfterGameOver | Home/src/gameLogic.cpp:20-21 | once over, no sequence of clicks changes the state |
| TicTacToe.PlayOnlyFills | Home/src/gameLogic.cpp:19-32 | a sequence of clicks never changes a cell that holds a stone, never adds empty cells, and a finished game stays finished |

## Left out

- Graphics are left out: `WindowManager`, `GameMenu`, `drawGrid`, `drawSymbol`, `drawWinningLine`, `displayWinner`, `displayDrawMessage` and `delay`. They render and hold no game logic. The drawing call inside `BotManager::checkWinner` (finalProject.cpp:537-548) is dropped, and that member is the pure `WinRay.CheckWinner`.
- The `Application::run` loops are left out: mouse and keyboard polling, pixel-to-cell conversion, name entry and the `time()` countdown. They are input and clock handling.
- `cout` messages and `TicTacToe::displayBoard` are left out. They are console output only.
- C++ `int` overflow is not modelled. Scores are unbounded integers. The `INT_MIN`/`INT_MAX` sentinels are the separate values −∞/+∞ of `GameTree.Score`, so a genuine score can never coincide with a sentinel.
- Bot.MakeMove requires a valid configuration, with the bot playing `'O'` or `'X'`. The source only ever constructs a bot with one of these.
- The caller's `checkWinner(-1, -1)` after a bot that made no move (sapfinal.cpp:603-606) is left out. Every winner check requires in-bounds coordinates.
- Search.Minimax is defined as alpha-beta over the explicit tree of positions the source's recursion visits, not as a loop over a mutable grid. The place-then-undo of each child becomes the pure `Grid.SetCell`, and `Grid.UndoRestores` states why that is faithful.
- The search in `Search` and `Bot` is stated for any move generator that proposes empty cells and any evaluation. `Search.SearcherOfMeans` and `Search.BotNeverStuck` connect the bot's own generator and evaluation to it.
- Bot.BestMove: proves "first strictly best" and that no move is chosen only when all scores are −∞. It does not separately restate that the scores are finite; `Bot.RootScoreAboveSentinel` proves that.
