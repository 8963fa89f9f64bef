# C4_Killer: a verified model of a Connect-Four agent

C4_Killer is a Connect-Four player. On each turn, `moviment` tries every column that still has space. For each one it drops the agent's piece on a copy of the board and asks a depth-limited minimax search (`minimaxMinMovement` / `minimaxMaxMovement`) for the value of that board. The search can optionally use alpha-beta pruning. The agent keeps the first column of strictly greatest value. Leaves are scored by `calculateConsecutiveHeuristic`, which walks short diagonal runs from every occupied cell. The player also tracks:
- the number of min-side calls in the latest move (`boardsExplored`);
- the number over the whole game (`gameBoards`);
- the list of chosen columns (`selectedMoves`).

The model keeps the program's imperative form:
- `Killer.C4Killer` and `Killer.MinimaxContext` are classes whose fields the methods update in place.
- The search methods keep a running best in a loop. They update `context.alpha` / `context.beta` and break out on a cutoff.
- Every simulated drop happens on a fresh copy of the board, a `Board.Tauler` object changed in place by `Afegeix`.

Each method is proved against pure specification functions. The methods, their specification functions and the lemmas about those functions are:

| file | holds | what is proved about it |
|---|---|---|
| `board.dfy` | The board: an N×N grid of 0 / 1 / -1, row 0 at the bottom, behind the `Tauler` class. | Facts about drop, column space and the top piece. |
| `evaluation.dfy` | The heuristic as a sum over start cells. | Its bounds. |
| `search.dfy` | The search as functions returning an `Eval`: the value, the number of min-side calls, and the context's final alpha or beta. | |
| `minimax.dfy` | Plain minimax as the reference. | |
| `pruning.dfy` | The relation between the pruned search and minimax. | Fail-soft alpha-beta, equality with the full window, no extra calls, and where alpha and beta can end up. |
| `root.dfy` | The root choice as a fold over the columns. | |
| `killer.dfy` | The classes and their loop methods. | |

The board class itself is not part of this model. `board.dfy` supplies the minimal board the agent relies on:
- `movpossible` holds when the column has an empty cell;
- `afegeix` fills the lowest empty cell;
- `espotmoure` holds when some column has space;
- `solucio` is an arbitrary win test (`WinTest`), kept as a parameter throughout.

`INFINITE` and `MINUS_INFINITE` are `Integer.MAX_VALUE` (2^31 - 1) and `Integer.MIN_VALUE` (-2^31).

## Model

| member | source | states |
|---|---|---|
| Board.LowestEmptyFromSpec | src/edu/epsevg/prop/lab/c4/C4_Killer.java:79 | The row where a dropped piece lands is empty, and every row below it in that column is occupied; -1 means the column is full. |
| Board.CanMoveSpec | src/edu/epsevg/prop/lab/c4/C4_Killer.java:77 | movpossible(c) holds exactly when column c has an empty cell. |
| Board.Drop | src/edu/epsevg/prop/lab/c4/C4_Killer.java:78-79 | The simulated board keeps its size and squareness; dropping a real piece leaves exactly one empty cell fewer, which is the termination measure of the recursion. |
| Board.DropSpec | src/edu/epsevg/prop/lab/c4/C4_Killer.java:78-79 | The piece fills the lowest empty cell of its column; every other cell of the copy equals the original. |
| Board.TopRowBelowSpec | src/edu/epsevg/prop/lab/c4/C4_Killer.java:114-115 | The backward scan's stopping row is occupied, and every row it passed over is empty. |
| Board.TopPieceSpec | src/edu/epsevg/prop/lab/c4/C4_Killer.java:113-117 | getTopPiece is 0 exactly when the column is empty; otherwise it is the colour of an occupied cell with only empty cells above it. |
| Board.DropOnStacked | src/edu/epsevg/prop/lab/c4/C4_Killer.java:78-79 | On a board whose pieces stack from row 0, a drop keeps it stacked, and the dropped piece becomes the column's top piece: the piece solucio is asked about at the next level. |
| Board.Tauler.Afegeix | src/edu/epsevg/prop/lab/c4/C4_Killer.java:79 | The board's cells become the drop of the piece on the old cells, and a stacked board stays stacked with the new piece on top. |
| Board.Tauler.Copy | src/edu/epsevg/prop/lab/c4/C4_Killer.java:78 | new Tauler(t) is a separate object with the same size, cells and win test. |
| Evaluation.RunPrefixBounds | src/edu/epsevg/prop/lab/c4/C4_Killer.java:225-231 | Each cell of a run adds 0, 1 or 10 times the run's sign: an own run's prefix lies in [0, 10k] and an opponent run's in [-10k, 0]. |
| Evaluation.StartScoreBounds | src/edu/epsevg/prop/lab/c4/C4_Killer.java:223-231 | An empty start cell adds nothing; a run starting on the perspective colour adds between 1 and 31; one starting on the opponent between -30 and 0. |
| Evaluation.RunTail | src/edu/epsevg/prop/lab/c4/C4_Killer.java:226-230 | The three cells after the start add at most 30 in the run's direction. |
| Evaluation.ColumnBounds | src/edu/epsevg/prop/lab/c4/C4_Killer.java:222-232 | The runs of one column lie in [-30·opponent pieces, 31·own pieces] of that column. |
| Evaluation.BoardBounds | src/edu/epsevg/prop/lab/c4/C4_Killer.java:221-233 | The same bound over the first k columns, and at most k·N pieces in them. |
| Evaluation.HeuristicBounds | src/edu/epsevg/prop/lab/c4/C4_Killer.java:219-235 | The score lies in [-30·(opponent pieces), 31·(own pieces)], and there are at most N·N pieces. |
| Evaluation.HeuristicMagnitude | src/edu/epsevg/prop/lab/c4/C4_Killer.java:219-235 | The score is at most 31·N² in absolute value. |
| Evaluation.EmptyColumnScoresZero | src/edu/epsevg/prop/lab/c4/C4_Killer.java:223-224 | An empty column starts no runs and scores 0. |
| Evaluation.EmptyPrefixScoresZero | src/edu/epsevg/prop/lab/c4/C4_Killer.java:221-224 | On an empty board every prefix of columns scores 0. |
| Evaluation.EmptyBoardScoresZero | src/edu/epsevg/prop/lab/c4/C4_Killer.java:219-235 | The empty board scores 0 for either colour, because empty cells never start a run. |
| Evaluation.OneCellBoard | src/edu/epsevg/prop/lab/c4/C4_Killer.java:225-229 | A run truncated at the board edge still counts: a one-cell board with a piece of colour 1 scores 1 for colour 1 but 0 for colour -1, so the score is not antisymmetric in the colours. |
| Search.TerminalBeforeDepth | src/edu/epsevg/prop/lab/c4/C4_Killer.java:143-148 | A line just completed gives MINUS_INFINITE on the max side and INFINITE on the min side, at any depth (depth 0 included) and with any window; only the min side counts the call. |
| Search.LeafPolicy | src/edu/epsevg/prop/lab/c4/C4_Killer.java:179-188 | With no line completed, depth 0 or a full board gives the heuristic for the fixed perspective colour, on both sides. |
| Minimax.MaxValueLoopShift | src/edu/epsevg/prop/lab/c4/C4_Killer.java:150-157 | The max loop computes a maximum: folding a value in first equals taking it at the end. |
| Minimax.MinValueLoopShift | src/edu/epsevg/prop/lab/c4/C4_Killer.java:190-197 | The min loop computes a minimum, likewise. |
| Minimax.HeuristicInRange | src/edu/epsevg/prop/lab/c4/C4_Killer.java:28-31 | When 31·N² fits in an int, every heuristic score lies strictly between MINUS_INFINITE and INFINITE. |
| Minimax.MaxValueInRange | src/edu/epsevg/prop/lab/c4/C4_Killer.java:142-170 | Every minimax value of the max side lies in [MINUS_INFINITE, INFINITE]. |
| Minimax.MaxValueLoopInRange | src/edu/epsevg/prop/lab/c4/C4_Killer.java:150-168 | The same for the max loop, starting from a best in range. |
| Minimax.MinValueInRange | src/edu/epsevg/prop/lab/c4/C4_Killer.java:178-210 | Every minimax value of the min side lies in [MINUS_INFINITE, INFINITE]. |
| Minimax.MinValueLoopInRange | src/edu/epsevg/prop/lab/c4/C4_Killer.java:190-208 | The same for the min loop. |
| Minimax.MovableHasEmpties | src/edu/epsevg/prop/lab/c4/C4_Killer.java:151 | A column with space means the board has at least one empty cell. |
| Minimax.MaxValueExhaustive | src/edu/epsevg/prop/lab/c4/C4_Killer.java:144 | Any two depths that never reach 0 before the board fills give the same max-side value; both are negative or at least the number of empty cells. |
| Minimax.MaxValueLoopExhaustive | src/edu/epsevg/prop/lab/c4/C4_Killer.java:150-157 | The same for the max loop. |
| Minimax.MinValueExhaustive | src/edu/epsevg/prop/lab/c4/C4_Killer.java:185 | The same for the min side. |
| Minimax.MinValueLoopExhaustive | src/edu/epsevg/prop/lab/c4/C4_Killer.java:190-197 | The same for the min loop. |
| Pruning.MaxSearchNoPruning | src/edu/epsevg/prop/lab/c4/C4_Killer.java:142-170 | Without pruning the max side returns its minimax value, whatever the window. |
| Pruning.MaxLoopNoPruning | src/edu/epsevg/prop/lab/c4/C4_Killer.java:150-168 | Without pruning the max loop is the plain maximum over the children, whatever alpha and beta do. |
| Pruning.MinSearchNoPruning | src/edu/epsevg/prop/lab/c4/C4_Killer.java:178-210 | Without pruning the min side returns its minimax value, whatever the window. |
| Pruning.MinLoopNoPruning | src/edu/epsevg/prop/lab/c4/C4_Killer.java:190-208 | Without pruning the min loop is the plain minimum over the children. |
| Pruning.MaxSearchFailSoft | src/edu/epsevg/prop/lab/c4/C4_Killer.java:142-170 | With pruning and alpha < beta, the max side is fail-soft. Inside the window it returns the minimax value. At or below alpha it returns a value between the minimax value and alpha. At or above beta it returns a value between beta and the minimax value. |
| Pruning.MaxLoopFailSoft | src/edu/epsevg/prop/lab/c4/C4_Killer.java:150-168 | The same for the max loop, with the running best and the raised alpha. |
| Pruning.MaxColumnFailSoft | src/edu/epsevg/prop/lab/c4/C4_Killer.java:151-166 | One max column keeps the fail-soft relation, given that the child and the rest of the loop keep it. The value and the call count depend on the best being updated before the test against beta; raising alpha after the test only fixes what context.alpha holds after a cut. |
| Pruning.MaxStepFailSoft | src/edu/epsevg/prop/lab/c4/C4_Killer.java:165-166 | The same step as arithmetic over the child's result and the rest of the loop. |
| Pruning.MinSearchFailSoft | src/edu/epsevg/prop/lab/c4/C4_Killer.java:178-210 | With pruning and alpha < beta, the min side is fail-soft. |
| Pruning.MinLoopFailSoft | src/edu/epsevg/prop/lab/c4/C4_Killer.java:190-208 | The same for the min loop. |
| Pruning.MinColumnFailSoft | src/edu/epsevg/prop/lab/c4/C4_Killer.java:191-206 | One min column preserves the fail-soft relation. |
| Pruning.MinStepFailSoft | src/edu/epsevg/prop/lab/c4/C4_Killer.java:205-206 | The same step as arithmetic. |
| Pruning.MaxSearchCallsNoMore | src/edu/epsevg/prop/lab/c4/C4_Killer.java:142-170 | The max side with pruning makes no more min-side calls than without it, for any two windows. |
| Pruning.MaxLoopCallsNoMore | src/edu/epsevg/prop/lab/c4/C4_Killer.java:150-168 | The same for the max loop. |
| Pruning.MinSearchCallsNoMore | src/edu/epsevg/prop/lab/c4/C4_Killer.java:178-210 | The same for the min side, counting its own call. |
| Pruning.MinLoopCallsNoMore | src/edu/epsevg/prop/lab/c4/C4_Killer.java:190-208 | The same for the min loop. |
| Pruning.MaxLoopWindow | src/edu/epsevg/prop/lab/c4/C4_Killer.java:150-168 | The max loop's running best never falls and its alpha never falls below the given alpha. With pruning, alpha stays below beta. Without a cut, alpha ends as the larger of the given alpha and the value found. |
| Pruning.MinLoopWindow | src/edu/epsevg/prop/lab/c4/C4_Killer.java:190-208 | Dually for the min loop's best and beta. |
| Pruning.SearchWindow | src/edu/epsevg/prop/lab/c4/C4_Killer.java:142-210 | Over a whole call, alpha (max side) only rises and beta (min side) only falls; with pruning the window stays open. |
| Pruning.FullWindowPruningInvisible | src/edu/epsevg/prop/lab/c4/C4_Killer.java:82 | With the root's window (MINUS_INFINITE, INFINITE), the min side returns the same value with and without pruning, and that value is its minimax value. |
| Root.RootBestSpec | src/edu/epsevg/prop/lab/c4/C4_Killer.java:72-91 | The choice is -1 with value MINUS_INFINITE, or a column with space carrying its own value. That value is the largest root value among the legal columns seen. Every earlier legal column scores strictly less. The choice is -1 exactly when every legal column scores at most MINUS_INFINITE. |
| Root.RootBest | src/edu/epsevg/prop/lab/c4/C4_Killer.java:72-91 | The choice is -1 or a column index below m where movpossible holds. |
| Root.RootValueIsMinimax | src/edu/epsevg/prop/lab/c4/C4_Killer.java:81-83 | A root column's value is the same with and without pruning. It is the min side's minimax value of the column's board at depth - 1, and lies within the int range. |
| Root.PruningKeepsChoice | src/edu/epsevg/prop/lab/c4/C4_Killer.java:72-91 | moviment picks the same column, with the same value, whether or not pruning is on. |
| Root.PruningExploresNoMore | src/edu/epsevg/prop/lab/c4/C4_Killer.java:76-91 | With pruning, moviment's boardsExplored is no larger than without it. |
| Root.NoColumnChosen | src/edu/epsevg/prop/lab/c4/C4_Killer.java:72-91 | moviment returns -1 exactly when no column has space or every column with space has the value MINUS_INFINITE. |
| Root.ImmediateWinChosen | src/edu/epsevg/prop/lab/c4/C4_Killer.java:79-89 | On a stacked board, a column whose drop completes a line has value INFINITE, so moviment returns a column of value INFINITE: that column or an earlier one. |
| Root.ZeroDepthColumnIsFullDepth | src/edu/epsevg/prop/lab/c4/C4_Killer.java:82 | With depth 0 the min side receives -1, which never meets the depth test: the column scores as at a depth equal to the number of empty cells. |
| Root.ZeroDepthIsFullDepth | src/edu/epsevg/prop/lab/c4/C4_Killer.java:68-91 | So with depth 0, moviment chooses as a search to the end of the game does. |
| Root.MinValueLoopAtMostColumn | src/edu/epsevg/prop/lab/c4/C4_Killer.java:190-197 | The min loop's result is at most the value of every column from the current one on that has space. |
| Root.LosingColumnValue | src/edu/epsevg/prop/lab/c4/C4_Killer.java:178-210 | Take a board whose last drop did not win, at a depth other than 0. If the opponent can complete a line in some column, the min side's value is MINUS_INFINITE. |
| Root.ImmediateLossAvoided | src/edu/epsevg/prop/lab/c4/C4_Killer.java:76-91 | At any configured depth except 1, consider a column whose drop does not win but lets the opponent complete a line at once. That column scores MINUS_INFINITE, and moviment never returns it. |
| Killer.MinimaxContext.constructor | src/edu/epsevg/prop/lab/c4/C4_Killer.java:261-268 | The context holds exactly the six arguments. |
| Killer.C4Killer.constructor | src/edu/epsevg/prop/lab/c4/C4_Killer.java:46-52 | Depth and pruning flag as given, both counters 0, and no moves recorded; depth is not validated. |
| Killer.C4Killer.Moviment | src/edu/epsevg/prop/lab/c4/C4_Killer.java:68-104 | It returns RootBest's column over all columns and leaves the board unchanged. boardsExplored is reset and ends as the min-side calls of this move; gameBoards grows by the same number. selectedMoves grows by exactly the returned column. |
| Killer.C4Killer.GetTopPiece | src/edu/epsevg/prop/lab/c4/C4_Killer.java:113-117 | The backward scan returns TopPiece: 0 for an empty column, else the colour in the highest occupied row. |
| Killer.C4Killer.MinimaxMaxMovement | src/edu/epsevg/prop/lab/c4/C4_Killer.java:142-170 | It returns MaxSearch's value on the context's board. context.alpha ends as MaxSearch's bound. Both counters grow by its min-side calls. |
| Killer.C4Killer.MinimaxMinMovement | src/edu/epsevg/prop/lab/c4/C4_Killer.java:178-210 | It returns MinSearch's value on the context's board. context.beta ends as MinSearch's bound. Both counters grow by its calls, its own included. |
| Killer.C4Killer.MinChild | src/edu/epsevg/prop/lab/c4/C4_Killer.java:151-164 | A copy of the board with the agent's piece in the column is given to the min side at depth - 1 with the current window; the result is that column's value in the max loop. |
| Killer.C4Killer.MaxChild | src/edu/epsevg/prop/lab/c4/C4_Killer.java:191-204 | A copy with the opponent's piece is given to the max side at depth - 1; the result is that column's value in the min loop. |
| Killer.C4Killer.CalculateConsecutiveHeuristic | src/edu/epsevg/prop/lab/c4/C4_Killer.java:219-235 | The nested loops, with the skip of empty start cells and the edge test, compute Heuristic, whose bounds are proved in Evaluation. |

## Left out

- Timing: `System.nanoTime`, the conversion to seconds and the `movementTimes` list are a clock and floating point, so they are not modelled.
- Printing: `showStatistics` only writes to the console and is not modelled.
- The `weights` matrix is never read, so it is not modelled.
- `nom()` and the player interfaces only return the name, so they are not modelled.
- The board class is not part of this model.
  - Its win test `solucio` is an arbitrary function, taken as a parameter everywhere.
  - The grid is a minimal stand-in. `Tauler.Valid` only requires the grid to be square. That pieces stack from row 0 is stated on values (`Board.Stacked`, `Board.DropOnStacked`, `Board.Tauler.Afegeix`).
- The original's `int` arithmetic is modelled with unbounded integers. The heuristic cannot overflow once 31·N² ≤ 2^31 - 1 (N ≤ 8323); the lemmas that compare values with `INFINITE` / `MINUS_INFINITE` assume this (`HeuristicFits`). The counters `boardsExplored` and `gameBoards` are unbounded and never wrap.
- Killer.C4Killer.Moviment requires `color` to be 1 or -1 (the colours the board uses). The original checks nothing, but another value would make the min side drop a non-piece.
- The model follows the code on three points that are easy to misread:
  - A configured depth of 0 searches to the end of the game, because the root passes `depth - 1`: see `Root.ZeroDepthIsFullDepth`.
  - The heuristic is not antisymmetric in the two colours: see `Evaluation.OneCellBoard`.
  - With no column chosen, `moviment` returns -1 rather than signalling an error.
- Killer.C4Killer.MinChild and Killer.C4Killer.MaxChild are each a single method for what the original writes inline in the loop body: the board copy, `afegeix`, the new context and the recursive call. The order of effects is the same.
