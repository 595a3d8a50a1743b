# Tic-tac-toe player: a Dafny model

This project models `tictactoe.py`, a tic-tac-toe player. It has two layers, and the model proves properties of both.

- **The board model** (module `Game`, file `game.dfy`):
  - the 3x3 grid of `EMPTY`/`X`/`O` cells;
  - `Player`, which derives whose turn it is from the mark counts;
  - `actions`, the set of empty cells;
  - `result`, which copies the board and writes the mover's mark, and refuses an occupied cell;
  - `winner`, which scans the eight lines in a fixed order;
  - `terminal` and `utility`.
- **The search engine** (module `Search`, file `search.dfy`): `Maximum` and `Minimum` are two mutually recursive procedures.
  - Each runs over the legal actions in a random order.
  - The maximiser stops early at a score of 1; the minimiser stops at -1.
  - `minimax` picks the move for the player to move.
- **`Options`** (file `option.dfy`) holds the `Option` type. It stands for Python's `None` results.

**Modelling choices.**
- A board is a value of type `seq<seq<Cell>>` restricted to 3x3. Dafny's value semantics replace `copy.deepcopy`: `result` cannot change its input.
- `EMPTY` (Python's `None`) is `Cell.Empty`.
- `result` follows Python's indexing:
  - a row index of -3..-1 counts from the end of the board (the list of rows), and a column index of -3..-1 from the end of the row;
  - any other index outside 0..2 fails with `IndexError`;
  - an occupied cell fails with the source's "Invalid action" exception.

  Both failures are values of `MoveResult`.
- The searches are pure functions.
  - The loop over the shuffled list is the recursive function `MaxLoop`/`MinLoop`, which keeps the source's order of updating, comparing and stopping.
  - Each action is scored by `MinScore`/`MaxScore`: the other search, run on the board `result` gives for that action.
  - `random.shuffle` becomes a parameter: a function from the node (the board and the path of actions leading to it) to the order in which its actions are tried. `ValidShuffle` requires only that every outcome lists each legal action once, so every proof holds for every order.

**What is proved about the search.**
- The maximiser and minimiser return the true values `MaxValue`/`MinValue`, whatever the shuffles. These values are defined without any order or early stop.
- The action they return is legal and attains that value.
- On every board reached by play from the start, the value of the search `minimax` calls is the game value `GameValue`: `MaxValue` when X moves, `MinValue` when O moves. So the move `minimax` picks keeps the game value: no other move does better for the mover.

## Model

| member | source | states |
|---|---|---|
| `Game.InitialState` | tictactoe.py:17-23 | every cell of the starting board is empty: nine empty cells, no X and no O |
| `Game.InitialTurn` | tictactoe.py:26-40 | X moves first, and the special case for the starting board agrees with the count rule (both counts are 0) |
| `Game.Player` | tictactoe.py:26-40 | the player to move is never empty, and is O exactly when X has placed more marks than O |
| `Game.Actions` | tictactoe.py:43-53 | the row-then-column scan collects exactly the on-board cells that are empty |
| `Game.NoActionsIffFull` | tictactoe.py:43-53 | there is no legal action exactly when no cell is empty |
| `Game.CountTotal` | tictactoe.py:33-35 | the counts of empty cells, X marks and O marks add up to nine, so a board never holds more than nine marks |
| `Game.CountZero` | tictactoe.py:101-104 | the count of a mark is zero exactly when no cell holds it (the numpy count used by `terminal`) |
| `Game.PyIndex` | tictactoe.py:61-64 | Python's list index: 0..2 stay, -3..-1 name the cell three further on, every other index is an IndexError |
| `Game.Play` | tictactoe.py:67-70 | writing into an empty cell puts the mover's mark there and leaves every other cell alone; one empty cell fewer, one more mark for the mover, none more for the opponent |
| `Game.Result` | tictactoe.py:56-70 | for an on-board action: success exactly when the cell is empty. IndexError exactly when an index is out of Python's range. On success: one empty cell fewer, the mover's mark in the cell, every other cell unchanged |
| `Game.ResultOfEmptyCell` | tictactoe.py:64-70 | an action on an empty cell is accepted and plays that cell |
| `Game.NegativeIndexAliases` | tictactoe.py:61-70 | any pair of indexes Python accepts, negative ones included, gives the same outcome as the pair of cells it names, and is accepted exactly when that cell is empty |
| `Game.WinnerMatchesLines` | tictactoe.py:73-91 | a reported winner fills one of the eight lines; there is no winner exactly when neither mark fills a line |
| `Game.WinnerIsFirstFullLine` | tictactoe.py:77-89 | when line k is the first full line in the scan order (rows, columns, main diagonal, other diagonal), its mark is the winner |
| `Game.SoleLineOwnerWins` | tictactoe.py:73-91 | when only one mark fills a line, that mark is the winner |
| `Game.WinnerFromFirst` | tictactoe.py:77-91 | the scan from line k on reports the mark of the first full line from k on, and reports no winner exactly when no line from k on is full |
| `Game.TerminalMeaning` | tictactoe.py:94-106 | a board is terminal exactly when a mark fills a line or no legal action is left |
| `Game.OngoingHasActions` | tictactoe.py:94-106 | a board that is not terminal has a legal action |
| `Game.Utility` | tictactoe.py:109-121 | the score is -1, 0 or 1 |
| `Game.UtilityMeaning` | tictactoe.py:109-121 | the score is 0 exactly when no mark fills a line. A score of 1 (-1) means X (O) fills a line. A mark that alone fills a line gets its sign |
| `Game.LastCellScenario` | tictactoe.py:94-121 | with only (2,2) empty, X is to move, the game goes on and (2,2) is the only action. Playing it gives a full board with no line: terminal, no winner, score 0 |
| `Game.PlayAlternates` | tictactoe.py:33-40 | a move keeps X's count equal to O's or one more, and passes the turn to the other player |
| `Game.ReplayFromStart` | tictactoe.py:33-40 | after n accepted actions from the start, X has ceil(n/2) marks and O floor(n/2), and X moves exactly when n is even |
| `Search.MaxValue` | tictactoe.py:137-156 | the maximiser's true value (utility at a terminal board, else the best minimiser value over all actions) lies in -1..1 |
| `Search.MinValue` | tictactoe.py:159-178 | the minimiser's true value lies in -1..1 |
| `Search.GameValue` | tictactoe.py:124-135 | the game value (the mover's best child value, the mover given by `Player`) lies in -1..1 |
| `Search.ValuesFollowTurn` | tictactoe.py:124-135 | on a board reached by play, the maximiser's value is the game value when X moves, and the minimiser's when O moves |
| `Search.MaxValueAttained` | tictactoe.py:147-156 | stopping the maximiser's loop at a score of 1, or after all actions with the largest score kept, yields its true value |
| `Search.MinValueAttained` | tictactoe.py:169-178 | stopping the minimiser's loop at -1, or after all actions with the smallest score kept, yields its true value |
| `Search.MinScoreIsValue` | tictactoe.py:147-148 | when the minimiser returns the true value on every board one move on, the score the maximiser's loop gets for a legal action is that board's `MinValue` |
| `Search.MaxScoreIsValue` | tictactoe.py:169-170 | the mirror for the minimiser's loop: the score of a legal action is the `MaxValue` of the board it leads to |
| `Search.MaxLoopIsScan` | tictactoe.py:147-156 | the maximiser's loop depends on the searches below it only through the scores they return: it is the same update-and-stop scan over those scores |
| `Search.MinLoopIsScan` | tictactoe.py:169-178 | the same for the minimiser's loop |
| `Search.MaxScanBest` | tictactoe.py:147-156 | the scan returns an action with the score seen for it (the incoming best, or a later action), never less than the incoming best; it stops at 1 or otherwise ends no lower than any score it passed |
| `Search.MinScanBest` | tictactoe.py:169-178 | the mirror: never more than the incoming best; it stops at -1 or otherwise ends no higher than any score it passed |
| `Search.MaxLoopCorrect` | tictactoe.py:141-156 | from any point where the loop invariant holds (the best so far is legal and scores its value, and no action tried scores more), the maximiser's loop ends with its true value and a legal action attaining it |
| `Search.MinLoopCorrect` | tictactoe.py:163-178 | from any point where the mirror invariant holds, the minimiser's loop ends with its true value and a legal action attaining it |
| `Search.MaximumCorrect` | tictactoe.py:137-156 | for every shuffle order, the maximiser returns its true value, returns no action exactly on terminal boards, and otherwise returns a legal action whose board the minimiser scores at that value |
| `Search.MinimumCorrect` | tictactoe.py:159-178 | the same for the minimiser |
| `Search.SearchValueIgnoresOrder` | tictactoe.py:144-148 | two runs under any two shuffle orders report the same score |
| `Search.Minimax` | tictactoe.py:124-135 | no action exactly on a terminal board, otherwise a legal action that `result` accepts; on a board reached by play, the action's board has the same game value as the board, so the move is optimal for the mover |

## Left out

- `random.shuffle` is not modelled as randomness. The order is a `Shuffle` parameter that may depend on the node. Every proof holds for every order that lists each legal action once.
- The order `list(actions(board))` gives a set before it is shuffled is not modelled separately. The `Shuffle` parameter already covers every order.
- numpy's `count_nonzero` is replaced by a recursive count over the cells (`Count`).
- `copy.deepcopy` has no counterpart: boards are values, so no operation can change the board it was given.
- `sys.maxsize` is the 64-bit CPython value 2^63-1. Any starting value below -1 for the maximiser, and above 1 for the minimiser, would give the same results.
- The source's exception objects and message text are not modelled. `result`'s failures are the `MoveResult` values `Refused(InvalidAction)` and `Refused(IndexError)`.
- Python's dynamic typing is not modelled. Boards are always 3x3 grids of `EMPTY`/`X`/`O`, and actions are pairs of integers. Anything else (a different shape, a foreign cell value, a non-tuple action) cannot be expressed.
- `Search.Minimax`: its optimality clause holds only on balanced boards, those where X has as many marks as O or one more; `ReplayFromStart` shows every board reached by play is one. On other boards, `Player` does not alternate. `Maximum`/`Minimum` still return their `MaxValue`/`MinValue` there, but those are not the game value.
- There are no end-to-end claims about perfect play from the empty board, such as "the game is a draw" or which opening moves are chosen. Proving them would mean evaluating the whole game tree inside the verifier.
