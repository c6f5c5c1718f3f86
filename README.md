# Tic-tac-toe game-state engine in Dafny

This project models the game-state engine of a tic-tac-toe minimax player
(`0_search/tic-tac-toe/tictactoe.py`) and proves what its operations promise.
Everything is in one module, `TicTacToe`, in `tictactoe.dfy`.

- A cell is `Empty` (the program's `None`) or `Marked(X)` / `Marked(O)`.
- The program's board is a list of row lists. In the model a `Board` is a
  `seq<array<Cell>>`: the outer list is a value and the rows are shared,
  mutable arrays. The operations that only read a board (`Player`, `Actions`,
  `Winner`, `Terminal`, `Utility`, `MinimaxGuard`) take its contents, a
  `Grid = seq<seq<Cell>>`. `Snapshot` reads a `Board` into a `Grid`.
- `player` counts marks: X moves when the counts are equal, O otherwise.
- `actions` is a method with the program's nested loops over rows and cells.
  It is proved equal to the specification function `EmptyCells`, and about
  that function it is proved that it holds exactly the empty cells, in
  row-major order, each once.
- `result` is a method that writes into the rows. `board[:]` copies only the
  outer list, so the returned board holds the same row objects as the input,
  and the move is visible through the caller's board. The contract says so:
  the returned list equals the input list, and each row of the input that is
  the row written to now carries the new mark. When the rows are distinct
  objects, the new contents are `Place(old contents, action, player)`.
  An illegal action (occupied, or out of range, negative indices included)
  is a `Failure(InvalidAction)` and nothing is written.
- `winner` is written as the program checks it: rows top to bottom, columns
  left to right, the main diagonal, then the anti-diagonal. An independent
  table of the eight lines (`LineAt`) is used to prove that it returns the
  owner of the first complete line in that order, and none exactly when no
  line is complete.
- `terminal` and `utility` follow the code. They are proved equivalent to
  "someone won or no legal move is left" and to the sign of the winner.
- Of `minimax`, only the part before the search is in the source text. It is
  modelled as `MinimaxGuard`: no action on a terminal board, otherwise the
  search continues for `player(board)`, who has at least one legal move.

The model follows what the code does, not what its docstrings suggest:
- The docstring of `actions` (tictactoe.py:40) speaks of a "set", but the code
  returns a list in row-major order.
- The docstring of `result` (tictactoe.py:57) speaks of "the board that
  results", but does not say the caller's board is left untouched, and it is
  not: the row written to is shared with the input.

## Model

| member | source | states |
|---|---|---|
| `TicTacToe.InitialGrid` | 0_search/tic-tac-toe/tictactoe.py:10-16 | the starting contents are three rows of three empty cells |
| `TicTacToe.InitialState` | 0_search/tic-tac-toe/tictactoe.py:10-16 | returns three new, distinct row objects whose contents are the empty 3x3 grid |
| `TicTacToe.CountRow` | 0_search/tic-tac-toe/tictactoe.py:25-26 | `row.count(c)`: the number of cells of a row equal to `c`, never more than the row's length |
| `TicTacToe.Count` | 0_search/tic-tac-toe/tictactoe.py:25-26 | the sum of `row.count(c)` over the rows, never more than the number of cells |
| `TicTacToe.XCount` | 0_search/tic-tac-toe/tictactoe.py:25 | `x_count`: `Count` of X marks; its properties are in `CountPlace`, `CountsCover` and `MoveAlternatesTurn` |
| `TicTacToe.OCount` | 0_search/tic-tac-toe/tictactoe.py:26 | `o_count`: `Count` of O marks; its properties are in `CountPlace`, `CountsCover` and `MoveAlternatesTurn` |
| `TicTacToe.CountsCover` | 0_search/tic-tac-toe/tictactoe.py:25-26 | the Empty, X and O counts together are the number of cells |
| `TicTacToe.CountPlace` | 0_search/tic-tac-toe/tictactoe.py:25-26 | writing a mark into a cell changes each summed `row.count(c)` by exactly the cell removed and the mark written |
| `TicTacToe.InitialMoverIsX` | 0_search/tic-tac-toe/tictactoe.py:19-35 | on the starting board both counts are 0, the board is balanced and X moves |
| `TicTacToe.Player` | 0_search/tic-tac-toe/tictactoe.py:19-35 | computes X when the X and O counts are equal and O otherwise; its contract: on a balanced board (X level or one ahead) O moves exactly when X is one ahead |
| `TicTacToe.MoveAlternatesTurn` | 0_search/tic-tac-toe/tictactoe.py:64-70 | a legal move by the player to move keeps X level or one ahead and passes the turn to the other player |
| `TicTacToe.Actions` | 0_search/tic-tac-toe/tictactoe.py:38-52 | the nested loops return exactly the coordinates of the empty cells, in row-major order, each once (equal to `EmptyCells`) |
| `TicTacToe.EmptyCellsMembers` | 0_search/tic-tac-toe/tictactoe.py:45-48 | a pair is collected if and only if it is in range and its cell is empty |
| `TicTacToe.EmptyCellsRowMajor` | 0_search/tic-tac-toe/tictactoe.py:45-48 | the collected pairs are strictly increasing in row-major order, so none occurs twice |
| `TicTacToe.EmptyCellsCount` | 0_search/tic-tac-toe/tictactoe.py:43-52 | the number of legal moves is the number of empty cells |
| `TicTacToe.ActionsPlusMarks` | 0_search/tic-tac-toe/tictactoe.py:43-52 | on a 3x3 board the number of legal moves plus the number of marks placed is 9 |
| `TicTacToe.Result` | 0_search/tic-tac-toe/tictactoe.py:55-72 | fails with InvalidAction, writing nothing, exactly when the action is not a legal move; otherwise returns the same row objects, with the mover's mark written into the action's row (seen through the caller's board too) and every other row unchanged |
| `TicTacToe.Place` | 0_search/tic-tac-toe/tictactoe.py:69-70 | the contents after the write: the action's cell holds the mark, every other cell and the shape are as before |
| `TicTacToe.PlaceRemovesAction` | 0_search/tic-tac-toe/tictactoe.py:65-72 | after a legal move the legal moves are the old ones without the action, one fewer |
| `TicTacToe.RowWinner` | 0_search/tic-tac-toe/tictactoe.py:81-83 | the row loop: the first row from `r` on, top to bottom, whose three cells are equal and not empty, gives its mark; otherwise none; its contract is `RowWinnerFirst` |
| `TicTacToe.ColWinner` | 0_search/tic-tac-toe/tictactoe.py:86-88 | the column loop: the first column from `c` on, left to right, whose three cells are equal and not empty, gives its mark; otherwise none; its contract is `ColWinnerFirst` |
| `TicTacToe.Winner` | 0_search/tic-tac-toe/tictactoe.py:75-98 | rows, then columns, then main diagonal, then anti-diagonal, each by the three-equal-and-not-empty test, else none; its contract is `WinnerIsFirstCompleteLine` and `WinnerHasLine` |
| `TicTacToe.RowWinnerFirst` | 0_search/tic-tac-toe/tictactoe.py:81-83 | the row scan finds nothing exactly when no remaining row is complete, and otherwise the owner of the first complete row |
| `TicTacToe.ColWinnerFirst` | 0_search/tic-tac-toe/tictactoe.py:86-88 | the column scan finds nothing exactly when no remaining column is complete, and otherwise the owner of the first complete column |
| `TicTacToe.LineOwner` | 0_search/tic-tac-toe/tictactoe.py:82-95 | the three-equal-and-not-None test on a line names exactly the player holding all three of its cells |
| `TicTacToe.WinnerIsFirstCompleteLine` | 0_search/tic-tac-toe/tictactoe.py:80-98 | winner is None exactly when no line is complete; otherwise it is the owner of the first complete line in the order rows, columns, main diagonal, anti-diagonal |
| `TicTacToe.WinnerHasLine` | 0_search/tic-tac-toe/tictactoe.py:80-98 | winner returns m only if m holds some line, and None exactly when neither player holds one |
| `TicTacToe.Terminal` | 0_search/tic-tac-toe/tictactoe.py:101-116 | true when there is a winner, otherwise true exactly when no row contains an empty cell; its contract is `TerminalIffNoMoves` |
| `TicTacToe.TerminalIffNoMoves` | 0_search/tic-tac-toe/tictactoe.py:101-116 | terminal holds exactly when there is a winner or no legal move is left |
| `TicTacToe.Utility` | 0_search/tic-tac-toe/tictactoe.py:119-130 | the reward is in {-1, 0, 1}; it is 1 exactly when X won, -1 exactly when O won, 0 exactly when there is no winner |
| `TicTacToe.UtilityOfLines` | 0_search/tic-tac-toe/tictactoe.py:123-130 | the reward is 0 exactly when no line is complete; 1 only if X holds a line, -1 only if O holds a line |
| `TicTacToe.MinimaxGuard` | 0_search/tic-tac-toe/tictactoe.py:133-142 | no action exactly on terminal boards; otherwise the search is for the player to move, who has a legal move |
| `TicTacToe.TopRowOfX` | 0_search/tic-tac-toe/tictactoe.py:80-116 | a top row of X on an otherwise empty board: X wins, the game is over, the reward is 1 |
| `TicTacToe.FullBoardDraw` | 0_search/tic-tac-toe/tictactoe.py:101-130 | a full board with no line: no winner, terminal, reward 0 |
| `TicTacToe.InitialBoardOpen` | 0_search/tic-tac-toe/tictactoe.py:133-142 | the starting board has nine legal moves, is not terminal, and the search starts for X |

## Left out

- The debug `print` calls in `player`, `actions` and `result`: console output with no effect on results.
- The text of the exception raised by `result`: modelled as the error value `InvalidAction`.
- The search body of `minimax` and its value functions: they are not in the source text of this file, so there is nothing to model them against. Only the terminal guard and the lookup of the player to move are modelled.
- The game-driving loop and board printing: not part of this file; they are I/O.
- Winner: requires a 3x3 board (as do `Terminal`, `Utility` and `MinimaxGuard`, which call it); on other shapes the program indexes out of range or looks at only part of the board, and the game never builds such boards.
- Actions: cells are of the three kinds `Empty`, `Marked(X)`, `Marked(O)`; the program's untyped lists could hold other values, which it never writes.
- Result: actions are pairs of integers; the program's membership test would also reject values of other types.
