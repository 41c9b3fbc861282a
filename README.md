# Unbeatable tic-tac-toe: board, minimax search and turn logic

This project models the game logic of `project_mini.py`, a 3x3 tic-tac-toe
game between a human (O, cell value 1) and the computer (X, cell value 2).
Empty cells hold 0. Rendering is not part of the model.

The model has two layers.

- **The rules and the search as values** (`rules.dfy`, `search.dfy`).
  - A board is a `Grid`: a sequence of nine ints, row-major.
  - `Wins` says a player owns one of the 8 lines. The lines are ordered as the program checks them: columns, rows, main diagonal, anti-diagonal.
  - `Full` says no cell is empty.
  - `Value` is the minimax value. `Scan` is the running best over the cells in row-major order. `Child` is the value after one hypothetical mark.
  - `Choose` is the computer's move choice, with its strictly-greater tie-break.
- **The program's mutable state** (`board.dfy`, `controller.dfy`).
  - Class `TicTacToe.Board` holds the single shared grid as an `array<int>` of nine cells. Cell (row, col) is `cells[3*row + col]`.
  - Its methods `MarkSquare`, `IsBoardFull`, `CheckWin`, `ResetGame`, `Minimax` and `BestMove` keep the program's loops and its place/recurse/retract writes on that array.
  - `Minimax` is proved to leave the array exactly as it found it, and to return `Value` of the board.
  - `BestMove` is proved to place 2 exactly at `Choose` of the board, or to change nothing when the board is full.
  - Class `Controller.Game` holds the game loop's `player`, `game_over` and `winner`. It models the restart key, the human click and the computer's turn.
  - Its invariant `Valid` gives the following: the human is never behind and at most one mark ahead; no board reached through the controller has a line for both players; a game in progress has no line and at least one empty cell.

The model keeps these behaviours of the code as written:
- `mark_square` does not guard against overwriting. The empty-cell check is in the click handler.
- `best_move` does not first check for a finished game; it only needs an empty cell.
- `best_move` returns a boolean, not coordinates.
- The winner is kept as None/0/1/2 (here `Pending`/`Draw`/`Won(p)`) rather than as a separate status.

The `board` parameter of `minimax` is the global board, passed by `best_move`, so the model has a single board. The unused `depth` parameter is dropped.

## Model

| member | source | states |
|---|---|---|
| TicTacToe.Board.constructor | project_mini.py:36 | a new board has every cell empty |
| TicTacToe.Board.MarkSquare | project_mini.py:67-68 | cell (row, col) becomes the player's mark and every other cell is unchanged |
| TicTacToe.Board.AvailableSquare | project_mini.py:71-72 | true exactly when cell (row, col) is empty |
| TicTacToe.Board.IsBoardFull | project_mini.py:75-80 | the row-by-row scan with early exit returns true exactly when no cell is empty |
| Rules.FullIffNoSquareAvailable | project_mini.py:71-80 | the board is full exactly when no (row, col) square is available |
| TicTacToe.Board.CheckWin | project_mini.py:83-97 | the column, row and diagonal checks return true exactly when one of the 8 lines is all the given player's |
| Rules.MarkMakesNoLineForOther | project_mini.py:83-97 | placing one player's mark never gives another player a line |
| Rules.TopRowIsHumanWin | project_mini.py:89-91 | three human marks along the top row of an empty board are a human win and not a computer win |
| TicTacToe.Board.ResetGame | project_mini.py:171-173 | after the clearing loop every cell is empty |
| Rules.EmptyBoardIsFresh | project_mini.py:171-173 | the empty board is not full, has no line for either player and no marks |
| Search.Value | project_mini.py:100-127 | the minimax value is always -1, 0 or 1, and each recursion level fills one more empty cell |
| Search.TerminalOrder | project_mini.py:101-106 | a computer line scores +1 before a human line is checked (so a board with both scores +1), then a human line scores -1, then a full board 0 |
| Search.Scan | project_mini.py:108-127 | the running best ends inside -1..1 once an empty cell has been visited |
| Search.ScanIsBest | project_mini.py:108-127 | the running best is at least as good as every child visited and as its start, and is one of them |
| Search.ValueIsBestChild | project_mini.py:108-127 | at an unfinished board the value is the maximum (computer to move) or minimum (human to move) of the child values over all empty cells, and some empty cell attains it |
| TicTacToe.Board.Minimax | project_mini.py:100-127 | returns the minimax value of the board on entry and leaves every cell exactly as it was |
| Search.ChooseFrom | project_mini.py:133-141 | the choice is either the incumbent or a later empty cell |
| Search.Choose | project_mini.py:130-142 | a chosen cell is an empty cell |
| Search.ChooseFromIsFirstBest | project_mini.py:133-141 | with a strictly-greater update, the scan ends on the first empty cell of greatest score, or on no cell when none is empty |
| Search.ChooseIsFirstBest | project_mini.py:130-145 | there is no move exactly when the board is full; otherwise the move is the first empty cell in row-major order whose value with the human to move is the greatest |
| Search.ChooseReachesValue | project_mini.py:130-141 | at an unfinished board the chosen move's score equals the minimax value with the computer to move |
| TicTacToe.Board.BestMove | project_mini.py:130-145 | returns false and changes nothing exactly when the board is full; otherwise returns true and the only change is a 2 in the chosen cell |
| Controller.Game.constructor | project_mini.py:176-180 | a new game starts on an empty board with the human to move and no winner |
| Controller.Game.Restart | project_mini.py:187-192 | the restart key clears the board and gives the move to the human only when the game is over, and otherwise changes nothing |
| Controller.Game.ClickSquare | project_mini.py:194-207 | a click on an empty cell in the human's turn places 1 there; then a human line ends the game as a human win, else a full board as a draw, else the computer moves next; any other click changes nothing; the controller invariant is kept |
| Controller.Game.ComputerTurn | project_mini.py:209-218 | in the computer's turn the search always finds a move and plays it; then a computer line ends the game as a computer win, else a full board as a draw, else the human moves next; the controller invariant is kept |

## Left out

- Window, fonts, colours and drawing (`draw_lines`, `draw_figures`, `show_winner`, the `screen.fill` in `reset_game`): these are display output.
- The event loop, the quit event and `sys.exit`: these are I/O. Each event is one method call on `Controller.Game`.
- Mapping mouse pixels to cells by integer division: `ClickSquare` takes a (row, col) that is already in range.
- The board is a numpy array of floats. The model uses ints 0, 1 and 2, stored row-major in a one-dimensional array of nine cells.
- The `-np.inf` / `np.inf` starting scores are the ints -2 and 2 (`Search.Worst`). Every real score lies in -1..1, so both are beaten by the first score.
- The unused `depth` parameter of `minimax`.
- The claim in the window title that the computer is unbeatable is not proved, and neither is the concrete first move on an empty board: both need the whole game tree evaluated.
