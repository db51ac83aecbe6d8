# Tic-tac-toe with a minimax opponent, in Dafny

This project models the game logic of a small tic-tac-toe program, `tictactoe.py`.
A human plays `'O'` against a computer playing `'X'`. The computer picks its move
by exhaustive minimax over the game tree. The model has four modules:

- `Wrappers` holds `Option`, the type of the move selector's answer. The source
  uses `None` or a pair.
- `Board` holds the 3×3 board (`seq<seq<Cell>>`). It defines the queries
  `is_winner`, `is_board_full` and `get_empty_cells`, and it counts marks.
- `Search` holds `minimax` (`Minimax`, with its loop `Explore`) and
  `get_best_move` (`GetBestMove`, with its loop `SelectFirstBest`).
- `Game` is the state machine left over once the widget calls are removed from
  `make_move`, `ai_move` and `reset_game`. Its state is the board and the
  `player_turn` flag.

The source mutates one board in place, and every hypothetical mark is undone
right after its recursive call. The model threads the board instead:

- every search call returns the board it leaves behind;
- every contract proves that board equals the one passed in;
- that proof relies on the fact that placing a mark on an empty cell and then
  clearing it gives back the original board.

The recursion ends because every recursive call sees one fewer empty cell.

Mark roles follow the code. The human is `'O'` and the computer is `'X'`:

- a board where `'O'` has a line scores −1, and this is checked first;
- otherwise a board where `'X'` has a line scores +1;
- otherwise a full board scores 0.

The comments at `tictactoe.py` lines 29 and 31 attach these scores to the other
roles. The model follows the code.

## Model

| member | source | states |
|---|---|---|
| Board.Place | tictactoe.py:39 | Writing a mark sets that cell and leaves the other eight cells as they were. |
| Board.PlaceThenClear | tictactoe.py:39-41 | Placing a mark on an empty cell and then clearing it restores the board exactly. This is the undo step of both search loops. |
| Board.IsWinner | tictactoe.py:8-17 | Direct model of `is_winner`: some `i` whose row or column is all `p`, or the main diagonal, or the anti-diagonal. It is a predicate without a contract of its own; `Board.WinnerIffOwnsLine` states its meaning. |
| Board.WinnerIffOwnsLine | tictactoe.py:8-17 | `is_winner(b, p)` holds iff `p` owns one of the eight lines in the independent list `Lines`: three rows, three columns, the main diagonal and the anti-diagonal. |
| Board.PlaceKeepsNoWin | tictactoe.py:8-17 | Placing some other mark on an empty cell cannot give `p` a line it did not have. |
| Board.EmptyCells | tictactoe.py:23-25 | The list holds exactly the valid positions whose cell is empty. It is strictly increasing in row-major index, so it is in row-major order and has no repeats. |
| Board.IsBoardFull | tictactoe.py:19-21 | Direct model of `is_board_full`: no cell of the 3×3 grid is empty. It is a predicate without a contract of its own; `Board.FullIffNoEmptyCells` states its meaning. |
| Board.FullIffNoEmptyCells | tictactoe.py:19-25 | `is_board_full` holds iff `get_empty_cells` returns the empty list. |
| Board.EmptyCellsCount | tictactoe.py:23-25 | The length of the empty-cell list equals the number of empty cells on the board. |
| Board.CountsSumToNine | tictactoe.py:19-21 | Every cell is empty or holds `'O'` or `'X'`, so on every board the three counts add up to nine. |
| Board.PlaceCount | tictactoe.py:39-40 | Writing a mark changes each count by exactly the cell it overwrote and the mark it wrote. So a mark placed on an empty cell leaves one fewer empty cell for the recursive call. |
| Board.EmptyBoardHasNoLine | tictactoe.py:82 | On the freshly created board neither mark owns a line. |
| Search.Minimax | tictactoe.py:27-51 | The result is always −1, 0 or 1, never an infinite sentinel. The board comes back unchanged. An `'O'` line gives −1 first. Otherwise an `'X'` line gives 1. Otherwise a full board gives 0. |
| Search.ImproveIsMaxMin | tictactoe.py:42-50 | The `max`/`min` step against the sentinel: from the starting sentinel the result is the new score; from a score it is one of the two, and no worse than either for the side to move. |
| Search.Explore | tictactoe.py:36-51 | The loop over the empty cells returns the board unchanged. It never returns a sentinel once at least one move was tried. |
| Search.ExploreIsBest | tictactoe.py:36-51 | The running best is at least as good for the side to move as every tried move's score and as its start value. It equals the start value or one of the tried scores. |
| Search.MinimaxIsBestMove | tictactoe.py:36-51 | On a board with no line and an empty cell, the score is the maximum (for `'X'`) or minimum (for `'O'`) over the empty cells of the score after that move. Some empty cell attains it. |
| Search.ImmediateWinScoresOne | tictactoe.py:29-32 | If `'O'` has no line and placing `'X'` on a cell completes an `'X'` line, that move scores 1. |
| Search.LostBoardScoresMinusOne | tictactoe.py:29-30 | If `'O'` already owns a line, every move scores −1, because the `'O'` check comes before the `'X'` check. |
| Search.TryMove | tictactoe.py:58-60 | Placing `'X'`, scoring with the human to move, and undoing gives that cell's move score. The result is −1, 0 or 1, and the board comes back unchanged. |
| Search.Beats | tictactoe.py:61 | Direct model of `move_val > best_val`: strictly greater than a finite best, and always true against `-inf`. It is a predicate without a contract of its own; `Search.SelectFirstBest` states what the strict comparison achieves. |
| Search.SelectFirstBest | tictactoe.py:55-64 | Over a list of empty cells, the result is `None` iff the list is empty. Otherwise it is the cell at an index whose score no cell in the list exceeds, and every earlier cell scores strictly less. The board comes back unchanged. |
| Search.GetBestMove | tictactoe.py:53-64 | The result is `None` iff the board is full. Otherwise it is an empty cell whose score no empty cell exceeds, and every empty cell earlier in row-major order scores strictly less. The board comes back unchanged. |
| Game.ResetGame | tictactoe.py:127-133 | All nine cells become empty, the turn returns to the human, and the state equals the initial state. |
| Game.AiMove | tictactoe.py:109-121 | `'X'` goes on the selector's cell: an empty cell with the best score, earliest in row-major order among ties. "AI wins" is reported iff `'X'` now owns a line. "Tie" is reported iff there is no such line and the board is full. Otherwise play continues with the turn flipped. After a win or a tie the state is the initial one. |
| Game.RoundCounts | tictactoe.py:96-112 | A round (`'O'` at `p`, then `'X'` elsewhere) adds one mark of each kind and removes two empty cells. The human's mark stays at `p`, and the `'X'` move cannot give `'O'` a line. |
| Game.MakeMove | tictactoe.py:93-121 | A click on an occupied cell, or outside the human's turn, changes nothing and has no reply. An accepted click places `'O'`. It reports a human win iff `'O'` now owns a line. There is a computer reply iff `'O'` has no line and the board is not full; without a reply the state resets, and a full board is reported as a tie. The reply is an empty cell with the best score, earliest in row-major order among ties. After the reply, "AI wins", "tie" and "continue" hold exactly as for `ai_move`. When play continues, the board is the human's board with `'X'` at the reply, and it is the human's turn. The turn always ends with the human. Moves preserve the invariant `Settled`. |
| Game.SettledHasEmptyCell | tictactoe.py:95-107 | A settled state has an odd number of empty cells. So the board is never full when the human is asked to move. |

## Left out

- The tkinter and ttkthemes user interface: the theme, the button grid and its configuration, `messagebox`, and the main loop. Each step returns an `Outcome` naming the message it would show.
- Search.Minimax: the unused `depth` parameter is dropped, because it never affects the result.
- Search.Minimax: the float sentinels `-inf` and `+inf` are modelled by the datatype `Bound` (`NegInf | Finite | PosInf`). The compared values are always −1, 0 or 1, so no floating-point arithmetic is involved.
- Search.MinimaxIsBestMove: the claim that perfect play always draws is not stated. The program neither states nor checks it.
- Game.AiMove: requires a board that is not full. The source unpacks the selector's answer as a pair, which fails on `None`. Its only caller, `make_move`, calls it only when the board is not full.
- Game.MakeMove: requires `row` and `col` in 0..2, because the button grid is the only caller and produces nothing else.

