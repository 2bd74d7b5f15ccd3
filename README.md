# Minesweeper game core in Dafny

This project models the game logic of a small Tkinter Minesweeper (`main.py`).

- **Board generation** (`create_board`). Mines go at distinct flat indices `loc` of a `rows × cols` grid, at row `loc // cols` and column `loc % cols`. For each mine, every on-grid cell in the 3×3 block around it that is not already a mine gets its count bumped. The random sample of indices is a parameter (`sample`). `Board.PlaceMines` fills a two-dimensional array with nested loops, as the source does. The specification function `Board.Layout` gives the board after the mines of a sample have been placed one by one.
- **The game session**. The Tkinter buttons become `Game.Session`. The class holds:
  - the hidden `board`;
  - an array of `Button(text, disabled)` records, one per cell;
  - the `answersRevealed` flag;
  - the status `message`;
  - the seconds the timer label last showed.

  The event handlers (`reveal_cell`, `toggle_flag`, `game_over`, `check_game_over`, `reveal_all_answers`, `update_timer`, `reset_game`) are methods that change those fields. Each method states the complete new state of every cell.

What is proved:
- The generated board holds exactly one mine per sampled index.
- Every other cell holds the number of mine cells in its 3×3 neighbourhood, clipped to the grid, and counted on the finished board (`Board.MinesAround`). This count is the reference definition.
- The board depends only on which indices were sampled, not on their order. This holds although counts are bumped as mines are placed, and a bumped cell can later become a mine.
- The handlers change exactly what the code changes and nothing else.
- The end-of-game tally equals the number of disabled and flagged cells.
- The remaining time lies in `[0, 100]` and reaches 0 exactly at 100 seconds.
- A position where every mine is flagged and every other cell is revealed is judged a win.

Some points where the code differs from common Minesweeper rules; the model follows the code:
- A win is not terminal. `check_game_over` only sets the message and disables nothing. The timer keeps running, so after 100 seconds `Tick` still ends the game with "Game Over".
- `reset_game` does not reset `answers_revealed`. `Session.Reset` carries the flag over.
- Unflagging turns `'F'` into `''`. Any other text on an enabled button, such as a `'*'` shown by the reveal button, is kept.
- Hiding the mines writes `''` over every mine button, including one showing `'F'`.
- Revealing a flagged cell replaces the `'F'` with the cell's count.
- "Missed mines" needs a misplaced flag. It is shown when every mine and at least one safe cell carry a flag and every other cell is revealed (`Game.MisplacedFlagMisses`). A misplaced flag while a mine is still untouched clears the message instead. For example, take the 8×8 board with 10 mines, with 53 safe cells revealed, 9 mines and 1 safe cell flagged, and 1 mine untouched. Then 53 + 10 = 63 cells are resolved out of 64, and the check clears the message. On any board, the check gives no verdict while one button is neither revealed nor flagged (`Game.UntouchedCellClears`).
- The time limit enforced is 100 seconds (`TimeLimit`). The instruction label's "90 seconds" is only text.

## Model

| member | source | states |
|---|---|---|
| `Board.FlatIndex` | main.py:14-15 | on a grid `cols` wide, `r * cols + c == loc` exactly when `loc // cols == r` and `loc % cols == c`, so distinct indices go to distinct cells |
| `Board.FlatInBounds` | main.py:10-16 | every index sampled from `range(rows * cols)` maps to a row below `rows` and a column below `cols` |
| `Board.IncrementNeighbours` | main.py:19-22 | after the double loop, every on-grid cell in the 3×3 block around the mine that is not a mine has its count raised by one; mines and all other cells are unchanged |
| `Board.PlaceMines` | main.py:9-22 | starting from a board of zeros and placing the sampled mines in order yields a fresh `rows × cols` board equal to `Layout(rows, cols, sample)` |
| `Board.CreateBoard` | main.py:7-24 | a mine count that is negative or larger than the number of cells fails with one error, as `random.sample` raises one `ValueError` for both; otherwise the result is the generated layout and holds exactly `num_mines` mine cells |
| `Board.LayoutMines` | main.py:13-16 | a cell of the generated board is a mine exactly when some sampled index maps to it by `loc // cols`, `loc % cols` |
| `Board.LayoutMineCount` | main.py:10-16 | the generated board holds exactly as many mine cells as indices were sampled |
| `Board.AdjacentIsAround` | main.py:13-22 | for a cell that is not itself one of the mines, the number of times the placement loop bumps it equals the number of sampled mines in its clipped 3×3 block |
| `Board.AroundStep` | main.py:13-22 | placing one more mine raises the count of mines around a cell by one exactly when the new mine lies in that cell's 3×3 block, and otherwise leaves it unchanged |
| `Board.LayoutCounts` | main.py:13-22 | every non-mine cell of the generated board holds the number of mine cells in its 3×3 neighbourhood clipped to the grid, counted on the finished board |
| `Board.LayoutOrderIndependent` | main.py:10-22 | two samples with the same indices in any order generate the same board |
| `Game.ToggleTwice` | main.py:44-54 | toggling twice restores a button; toggling keeps the disabled state, leaves texts other than `''` and `'F'` alone and does nothing to a disabled button |
| `Game.Remaining` | main.py:143-144 | `max(100 - elapsed, 0)` lies in `[0, 100]`, is 0 exactly when `elapsed >= 100` and otherwise is `100 - elapsed` |
| `Game.AllResolvedWins` | main.py:67-86 | when every mine has an enabled flag and every other cell is disabled without a flag, the flag count equals the mine count and the check's verdict is the congratulation |
| `Game.NewGame` | main.py:184-216 | the game starts on an 8×8 board generated from the given sample with exactly 10 mines, every button blank and enabled, mines hidden, no message and 100 seconds shown |
| `Game.MisplacedFlagMisses` | main.py:67-94 | on any board where every mine carries an enabled flag, every safe cell is either revealed or flagged but not both, and some safe cell is flagged, the disabled and flagged buttons add up to `rows * cols` while the flags outnumber the mines, so the check shows "missed some mines" |
| `Game.UntouchedCellClears` | main.py:67-94 | on any grid where no revealed button shows a flag, one button that is neither revealed nor flagged keeps disabled plus flagged below `rows * cols`, so the check gives no verdict and clears the message; a misplaced flag with one mine left untouched therefore never reports missed mines |
| `Game.Session.constructor` | main.py:184-216 | a new session's board is the layout generated from the sample (`NewGame` adds that it holds exactly the requested number of mines), every button blank and enabled, `answers_revealed` false, no message and the full time shown |
| `Game.Session.Reset` | main.py:125-139 | a restart brings fresh blank enabled buttons, a board equal to the layout generated from the new sample, 100 seconds shown and no message; `answers_revealed` keeps its value |
| `Game.Session.GameOver` | main.py:58-65 | every button is disabled, keeping its text, and the message is "Game Over" |
| `Game.Session.Tally` | main.py:69-79 | the two loop counters end as the number of disabled buttons and the number of buttons showing `'F'` |
| `Game.Session.CheckGameOver` | main.py:67-94 | no button changes; the message is the congratulation when disabled plus flagged equals `rows * cols` and flagged equals `num_mines`, "missed some mines" when the sum matches but the flags do not, and cleared otherwise |
| `Game.Session.RevealCell` | main.py:26-40 | a middle click changes nothing. On a mine, that button shows `'*'` and every button is disabled, with "Game Over" shown. On any other cell, the button shows the board's count (which equals the clipped neighbourhood mine count) and is disabled, no other button changes, and the end-of-game verdict is shown. The primary click is only possible on an enabled button |
| `Game.Session.ToggleFlag` | main.py:42-56 | the clicked button becomes `Toggled` of itself and no other button changes; on an enabled button the end-of-game check runs, and on a disabled one the message is untouched |
| `Game.Session.MarkMines` | main.py:156-168 | every button over a mine gets the given text; buttons over other cells are untouched |
| `Game.Session.RevealAllAnswers` | main.py:153-171 | `answers_revealed` flips; buttons over mines show `'*'` when the mines become shown and `''` when they become hidden; no other button changes and no button's disabled state changes |
| `Game.Session.Tick` | main.py:141-151 | the label shows `max(100 - elapsed, 0)`; before 100 seconds the tick asks to be rescheduled and changes no button; from 100 seconds on it disables every button, shows "Game Over" and stops |

## Left out

- Widget construction, layout, fonts and colours (`create_buttons`, most of `main`, the `bg`/`fg` settings in the handlers). These are presentation only.
- The captions of the restart button ("Restart" / "Try Again") and the reveal button ("Reveal Mines" / "Hide Mines"). They are presentation. The restart caption reads "Try Again" exactly when a message is shown.
- The flag image and its loading through PIL. These are foreign code and file I/O; only the `'F'` text is modelled.
- `update_idletasks`, which is a Tk redraw.
- The randomness of `random.sample`. The sampled indices are a parameter with the properties a sample without replacement has.
- `root.after` self-rescheduling, and the second timer chain that `reset_game` starts without stopping the first. `Session.Tick` models one call and returns whether it would reschedule itself.
- `time.time()` and the `int` truncation of the elapsed time. `elapsed` is a whole number of seconds.
- The instruction label text shown before the first reset. It is replaced by `reset_game` at once.
- `Game.Session.RevealCell`: a bound click whose button number is not 2 is modelled as a reveal, which is what the code does. Only the middle button is ever bound.
