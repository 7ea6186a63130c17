# Apple game rule engine

A model of the game rules of the PyQt5 "Apple Game" widget (`AppleGame` in
`apple_game.py`). The board is a 15x15 grid of digits 1–9. The player drags a
rectangle over it. When the digits in the rectangle sum to exactly 10 and the
rectangle holds at least two cells, the rectangle is cleared. The score then
grows by the number of apples (non-zero cells) removed. A 90-second countdown
ends the game.

The model has four modules:

- `Board` holds the board as a value (`Grid`, rows of columns, where 0 marks
  a cleared cell). It defines the selection sum, the acceptance rule
  `Accepts` and `Pop`. `Pop` is the clearing walk of the widget written as a
  left fold: each selected cell counts 1 if it still holds an apple and is
  then set to 0.
- `Selection` holds the rectangle a drag selects (`Rectangle`), built row by
  row as the widget's nested loop builds it.
- `Timer` holds the countdown as a value (`Clock`). `Tick` is one call of the
  timer callback. `Elapse` is one second of wall time: an active timer fires
  its callback and a stopped one does nothing.
- `Game` holds the session object `AppleGame`. It is a class whose fields are
  the widget's game state: `grid` (an `array2<int>`), `score`, `timeLeft`,
  `running` (the timer is active), `selected`, `isDragging` and `dragStart`.
  Its methods change this state in place, as the widget's handlers do. Each
  method's postcondition ties the new state to the functions of `Board`,
  `Selection` and `Timer`. `Valid()` is the session invariant that the
  constructor establishes and every event handler keeps:
  - every cell holds a value in 0..9;
  - the selection and the drag start lie on the board;
  - a drag happens only while the timer runs and only from a start cell;
  - the score is never negative;
  - an active timer has between 1 and 90 seconds left.

A pointer event reaches the model as the board cell under the pointer
(`Option<Cell>`), with `None` when the pointer is over no visible cell. The
mouse button is a boolean. The random board of a new game is a parameter
`digits`, and the model requires every cell of it to be in 1..9, which is
what `random.randint(1, 9)` guarantees.

## Model

| member | source | states |
|---|---|---|
| `Board.SelectionSum` | apple_game.py:166 | the sum of the values at the selected cells, in selection order, a cell listed twice counted twice; on a board of values in 0..9 it lies between 0 and 9 times the number of selected cells |
| `Board.Accepts` | apple_game.py:168 | a selection is accepted exactly when its sum is 10 and it has at least 2 cells; an accepted selection holds at least one non-zero cell |
| `Board.Pop` | apple_game.py:169-173 | the clearing walk: left to right, each selected cell adds 1 to the count if it is still non-zero and is then set to 0; the count lies between 0 and the length of the selection |
| `Board.ClearCell` | apple_game.py:173 | clearing a cell makes it 0 and leaves every other cell of the board as it was |
| `Board.PopClearsSelection` | apple_game.py:170-173 | after the clearing walk every selected cell is 0 |
| `Board.PopKeepsOthers` | apple_game.py:170-173 | the clearing walk never changes a cell outside the selection |
| `Board.PopCount` | apple_game.py:169-172 | the count of cleared apples equals the number of distinct selected cells that were non-zero before the walk, so a cell listed twice counts once |
| `Board.NonZeroSumHasApple` | apple_game.py:166 | a selection whose sum is not 0 contains at least one non-zero cell |
| `Board.AcceptedPopScores` | apple_game.py:166-177 | when a selection is accepted (sum 10, at least 2 cells), the walk clears at least one apple, so the score strictly increases |
| `Board.PopKeepsPlayBoard` | apple_game.py:170-173 | a board whose cells are all in 0..9 stays so after a pop, because the only write stores 0 |
| `Board.PopIdempotent` | apple_game.py:171-173 | popping a selection a second time changes no cell and counts nothing |
| `Selection.RowCells` | apple_game.py:140-141 | the inner loop: the cells (r, cMin) to (r, cLast) of one row, left to right; it has cLast - cMin + 1 cells, or none when cLast < cMin |
| `Selection.BoxCells` | apple_game.py:139-141 | the outer loop: the rows rMin to rLast appended one after another; when cMin <= cMax it has (rLast - rMin + 1) * (cMax - cMin + 1) cells, or none when rLast < rMin |
| `Selection.Rectangle` | apple_game.py:133-141 | the selection of a drag: the box between the min and max of the start and end rows and columns, built by the two loops; the start cell and the end cell are both in it |
| `Selection.RectangleMembership` | apple_game.py:133-141 | a cell is in the selection exactly when its row is between min and max of the start and end rows and its column is between min and max of the start and end columns |
| `Selection.RectangleRowMajor` | apple_game.py:139-141 | the selected cells appear in strictly increasing row-major order, so no cell appears twice |
| `Selection.RectangleLength` | apple_game.py:139-141 | the selection has (r_max - r_min + 1) * (c_max - c_min + 1) cells |
| `Selection.RectangleSymmetric` | apple_game.py:136-137 | swapping the start and end cells gives the same selection, in the same order |
| `Selection.RectangleSingle` | apple_game.py:108-111 | a drag that starts and ends on one cell selects exactly that cell |
| `Selection.RectangleInBounds` | apple_game.py:133-141 | a drag between two board cells selects only board cells |
| `Timer.Tick` | apple_game.py:187-190 | one call of the timer callback: one second less, and the timer stops once the time left is 0 or less; after a tick an active timer always has time left, and a tick never restarts a stopped timer |
| `Timer.Elapse` | apple_game.py:52-53 | one second of wall time: an active timer fires the callback and a stopped one does nothing; it never restarts a stopped timer and keeps a clock sane (time left never negative, never active with no time left) |
| `Timer.ElapseN` | apple_game.py:185-191 | the clock after k seconds; a stopped timer stays stopped, and a sane clock stays sane |
| `Timer.Countdown` | apple_game.py:185-191 | from t0 > 0 seconds with the timer active, after k seconds the time left is t0 - k and the timer is still active when k < t0; from then on the time left is 0 and the timer is stopped |
| `Timer.GameEndsOnce` | apple_game.py:187-191 | in a new 90-second game the timer stops during second k exactly when k = 90, so the game ends once, never earlier and never twice |
| `Game.AppleGame.Valid` | apple_game.py:56-191 | the session invariant: a 15x15 board with every cell in 0..9, a selection and a drag start on the board, a drag only while the timer runs and only from a start cell, a score that is never negative, and an active timer with 1 to 90 seconds left; so a drag always has a start cell on the board and time left |
| `Game.AppleGame.constructor` | apple_game.py:13-16 | creating the widget starts a new game: the board is the dealt one, score 0, a full active clock, no selection and no drag |
| `Game.AppleGame.NewGame` | apple_game.py:56-63 | a new game sets score 0, 90 seconds on a running timer, an empty selection, no drag and no drag start, and fills a fresh board cell by cell with the dealt digits (all in 1..9) |
| `Game.AppleGame.Press` | apple_game.py:103-111 | a left press on a cell while the timer runs starts a drag there and selects only that cell; any other press changes nothing |
| `Game.AppleGame.Move` | apple_game.py:114-118 | a move over a cell during a drag makes the selection the rectangle from the drag start to that cell; otherwise the selection is unchanged |
| `Game.AppleGame.Release` | apple_game.py:120-124 | a left release during a drag ends the drag, checks the selection as `CheckSelection` does and clears the drag start; any other release changes nothing; the score never decreases |
| `Game.AppleGame.UpdateRectangleSelection` | apple_game.py:126-141 | the selection becomes the rectangle from the drag start to the given cell, or empty when no drag start is set |
| `Game.AppleGame.SumSelected` | apple_game.py:166 | returns the sum of the board values at the selected cells |
| `Game.AppleGame.CheckSelection` | apple_game.py:161-183 | the selection always ends empty. An accepted selection (sum 10, at least 2 cells) leaves the board as the pop of the old board and adds the pop's count to the score. Any other selection, the empty one included, leaves board and score unchanged. The board stays in 0..9 and the score never decreases |
| `Game.AppleGame.ClearSelected` | apple_game.py:169-173 | walks the selection in place, setting each cell to 0 and counting the cells that were non-zero when reached; the resulting board and count are those of `Board.Pop` |
| `Game.AppleGame.UpdateTimer` | apple_game.py:185-191 | each call takes exactly one second off; the timer stops exactly when the time left reaches 0 or less, and game over then cancels any drag (line 195) |

## Left out

- Qt widget construction, layouts, fonts, style sheets, the score, time and
  status labels, and selection highlighting (`setup_grid_labels`,
  `update_selection_visuals`, `reset_selection_visuals`, `update_status`):
  these only render the state.
- Label visibility (`setVisible(False)` on a cleared cell): this is
  presentation. The value 0 in the grid already marks the cell as cleared.
- `get_cell_at`: it maps pixels to cells through Qt geometry, which the model
  cannot see. Its result is the `Option<Cell>` argument of `Press` and `Move`.
  The model does not capture that the widget returns no cell for a hidden
  (cleared) label, so callers decide what `None` means.
- `random.randint`: a random number generator. The dealt board is a parameter
  of `NewGame` whose cells are required to be in 1..9.
- The `QTimer` scheduling: the model has no real time. A tick is a call of
  `UpdateTimer`, and `Timer.Elapse` models "an active timer fires once per
  second". `timer.isActive()` is the field `running`.
- The `QMessageBox` of `game_over`: this is I/O. Only its state change
  (`is_dragging = False`) is modelled, in `UpdateTimer`.
- The program entry point (`QApplication`, `show`, `exec_`).
