# Connect Four rules engine — a Dafny model

This project models the rules engine of a browser Connect Four game: the
`ConnectFour` class of `static/js/game.js`. Two players take turns dropping
pieces into the columns of a fixed 6-row, 7-column board. A piece falls to
the lowest empty cell of its column. The mover wins with four of their marks
in a row, across, down or along either diagonal, through the piece just
placed. When the top row fills with no win, the game is a draw. After a win
or a draw, clicks on the board are ignored until the game is reset.

The model is functional. The board is a `seq<seq<int>>` whose cells hold
0 (empty), 1 or 2, exactly as in the source. Row 0 is the top row. The class
fields the rules use become the record `Game(board, currentPlayer, gameActive)`.
Each method becomes a pure function from state to state.

| file | module | models |
|---|---|---|
| `wrappers.dfy` | `Wrappers` | `Option`, standing for the source's `null` return |
| `board.dfy` | `Board` | the grid, placement, `getLowestEmptyRow`, `checkDraw`, the gravity invariant, piece counts |
| `win.dfy` | `Win` | `countDirection` (as a loop and as a function), `checkWin`, the cell list of `highlightWinningCells` |
| `game.dfy` | `ConnectFour` | the constructor, `makeMove`, the click handler's guard, `handleWin`/`handleDraw` state effects, `resetGame`, sequences of inputs |
| `scenarios.dfy` | `Scenarios` | concrete positions: a vertical win, a move that must not count as a win, a final draw |

`makeMove` itself has no `gameActive` check. The check sits in the board's
click handler (line 31). The model keeps that split: `MakeMove` is the
unguarded method and `Click` is the guarded handler. `MakeMove` also returns
an `Outcome`, telling which of `handleWin`, `handleDraw` or `updateStatus`
the source would call. A `Won` outcome carries the winning cell list.

The central invariant is `ConnectFour.Valid`. It says four things:

- the board is well formed;
- gravity holds: an occupied cell has only occupied cells below it;
- a running game never has a full top row;
- player 1 leads player 2 by zero or one piece, in the way the turn order
  dictates.

Every input keeps `Valid`, so every reachable state satisfies it.

Some details of the code worth knowing:

- A column index outside 0..6 makes `board[row][col]` undefined. That is never
  `=== 0`, so `getLowestEmptyRow` returns `null` and the move is a no-op.
  `LowestEmptyRow` models this as `None`.
- The winning line is listed in the source's order. First comes the placed
  cell. Then comes the run along the axis's first delta, nearest first. Last
  comes the run along the second delta.
- The source's comments call delta (1, 1) "Diagonal /" and (1, -1)
  "Diagonal \". Since row 0 is the top row, (1, 1) actually runs like "\".
  The labels do not affect behaviour. Here the axes are `Diagonal` for
  (1, 1) and `AntiDiagonal` for (1, -1).
- `game.js` has no computer opponent and no pending-move guard, and
  `makeMove` returns nothing.

## Model

| member | source | states |
|---|---|---|
| Board.EmptyBoard | static/js/game.js:3-5 | the constructor's board: 6 rows of 7 cells, every cell 0 |
| Board.Place | static/js/game.js:51 | writing the mover's mark sets exactly cell (row, col); every other cell keeps its value |
| Board.Other | static/js/game.js:59 | the turn toggle `currentPlayer === 1 ? 2 : 1`: the result is a player and differs from the given one |
| Board.LowestEmptyRow | static/js/game.js:64-69 | `getLowestEmptyRow`: a returned row is in [0, ROWS), its cell is empty and every cell below it in the column is occupied, so it is the largest empty row; the result is null exactly when the column is full or off the board |
| Board.LowestEmptyRowIs | static/js/game.js:64-69 | conversely, an empty cell with every cell below it occupied is the row `getLowestEmptyRow` returns |
| Board.LowestEmptyFrom | static/js/game.js:65-68 | the bottom-up scan: with the rows below row already occupied, it returns an empty row no higher than row with occupied cells beneath, or reports the column full |
| Board.CheckDraw | static/js/game.js:148-150 | `checkDraw` as its definition: every cell of the top row is occupied; its meaning, a full board under gravity, is `Board.DrawIsFull` |
| Board.DrawIsFull | static/js/game.js:148-150 | under gravity, `checkDraw`'s top-row test holds exactly when every cell of the board is occupied |
| Board.DrawWithoutGravity | static/js/game.js:148-150 | without gravity the top-row test is not "board full": a board exists with a full top row and an empty cell |
| Board.PlaceKeepsGravity | static/js/game.js:48-51 | placing on the lowest empty row keeps gravity: no occupied cell has an empty cell below it |
| Board.NextRowIsAbove | static/js/game.js:64-69 | after a piece lands on row r, the next piece in that column lands on row r - 1, or the column is full when r = 0 |
| Board.PlaceCount | static/js/game.js:51 | placing p on an empty cell adds one to p's piece count and leaves the other player's count unchanged |
| Win.MatchIsClose | static/js/game.js:111-114 | a cell the walk accepts lies on the board, so it is at most ROWS - 1 steps away vertically and COLS - 1 horizontally |
| Win.RunFrom | static/js/game.js:111-119 | the walk from step k on ends at a maximal run of the mover's marks no shorter than the k - 1 steps already matched |
| Win.RunLength | static/js/game.js:106-122 | the count is the length of the maximal run of in-bounds cells holding the mover's mark, starting one step away; it is at most ROWS - 1 when the row delta is non-zero and COLS - 1 when the column delta is |
| Win.CountDirection | static/js/game.js:106-122 | the source's loop terminates and returns that maximal run length, within the same bounds |
| Win.FirstWinning | static/js/game.js:86-103 | the loop over the list of axes from the i-th on returns an axis whose count reaches 4 and which comes no earlier than i, with every axis between i and it counting below 4; it returns nothing exactly when every remaining axis counts below 4 |
| Win.AxisCount | static/js/game.js:94-96 | `count` for one axis as its definition: 1 plus `countDirection` along both deltas; its meaning, four aligned marks through the cell, is `Win.AxisCountIsWindow` |
| Win.WinningAxis | static/js/game.js:93-103 | `checkWin`'s loop stops at the first axis, in the order horizontal, vertical, (1,1), (1,-1), whose count 1 + run + opposite run reaches 4; it finds none exactly when every axis counts below 4 |
| Win.CheckWin | static/js/game.js:85-104 | `checkWin` as its definition: `WinningAxis` finds an axis; what that means is `Win.WinningAxis` (the first axis counting 4) and `Win.CheckWinIsFourInARow` (some four in a row through the cell) |
| Win.SpanIsWindow | static/js/game.js:94-98 | runs of the two opposite directions total at least 3 exactly when 4 contiguous cells through the placed cell on that line all hold the mover's mark |
| Win.AxisCountIsWindow | static/js/game.js:93-98 | an axis count reaches 4 exactly when 4 contiguous in-bounds cells through the placed cell on that axis hold the mover's mark |
| Win.CheckWinIsFourInARow | static/js/game.js:85-104 | `checkWin(row, col)` is true exactly when some 4 contiguous cells through (row, col) on one axis all hold the current player's mark |
| Win.MirrorRun | static/js/game.js:106-122 | `countDirection` on the mirrored board, from the mirrored cell, along the mirrored delta, returns the same count |
| Win.CheckWinMirror | static/js/game.js:85-104 | win detection is symmetric under horizontal mirroring: `checkWin` at (row, col) on a board agrees with `checkWin` at (row, COLS - 1 - col) on its mirror image |
| Win.WinningCells | static/js/game.js:124-141 | the winning list starts with (row, col), its length equals the axis count, and every cell in it lies on the board and holds the mover's mark |
| Win.Line | static/js/game.js:125-141 | the list for one pair of deltas: the placed cell, then both runs, each cell on the board holding the mover's mark |
| Win.LineIsTheRun | static/js/game.js:128-141 | a cell on the line through (row, col) is in the list exactly when every cell from the placed one out to it holds the mover's mark |
| Win.WinningCellsAreTheRun | static/js/game.js:124-141 | the winning list is exactly the contiguous run of the mover's marks through the placed cell along the winning axis |
| ConnectFour.Initial | static/js/game.js:2-8 | the constructor: all-zero board, player 1 to move, game active |
| ConnectFour.InitialIsValid | static/js/game.js:2-8 | the constructor's state satisfies the state invariant |
| ConnectFour.ResetGame | static/js/game.js:170-174 | `resetGame` from any state gives an all-zero board, player 1 to move, game active |
| ConnectFour.MakeMove | static/js/game.js:47-62 | a move is ignored, leaving the state unchanged, exactly when the column is full or off the board; a win stops the game with the winner still current and a line of at least 4 of their marks; a draw stops it with the top row full; otherwise the turn passes to the other player and `gameActive` keeps its value, since the method never assigns it on that path |
| ConnectFour.Click | static/js/game.js:30-37 | the click handler drops every request once the game is over, and ignores it exactly when the game is over or the column has no room |
| ConnectFour.Handle | static/js/game.js:30-44 | the listeners: a column click goes to `Click`, so through the `gameActive` guard, and either reset button to `ResetGame`; the result stays well formed, and `Valid` is kept by `ConnectFour.HandleKeepsValid` |
| ConnectFour.MoveWritesOneCell | static/js/game.js:48-51 | an accepted move writes the current player into exactly one cell, the lowest empty one of the column, and changes no other cell |
| ConnectFour.MoveOutcome | static/js/game.js:54-61 | after a placement, win is checked first, then draw: the outcome is a win exactly when four of the mover's marks line up through the new piece, a draw exactly when they do not and the top row is full, and a continued game otherwise |
| ConnectFour.NextMoveLandsAbove | static/js/game.js:48-51 | right after a piece lands on a row of a column, the next piece dropped there lands one row higher, or the column is full when that row was the top |
| ConnectFour.OtherColumnKeepsRow | static/js/game.js:48-51 | a move into another column leaves the row where this column's next piece lands unchanged |
| ConnectFour.LandingRowRises | static/js/game.js:30-51 | a click leaves a column's landing row alone unless a piece lands in that column, and then moves it up exactly one row (to "full" from the top row) |
| ConnectFour.ReplayLandingRowRises | static/js/game.js:47-62 | over any sequence of column clicks, whatever is played in other columns, a column's landing row never moves down |
| ConnectFour.LaterPiecesLandHigher | static/js/game.js:47-62 | after a piece lands in a column, whatever column clicks follow, that column's landing row stays strictly above the row the piece took, so successive pieces in one column land on strictly decreasing rows |
| ConnectFour.MoveKeepsValid | static/js/game.js:47-62 | a move in a running game keeps gravity, keeps the board not full while the game runs, and keeps the piece counts in step with the turn |
| ConnectFour.HandleKeepsValid | static/js/game.js:30-44 | every click or reset keeps the state invariant |
| ConnectFour.ReplayKeepsValid | static/js/game.js:30-44 | any sequence of clicks and resets keeps the state invariant |
| ConnectFour.OverStaysOver | static/js/game.js:31 | once `gameActive` is false, any sequence of board clicks leaves the state unchanged |
| ConnectFour.ResetRestarts | static/js/game.js:39-44 | a reset after any sequence of inputs restores the constructor's state |
| ConnectFour.ReplayAppend | static/js/game.js:30-44 | handling two input sequences one after the other is handling their concatenation |
| ConnectFour.PlayerTogglesOnlyOnContinue | static/js/game.js:54-61 | the current player changes exactly when a click places a piece and the game goes on, and then the game was and stays active |
| ConnectFour.ActiveHasLegalMove | static/js/game.js:56-60 | in a running game some column still has room, since the move filling the top row ends the game |
| ConnectFour.DrawMeansFull | static/js/game.js:56-57 | a draw is declared only when every cell of the board is occupied |
| Scenarios.VerticalWin | static/js/game.js:47-62 | player 1's fourth piece in column 3 lands on row 2 and wins with the line (2,3), (3,3), (4,3), (5,3), leaving player 1 current and the game over |
| Scenarios.NoWinForTheWrongMarks | static/js/game.js:111-115 | player 2 completing four occupied cells in a row next to three of player 1's pieces does not win; the turn passes to player 1 |
| Scenarios.DrawThenIgnored | static/js/game.js:54-58 | filling the last cell without a line gives a draw, and every later click is ignored |

## Left out

- Rendering and the DOM (`initializeBoard`, `animateDrop`, `getCellElement`, the `classList` edits in `highlightWinningCells` and `resetGame`, `updateStatus`, the victory modal): user-interface side effects with no bearing on the rules.
- The `setTimeout` that ends the drop animation, and the event-listener wiring beyond the `gameActive` guard: browser plumbing. Either reset button is modelled as one `ResetClick` input.
- `lastMove`: assigned in the constructor and in `resetGame`, never read.
- `parseInt` of the clicked cell's `data-col`: the cells carry the integers 0..6, so the model takes the column as an `int`.
- `main.py`: a Flask server that renders a template, with no game logic.
- The random computer opponent and its pending-move guard: there is no such code in `static/js/game.js`.
- Win.CountDirection: requires unit, non-zero deltas and an on-board start. `checkWin` only calls it that way; with deltas (0, 0) the source loop would never end on a cell holding the current player.
- Swapping the board's axes by a 90-degree turn: a 6 by 7 board turns into a 7 by 6 one, which is not a board this game can hold, so only the horizontal mirror symmetry is stated (`Win.CheckWinMirror`).
