/**
 The state of the `ConnectFour` class of static/js/game.js and its
 transitions: the constructor, `makeMove` with its win and draw handling,
 the click handler's `gameActive` guard, and `resetGame`.
 */
module ConnectFour {
  import opened Wrappers
  import opened Board
  import opened Win

  /** The fields of the class the rules read and write; `lastMove` is never read and is left out. */
  datatype Game = Game(board: Grid, currentPlayer: int, gameActive: bool)

  /**
   What a move request led to: ignored (no piece placed), the turn passed on
   (`updateStatus`), a win with its winning line (`handleWin`), or a draw
   (`handleDraw`).
   */
  datatype Outcome = Ignored | Continued(row: int, col: int) | Won(line: seq<Pos>) | Drawn(row: int, col: int)

  datatype Turn = Turn(game: Game, outcome: Outcome)

  predicate WellFormedGame(g: Game) {
    WellFormed(g.board) && IsPlayer(g.currentPlayer)
  }

  /** The state invariant the game maintains. */
  predicate Valid(g: Game) {
    && WellFormedGame(g)
    && Gravity(g.board)
    // An active game never has a full board: the move that fills it ends the game.
    && (g.gameActive ==> !CheckDraw(g.board))
    // Player 1 moves first and the players alternate, so player 1 leads by at
    // most one piece; while the game runs, it is player 2's turn exactly when
    // player 1 leads, and once it ends, the last mover is the current player.
    && Count(g.board, 1) - Count(g.board, 2) ==
       (if g.gameActive then (if g.currentPlayer == 2 then 1 else 0)
        else (if g.currentPlayer == 1 then 1 else 0))
  }

  /** The state the constructor sets up. */
  function Initial(): (g: Game)
    ensures WellFormed(g.board) && forall r, c :: InBounds(r, c) ==> g.board[r][c] == Empty
    ensures g.currentPlayer == 1 && g.gameActive
  {
    Game(EmptyBoard(), 1, true)
  }

  /** `resetGame`: whatever the state, back to an empty board, player 1 to move, the game running. */
  function ResetGame(g: Game): (g': Game)
    ensures WellFormed(g'.board) && forall r, c :: InBounds(r, c) ==> g'.board[r][c] == Empty
    ensures g'.currentPlayer == 1 && g'.gameActive
  {
    Initial()
  }

  /**
   `makeMove(col)`: drop the current player's piece into col; then a win
   ends the game with the mover still current, else a full top row ends it
   as a draw, else the turn passes to the other player and `gameActive` is
   left as it was (the method itself never sets it to true).
   */
  function MakeMove(g: Game, col: int): (t: Turn)
    requires WellFormedGame(g)
    ensures WellFormedGame(t.game)
    ensures t.outcome.Ignored? <==> !(0 <= col < Cols) || ColumnFull(g.board, col)
    ensures t.outcome.Ignored? ==> t.game == g
    ensures t.outcome.Won? ==> !t.game.gameActive && t.game.currentPlayer == g.currentPlayer
    ensures t.outcome.Won? ==> |t.outcome.line| >= WinLength && AllHold(t.game.board, g.currentPlayer, t.outcome.line)
    ensures t.outcome.Drawn? ==> !t.game.gameActive && t.game.currentPlayer == g.currentPlayer && CheckDraw(t.game.board)
    ensures t.outcome.Continued? ==> t.game.gameActive == g.gameActive && t.game.currentPlayer == Other(g.currentPlayer)
  {
    match LowestEmptyRow(g.board, col)
    case None => Turn(g, Ignored)
    case Some(row) =>
      var p := g.currentPlayer;
      var b := Place(g.board, row, col, p);
      match WinningAxis(b, p, row, col)
      case Some(a) => Turn(Game(b, p, false), Won(WinningCells(b, p, row, col, a)))
      case None =>
        if CheckDraw(b) then Turn(Game(b, p, false), Drawn(row, col))
        else Turn(Game(b, Other(p), g.gameActive), Continued(row, col))
  }

  /** The board's click handler: requests are dropped once the game is over, else `makeMove(col)`. */
  function Click(g: Game, col: int): (t: Turn)
    requires WellFormedGame(g)
    ensures WellFormedGame(t.game)
    ensures !g.gameActive ==> t == Turn(g, Ignored)
    ensures t.outcome.Ignored? <==> !g.gameActive || !(0 <= col < Cols) || ColumnFull(g.board, col)
  {
    if !g.gameActive then Turn(g, Ignored) else MakeMove(g, col)
  }

  /** The user's inputs: a click on a column, or either of the two reset buttons. */
  datatype Input = ColumnClick(col: int) | ResetClick

  function Handle(g: Game, input: Input): (g': Game)
    requires WellFormedGame(g)
    ensures WellFormedGame(g')
  {
    match input
    case ColumnClick(col) => Click(g, col).game
    case ResetClick => ResetGame(g)
  }

  /** The state after handling the inputs in order. */
  function Replay(g: Game, inputs: seq<Input>): (g': Game)
    requires WellFormedGame(g)
    ensures WellFormedGame(g')
    decreases |inputs|
  {
    if |inputs| == 0 then g else Replay(Handle(g, inputs[0]), inputs[1..])
  }

  /** An accepted move writes the mover's mark into exactly one cell: the lowest empty one of the column. */
  lemma MoveWritesOneCell(g: Game, col: int, row: int)
    requires WellFormedGame(g) && InBounds(row, col) && g.board[row][col] == Empty
    requires forall below :: row < below < Rows ==> g.board[below][col] != Empty
    ensures !MakeMove(g, col).outcome.Ignored?
    ensures MakeMove(g, col).game.board[row][col] == g.currentPlayer
    ensures forall r, c :: InBounds(r, c) && (r != row || c != col) ==>
      MakeMove(g, col).game.board[r][c] == g.board[r][c]
  {
    LowestEmptyRowIs(g.board, col, row);
  }

  /**
   The outcome of an accepted move at (row, col): a win exactly when four of
   the mover's marks line up through the new piece; a draw only without one
   and with the top row full; otherwise the game goes on.
   */
  lemma MoveOutcome(g: Game, col: int, row: int)
    requires WellFormedGame(g) && LowestEmptyRow(g.board, col) == Some(row)
    ensures var t := MakeMove(g, col);
      && (t.outcome.Won? <==> FourThrough(t.game.board, g.currentPlayer, row, col))
      && (t.outcome.Drawn? <==> !FourThrough(t.game.board, g.currentPlayer, row, col) && CheckDraw(t.game.board))
      && (t.outcome.Continued? <==> !FourThrough(t.game.board, g.currentPlayer, row, col) && !CheckDraw(t.game.board))
  {
    var b := Place(g.board, row, col, g.currentPlayer);
    CheckWinIsFourInARow(b, g.currentPlayer, row, col);
  }

  /** The next piece dropped into the same column lands one row higher, or the column is now full. */
  lemma NextMoveLandsAbove(g: Game, col: int, row: int)
    requires Valid(g) && LowestEmptyRow(g.board, col) == Some(row)
    ensures LowestEmptyRow(MakeMove(g, col).game.board, col) == if row == 0 then None else Some(row - 1)
  {
    NextRowIsAbove(g.board, col, row, g.currentPlayer);
  }

  /** A move into another column leaves where this column's next piece lands unchanged. */
  lemma OtherColumnKeepsRow(g: Game, c: int, col: int)
    requires WellFormedGame(g) && c != col && 0 <= col < Cols
    ensures LowestEmptyRow(MakeMove(g, c).game.board, col) == LowestEmptyRow(g.board, col)
  {
    var b' := MakeMove(g, c).game.board;
    match LowestEmptyRow(g.board, c)
    case None =>
    case Some(r) =>
      MoveWritesOneCell(g, c, r);
      assert forall row :: 0 <= row < Rows ==> b'[row][col] == g.board[row][col];
      match LowestEmptyRow(g.board, col)
      case None =>
        assert ColumnFull(b', col);
      case Some(row) =>
        LowestEmptyRowIs(b', col, row);
  }

  /** Where a column's next piece lands, as a row index; -1 once the column is full. */
  function LandingRow(b: Grid, col: int): int
    requires WellFormed(b)
  {
    match LowestEmptyRow(b, col)
    case None => -1
    case Some(row) => row
  }

  /**
   A click never lowers a column's landing row: it stays, or it moves up one
   exactly when a piece lands in that column.
   */
  lemma LandingRowRises(g: Game, c: int, col: int)
    requires Valid(g) && 0 <= col < Cols
    ensures var t := Click(g, c);
      && (t.outcome.Ignored? || c != col ==> LandingRow(t.game.board, col) == LandingRow(g.board, col))
      && (!t.outcome.Ignored? && c == col ==> LandingRow(t.game.board, col) == LandingRow(g.board, col) - 1)
  {
    if g.gameActive {
      if c != col {
        OtherColumnKeepsRow(g, c, col);
      } else if LowestEmptyRow(g.board, col).Some? {
        NextMoveLandsAbove(g, col, LowestEmptyRow(g.board, col).value);
      }
    }
  }

  /**
   Between resets the landing row of every column only rises, so the pieces
   dropped into one column land on strictly decreasing rows, whatever is
   played elsewhere in between.
   */
  lemma {:induction false} ReplayLandingRowRises(g: Game, inputs: seq<Input>, col: int)
    requires Valid(g) && 0 <= col < Cols
    requires forall i :: 0 <= i < |inputs| ==> inputs[i].ColumnClick?
    ensures LandingRow(Replay(g, inputs).board, col) <= LandingRow(g.board, col)
    decreases |inputs|
  {
    if |inputs| > 0 {
      LandingRowRises(g, inputs[0].col, col);
      HandleKeepsValid(g, inputs[0]);
      ReplayLandingRowRises(Handle(g, inputs[0]), inputs[1..], col);
    }
  }

  /**
   Once a piece lands in a column, whatever column clicks follow, the
   column's landing row stays strictly above the row the piece took: every
   later piece in that column lands higher up.
   */
  lemma LaterPiecesLandHigher(g: Game, col: int, inputs: seq<Input>)
    requires Valid(g) && g.gameActive && 0 <= col < Cols && !ColumnFull(g.board, col)
    requires forall i :: 0 <= i < |inputs| ==> inputs[i].ColumnClick?
    ensures LandingRow(Replay(Click(g, col).game, inputs).board, col) < LandingRow(g.board, col)
  {
    LandingRowRises(g, col, col);
    HandleKeepsValid(g, ColumnClick(col));
    ReplayLandingRowRises(Click(g, col).game, inputs, col);
  }

  /** A move in a running game keeps the state invariant. */
  lemma MoveKeepsValid(g: Game, col: int)
    requires Valid(g) && g.gameActive
    ensures Valid(MakeMove(g, col).game)
  {
    match LowestEmptyRow(g.board, col)
    case None =>
    case Some(row) =>
      PlaceKeepsGravity(g.board, col, row, g.currentPlayer);
      PlaceCount(g.board, row, col, g.currentPlayer, 1);
      PlaceCount(g.board, row, col, g.currentPlayer, 2);
  }

  lemma InitialIsValid()
    ensures Valid(Initial())
  {
    EmptyCount(1, Rows);
    EmptyCount(2, Rows);
  }

  /** Every input keeps the state invariant. */
  lemma HandleKeepsValid(g: Game, input: Input)
    requires Valid(g)
    ensures Valid(Handle(g, input))
  {
    match input
    case ColumnClick(col) =>
      if g.gameActive {
        MoveKeepsValid(g, col);
      }
    case ResetClick =>
      InitialIsValid();
  }

  /** Any sequence of inputs keeps the state invariant, so every reachable state satisfies it. */
  lemma {:induction false} ReplayKeepsValid(g: Game, inputs: seq<Input>)
    requires Valid(g)
    ensures Valid(Replay(g, inputs))
    decreases |inputs|
  {
    if |inputs| > 0 {
      HandleKeepsValid(g, inputs[0]);
      ReplayKeepsValid(Handle(g, inputs[0]), inputs[1..]);
    }
  }

  /** Once the game is over, column clicks change nothing until a reset. */
  lemma {:induction false} OverStaysOver(g: Game, inputs: seq<Input>)
    requires WellFormedGame(g) && !g.gameActive
    requires forall i :: 0 <= i < |inputs| ==> inputs[i].ColumnClick?
    ensures Replay(g, inputs) == g
    decreases |inputs|
  {
    if |inputs| > 0 {
      OverStaysOver(g, inputs[1..]);
    }
  }

  /** A reset, at any point, restores the constructor's state. */
  lemma ResetRestarts(g: Game, inputs: seq<Input>)
    requires WellFormedGame(g)
    ensures Replay(g, inputs + [ResetClick]) == Initial()
  {
    ReplayAppend(g, inputs, [ResetClick]);
  }

  lemma {:induction false} ReplayAppend(g: Game, xs: seq<Input>, ys: seq<Input>)
    requires WellFormedGame(g)
    ensures Replay(g, xs + ys) == Replay(Replay(g, xs), ys)
    decreases |xs|
  {
    if |xs| > 0 {
      assert (xs + ys)[1..] == xs[1..] + ys;
      ReplayAppend(Handle(g, xs[0]), xs[1..], ys);
    } else {
      assert xs + ys == ys;
    }
  }

  /** The current player changes exactly when a click places a piece and the game goes on. */
  lemma PlayerTogglesOnlyOnContinue(g: Game, col: int)
    requires WellFormedGame(g)
    ensures var t := Click(g, col);
      && (t.game.currentPlayer != g.currentPlayer <==> t.outcome.Continued?)
      && (t.outcome.Continued? ==> g.gameActive && t.game.gameActive)
  {
  }

  /** A running game always has a column with room, so a legal move exists. */
  lemma ActiveHasLegalMove(g: Game)
    requires Valid(g) && g.gameActive
    ensures exists col :: 0 <= col < Cols && LowestEmptyRow(g.board, col).Some?
  {
    var col :| 0 <= col < Cols && g.board[0][col] == Empty;
    assert !ColumnFull(g.board, col);
    assert LowestEmptyRow(g.board, col).Some?;
  }

  /** A draw is declared only on a full board. */
  lemma DrawMeansFull(g: Game, col: int)
    requires Valid(g) && g.gameActive && MakeMove(g, col).outcome.Drawn?
    ensures IsFull(MakeMove(g, col).game.board)
  {
    MoveKeepsValid(g, col);
    DrawIsFull(MakeMove(g, col).game.board);
  }
}

