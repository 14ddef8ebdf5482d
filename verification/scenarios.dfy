/** Concrete positions and the moves played on them. */
module Scenarios {
  import opened Wrappers
  import opened Board
  import opened Win
  import opened ConnectFour

  /** The run lengths on both sides of each axis decide `checkWin`, whatever the board. */
  lemma NoAxisWins(b: Grid, p: int, row: int, col: int)
    requires WellFormed(b) && InBounds(row, col)
    requires RunLength(b, p, row, col, 0, 1) + RunLength(b, p, row, col, 0, -1) < WinLength - 1
    requires RunLength(b, p, row, col, 1, 0) + RunLength(b, p, row, col, -1, 0) < WinLength - 1
    requires RunLength(b, p, row, col, 1, 1) + RunLength(b, p, row, col, -1, -1) < WinLength - 1
    requires RunLength(b, p, row, col, 1, -1) + RunLength(b, p, row, col, -1, 1) < WinLength - 1
    ensures WinningAxis(b, p, row, col) == None
  {
    assert AxisCount(b, p, row, col, Horizontal) < WinLength;
    assert AxisCount(b, p, row, col, Vertical) < WinLength;
    assert AxisCount(b, p, row, col, Diagonal) < WinLength;
    assert AxisCount(b, p, row, col, AntiDiagonal) < WinLength;
    forall a: Axis
      ensures AxisCount(b, p, row, col, a) < WinLength
    {
      assert a == Horizontal || a == Vertical || a == Diagonal || a == AntiDiagonal;
    }
  }

  lemma VerticalAxisWins(b: Grid, p: int, row: int, col: int)
    requires WellFormed(b) && InBounds(row, col)
    requires RunLength(b, p, row, col, 0, 1) + RunLength(b, p, row, col, 0, -1) < WinLength - 1
    requires RunLength(b, p, row, col, 1, 0) + RunLength(b, p, row, col, -1, 0) >= WinLength - 1
    ensures WinningAxis(b, p, row, col) == Some(Vertical)
  {
    var w := WinningAxis(b, p, row, col);
    assert AxisCount(b, p, row, col, Horizontal) < WinLength;
    assert AxisCount(b, p, row, col, Vertical) >= WinLength;
    assert w.Some?;
    assert Rank(w.value) <= Rank(Vertical);
    assert w.value != Horizontal;
  }

  lemma VerticalCells(b: Grid, p: int, row: int, col: int)
    requires WellFormed(b) && InBounds(row, col)
    ensures WinningCells(b, p, row, col, Vertical)
      == [(row, col)] + (Ray(row, col, 1, 0, RunLength(b, p, row, col, 1, 0)) + Ray(row, col, -1, 0, RunLength(b, p, row, col, -1, 0)))
  {
  }

  /** A move that lands, completes no line and fills the top row ends the game in a draw. */
  lemma DrawnAt(g: Game, col: int, row: int)
    requires WellFormedGame(g) && g.gameActive && LowestEmptyRow(g.board, col) == Some(row)
    requires WinningAxis(Place(g.board, row, col, g.currentPlayer), g.currentPlayer, row, col) == None
    requires CheckDraw(Place(g.board, row, col, g.currentPlayer))
    ensures Click(g, col) == Turn(Game(Place(g.board, row, col, g.currentPlayer), g.currentPlayer, false), Drawn(row, col))
  {
  }

  /** Player 1 has three pieces in column 3, player 2 three in column 0. */
  const ThreeStacked: Grid := [
    [0, 0, 0, 0, 0, 0, 0],
    [0, 0, 0, 0, 0, 0, 0],
    [0, 0, 0, 0, 0, 0, 0],
    [2, 0, 0, 1, 0, 0, 0],
    [2, 0, 0, 1, 0, 0, 0],
    [2, 0, 0, 1, 0, 0, 0]]

  const FourStacked: Grid := [
    [0, 0, 0, 0, 0, 0, 0],
    [0, 0, 0, 0, 0, 0, 0],
    [0, 0, 0, 1, 0, 0, 0],
    [2, 0, 0, 1, 0, 0, 0],
    [2, 0, 0, 1, 0, 0, 0],
    [2, 0, 0, 1, 0, 0, 0]]

  lemma StackedWellFormed()
    ensures WellFormed(ThreeStacked) && WellFormed(FourStacked)
  {
  }

  lemma StackedPlace()
    ensures WellFormed(ThreeStacked)
    ensures Place(ThreeStacked, 2, 3, 1) == FourStacked
  {
    StackedWellFormed();
    assert ThreeStacked[2][3 := 1] == FourStacked[2];
  }

  lemma FourStackedRuns()
    ensures WellFormed(FourStacked)
    ensures RunLength(FourStacked, 1, 2, 3, 0, 1) == 0 && RunLength(FourStacked, 1, 2, 3, 0, -1) == 0
    ensures RunLength(FourStacked, 1, 2, 3, 1, 0) == 3 && RunLength(FourStacked, 1, 2, 3, -1, 0) == 0
  {
    StackedWellFormed();
    var b := FourStacked;
    assert !Matches(b, 1, 2, 3, 0, 1, 1) && !Matches(b, 1, 2, 3, 0, -1, 1);
    RunLengthIs(b, 1, 2, 3, 0, 1, 0);
    RunLengthIs(b, 1, 2, 3, 0, -1, 0);
    assert Matches(b, 1, 2, 3, 1, 0, 1) && Matches(b, 1, 2, 3, 1, 0, 2) && Matches(b, 1, 2, 3, 1, 0, 3);
    assert !Matches(b, 1, 2, 3, 1, 0, 4);
    RunLengthIs(b, 1, 2, 3, 1, 0, 3);
    assert !Matches(b, 1, 2, 3, -1, 0, 1);
    RunLengthIs(b, 1, 2, 3, -1, 0, 0);
  }

  lemma FourStackedLine()
    ensures WellFormed(FourStacked)
    ensures WinningCells(FourStacked, 1, 2, 3, Vertical) == [(2, 3), (3, 3), (4, 3), (5, 3)]
  {
    FourStackedRuns();
    VerticalCells(FourStacked, 1, 2, 3);
    var ahead := Ray(2, 3, 1, 0, 3);
    assert ahead == [(3, 3), (4, 3), (5, 3)];
    assert Ray(2, 3, -1, 0, 0) == [];
    assert [(2, 3)] + (ahead + []) == [(2, 3), (3, 3), (4, 3), (5, 3)];
  }

  lemma FourStackedWins()
    ensures WellFormed(FourStacked)
    ensures WinningAxis(FourStacked, 1, 2, 3) == Some(Vertical)
    ensures WinningCells(FourStacked, 1, 2, 3, Vertical) == [(2, 3), (3, 3), (4, 3), (5, 3)]
  {
    FourStackedRuns();
    VerticalAxisWins(FourStacked, 1, 2, 3);
    FourStackedLine();
  }

  /** Player 1's fourth piece in column 3 lands on row 2 and wins vertically with rows 2 to 5. */
  lemma VerticalWin()
    ensures WellFormed(ThreeStacked)
    ensures var t := Click(Game(ThreeStacked, 1, true), 3);
      && t.outcome == Won([(2, 3), (3, 3), (4, 3), (5, 3)])
      && t.game == Game(FourStacked, 1, false)
  {
    StackedPlace();
    LowestEmptyRowIs(ThreeStacked, 3, 2);
    FourStackedWins();
  }

  /** Player 1 holds row 5 from column 0 to 2; player 2 holds two cells above. */
  const ThreeInRow: Grid := [
    [0, 0, 0, 0, 0, 0, 0],
    [0, 0, 0, 0, 0, 0, 0],
    [0, 0, 0, 0, 0, 0, 0],
    [0, 0, 0, 0, 0, 0, 0],
    [2, 2, 0, 0, 0, 0, 0],
    [1, 1, 1, 0, 0, 0, 0]]

  const Blocked: Grid := [
    [0, 0, 0, 0, 0, 0, 0],
    [0, 0, 0, 0, 0, 0, 0],
    [0, 0, 0, 0, 0, 0, 0],
    [0, 0, 0, 0, 0, 0, 0],
    [2, 2, 0, 0, 0, 0, 0],
    [1, 1, 1, 2, 0, 0, 0]]

  lemma BlockedPlace()
    ensures WellFormed(ThreeInRow) && WellFormed(Blocked)
    ensures Place(ThreeInRow, 5, 3, 2) == Blocked
  {
    assert ThreeInRow[5][3 := 2] == Blocked[5];
  }

  lemma BlockedRuns()
    ensures WellFormed(Blocked)
    ensures WinningAxis(Blocked, 2, 5, 3) == None
  {
    BlockedPlace();
    var b := Blocked;
    assert !Matches(b, 2, 5, 3, 0, 1, 1) && !Matches(b, 2, 5, 3, 0, -1, 1);
    assert !Matches(b, 2, 5, 3, 1, 0, 1) && !Matches(b, 2, 5, 3, -1, 0, 1);
    assert !Matches(b, 2, 5, 3, 1, 1, 1) && !Matches(b, 2, 5, 3, -1, -1, 1);
    assert !Matches(b, 2, 5, 3, 1, -1, 1) && !Matches(b, 2, 5, 3, -1, 1, 1);
    RunLengthIs(b, 2, 5, 3, 0, 1, 0);
    RunLengthIs(b, 2, 5, 3, 0, -1, 0);
    RunLengthIs(b, 2, 5, 3, 1, 0, 0);
    RunLengthIs(b, 2, 5, 3, -1, 0, 0);
    RunLengthIs(b, 2, 5, 3, 1, 1, 0);
    RunLengthIs(b, 2, 5, 3, -1, -1, 0);
    RunLengthIs(b, 2, 5, 3, 1, -1, 0);
    RunLengthIs(b, 2, 5, 3, -1, 1, 0);
  }

  /**
   Player 2 closes row 5 next to player 1's three pieces: the four occupied
   cells are not all the mover's, so there is no win and the turn passes.
   */
  lemma NoWinForTheWrongMarks()
    ensures WellFormed(ThreeInRow)
    ensures var t := Click(Game(ThreeInRow, 2, true), 3);
      && t.outcome == Continued(5, 3)
      && t.game == Game(Blocked, 1, true)
  {
    BlockedPlace();
    LowestEmptyRowIs(ThreeInRow, 3, 5);
    BlockedRuns();
    assert !CheckDraw(Blocked) by {
      assert Blocked[0][0] == Empty;
    }
  }

  /** A full board with no four in a row anywhere, but for the top cell of column 1. */
  const AlmostFull: Grid := [
    [1, 0, 1, 2, 1, 2, 1],
    [2, 1, 2, 1, 2, 1, 2],
    [2, 1, 2, 1, 2, 1, 2],
    [1, 2, 1, 2, 1, 2, 1],
    [1, 2, 1, 2, 1, 2, 1],
    [2, 1, 2, 1, 2, 1, 2]]

  const Full: Grid := [
    [1, 2, 1, 2, 1, 2, 1],
    [2, 1, 2, 1, 2, 1, 2],
    [2, 1, 2, 1, 2, 1, 2],
    [1, 2, 1, 2, 1, 2, 1],
    [1, 2, 1, 2, 1, 2, 1],
    [2, 1, 2, 1, 2, 1, 2]]

  lemma FullPlace()
    ensures WellFormed(AlmostFull) && WellFormed(Full)
    ensures Place(AlmostFull, 0, 1, 2) == Full
    ensures CheckDraw(Full)
  {
    assert AlmostFull[0][1 := 2] == Full[0];
  }

  lemma FullRunsHorizontal()
    ensures WellFormed(Full)
    ensures RunLength(Full, 2, 0, 1, 0, 1) == 0 && RunLength(Full, 2, 0, 1, 0, -1) == 0
  {
    FullPlace();
    assert !Matches(Full, 2, 0, 1, 0, 1, 1) && !Matches(Full, 2, 0, 1, 0, -1, 1);
    RunLengthIs(Full, 2, 0, 1, 0, 1, 0);
    RunLengthIs(Full, 2, 0, 1, 0, -1, 0);
  }

  lemma FullRunsVertical()
    ensures WellFormed(Full)
    ensures RunLength(Full, 2, 0, 1, 1, 0) == 0 && RunLength(Full, 2, 0, 1, -1, 0) == 0
  {
    FullPlace();
    assert !Matches(Full, 2, 0, 1, 1, 0, 1) && !Matches(Full, 2, 0, 1, -1, 0, 1);
    RunLengthIs(Full, 2, 0, 1, 1, 0, 0);
    RunLengthIs(Full, 2, 0, 1, -1, 0, 0);
  }

  lemma FullRunsDiagonal()
    ensures WellFormed(Full)
    ensures RunLength(Full, 2, 0, 1, 1, 1) == 1 && RunLength(Full, 2, 0, 1, -1, -1) == 0
    ensures RunLength(Full, 2, 0, 1, 1, -1) == 1 && RunLength(Full, 2, 0, 1, -1, 1) == 0
  {
    FullPlace();
    var b := Full;
    assert Matches(b, 2, 0, 1, 1, 1, 1) && !Matches(b, 2, 0, 1, 1, 1, 2);
    assert !Matches(b, 2, 0, 1, -1, -1, 1);
    assert Matches(b, 2, 0, 1, 1, -1, 1) && !Matches(b, 2, 0, 1, 1, -1, 2);
    assert !Matches(b, 2, 0, 1, -1, 1, 1);
    RunLengthIs(b, 2, 0, 1, 1, 1, 1);
    RunLengthIs(b, 2, 0, 1, -1, -1, 0);
    RunLengthIs(b, 2, 0, 1, 1, -1, 1);
    RunLengthIs(b, 2, 0, 1, -1, 1, 0);
  }

  /** Placing the last piece completes no line of player 2's: no axis counts four. */
  lemma FullRuns()
    ensures WellFormed(Full)
    ensures WinningAxis(Full, 2, 0, 1) == None
  {
    FullRunsHorizontal();
    FullRunsVertical();
    FullRunsDiagonal();
    NoAxisWins(Full, 2, 0, 1);
  }

  lemma DrawMove()
    ensures WellFormed(AlmostFull)
    ensures Click(Game(AlmostFull, 2, true), 1) == Turn(Game(Full, 2, false), Drawn(0, 1))
  {
    FullPlace();
    LowestEmptyRowIs(AlmostFull, 1, 0);
    FullRuns();
    DrawnAt(Game(AlmostFull, 2, true), 1, 0);
  }

  /**
   Player 2 fills the last cell without completing a line: the game ends in
   a draw, and every later click is ignored.
   */
  lemma DrawThenIgnored()
    ensures WellFormed(AlmostFull)
    ensures var t := Click(Game(AlmostFull, 2, true), 1);
      && t.outcome == Drawn(0, 1)
      && t.game == Game(Full, 2, false)
      && forall col :: Click(t.game, col) == Turn(t.game, Ignored)
  {
    DrawMove();
  }
}

