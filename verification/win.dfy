/**
 Four-in-a-row detection of static/js/game.js: `countDirection`, `checkWin`
 and the list of cells built by `highlightWinningCells`.
 */
module Win {
  import opened Wrappers
  import opened Board

  /** The number of aligned marks that wins. */
  const WinLength: int := 4

  /** A board coordinate, `[row, col]` in the source. */
  type Pos = (int, int)

  predicate IsUnit(d: int) {
    -1 <= d <= 1
  }

  /** The deltas `countDirection` is called with: unit steps, not both zero. */
  predicate IsDirection(dr: int, dc: int) {
    IsUnit(dr) && IsUnit(dc) && (dr != 0 || dc != 0)
  }

  /** The coordinate reached from x after k steps of the unit delta d; a negative k steps the opposite way. */
  function Along(x: int, d: int, k: int): int
    requires IsUnit(d)
  {
    if d == 0 then x else if d > 0 then x + k else x - k
  }

  /** The cell k steps from (row, col) along (dr, dc) is on the board and holds p. */
  predicate Matches(b: Grid, p: int, row: int, col: int, dr: int, dc: int, k: int)
    requires WellFormed(b) && IsUnit(dr) && IsUnit(dc)
  {
    InBounds(Along(row, dr, k), Along(col, dc, k)) && b[Along(row, dr, k)][Along(col, dc, k)] == p
  }

  /** n is the length of the maximal run of p's marks starting one step from (row, col). */
  predicate IsRun(b: Grid, p: int, row: int, col: int, dr: int, dc: int, n: nat)
    requires WellFormed(b) && IsUnit(dr) && IsUnit(dc)
  {
    && (forall k :: 1 <= k <= n ==> Matches(b, p, row, col, dr, dc, k))
    && !Matches(b, p, row, col, dr, dc, n + 1)
  }

  /** A matching cell lies on the board, so it is fewer steps away than the board is long. */
  lemma MatchIsClose(b: Grid, p: int, row: int, col: int, dr: int, dc: int, k: int)
    requires WellFormed(b) && InBounds(row, col) && IsDirection(dr, dc) && k >= 0
    requires Matches(b, p, row, col, dr, dc, k)
    ensures dr != 0 ==> k <= Rows - 1
    ensures dc != 0 ==> k <= Cols - 1
  {
  }

  /** At most one length is a maximal run. */
  lemma RunIsUnique(b: Grid, p: int, row: int, col: int, dr: int, dc: int, n: nat, m: nat)
    requires WellFormed(b) && IsUnit(dr) && IsUnit(dc)
    requires IsRun(b, p, row, col, dr, dc, n) && IsRun(b, p, row, col, dr, dc, m)
    ensures n == m
  {
  }

  /** The walk of `countDirection` from step k on, steps 1 .. k - 1 already matched. */
  function RunFrom(b: Grid, p: int, row: int, col: int, dr: int, dc: int, k: int): (n: nat)
    requires WellFormed(b) && InBounds(row, col) && IsDirection(dr, dc)
    requires 1 <= k <= Cols
    requires forall j :: 1 <= j < k ==> Matches(b, p, row, col, dr, dc, j)
    ensures k - 1 <= n
    ensures IsRun(b, p, row, col, dr, dc, n)
    decreases Cols - k
  {
    if Matches(b, p, row, col, dr, dc, k) then
      MatchIsClose(b, p, row, col, dr, dc, k);
      RunFrom(b, p, row, col, dr, dc, k + 1)
    else
      k - 1
  }

  /** The value `countDirection(row, col, dr, dc)` returns when p is the current player. */
  function RunLength(b: Grid, p: int, row: int, col: int, dr: int, dc: int): (n: nat)
    requires WellFormed(b) && InBounds(row, col) && IsDirection(dr, dc)
    ensures IsRun(b, p, row, col, dr, dc, n)
    ensures dr != 0 ==> n <= Rows - 1
    ensures dc != 0 ==> n <= Cols - 1
  {
    var n := RunFrom(b, p, row, col, dr, dc, 1);
    if n == 0 then n
    else
      MatchIsClose(b, p, row, col, dr, dc, n);
      n
  }

  /** The run length is the one maximal run. */
  lemma RunLengthIs(b: Grid, p: int, row: int, col: int, dr: int, dc: int, n: nat)
    requires WellFormed(b) && InBounds(row, col) && IsDirection(dr, dc)
    requires IsRun(b, p, row, col, dr, dc, n)
    ensures RunLength(b, p, row, col, dr, dc) == n
  {
    RunIsUnique(b, p, row, col, dr, dc, n, RunLength(b, p, row, col, dr, dc));
  }

  /** `countDirection`, with its loop: the length of the run of p's marks stepping away from (row, col). */
  method CountDirection(b: Grid, p: int, row: int, col: int, deltaRow: int, deltaCol: int) returns (count: nat)
    requires WellFormed(b) && InBounds(row, col) && IsDirection(deltaRow, deltaCol)
    ensures IsRun(b, p, row, col, deltaRow, deltaCol, count)
    ensures count == RunLength(b, p, row, col, deltaRow, deltaCol)
    ensures deltaRow != 0 ==> count <= Rows - 1
    ensures deltaCol != 0 ==> count <= Cols - 1
  {
    count := 0;
    var currentRow := row + deltaRow;
    var currentCol := col + deltaCol;
    while InBounds(currentRow, currentCol) && b[currentRow][currentCol] == p
      invariant currentRow == Along(row, deltaRow, count + 1)
      invariant currentCol == Along(col, deltaCol, count + 1)
      invariant forall k :: 1 <= k <= count ==> Matches(b, p, row, col, deltaRow, deltaCol, k)
      invariant deltaRow != 0 ==> count <= Rows - 1
      invariant deltaCol != 0 ==> count <= Cols - 1
      decreases Cols - count
    {
      MatchIsClose(b, p, row, col, deltaRow, deltaCol, count + 1);
      count := count + 1;
      currentRow := currentRow + deltaRow;
      currentCol := currentCol + deltaCol;
    }
    RunIsUnique(b, p, row, col, deltaRow, deltaCol, count, RunLength(b, p, row, col, deltaRow, deltaCol));
  }

  /** The four axes of `checkWin`, in the order it tries them. */
  datatype Axis = Horizontal | Vertical | Diagonal | AntiDiagonal

  /** The first delta of each axis pair; the second is its negation. */
  function AxisRow(a: Axis): int {
    match a
    case Horizontal => 0
    case Vertical => 1
    case Diagonal => 1
    case AntiDiagonal => 1
  }

  function AxisCol(a: Axis): int {
    match a
    case Horizontal => 1
    case Vertical => 0
    case Diagonal => 1
    case AntiDiagonal => -1
  }

  /** `checkWin`'s list of axes, in the order it tries them. */
  const Axes: seq<Axis> := [Horizontal, Vertical, Diagonal, AntiDiagonal]

  /** The position of each axis in `checkWin`'s list. */
  function Rank(a: Axis): (i: nat)
    ensures i < |Axes| && Axes[i] == a
  {
    match a
    case Horizontal => 0
    case Vertical => 1
    case Diagonal => 2
    case AntiDiagonal => 3
  }

  lemma RankOfAxes(i: int)
    requires 0 <= i < |Axes|
    ensures Rank(Axes[i]) == i
  {
  }

  /** `count` in `checkWin`: the placed cell plus the runs in both directions of the axis. */
  function AxisCount(b: Grid, p: int, row: int, col: int, a: Axis): nat
    requires WellFormed(b) && InBounds(row, col)
  {
    1 + RunLength(b, p, row, col, AxisRow(a), AxisCol(a)) + RunLength(b, p, row, col, -AxisRow(a), -AxisCol(a))
  }

  /** `checkWin`'s loop from the i-th axis on: the first axis whose count reaches WinLength. */
  function FirstWinning(b: Grid, p: int, row: int, col: int, i: nat): (w: Option<Axis>)
    requires WellFormed(b) && InBounds(row, col) && i <= |Axes|
    ensures w.Some? ==> AxisCount(b, p, row, col, w.value) >= WinLength && i <= Rank(w.value)
    ensures w.Some? ==> forall j :: i <= j < Rank(w.value) ==> AxisCount(b, p, row, col, Axes[j]) < WinLength
    ensures w.None? <==> forall j :: i <= j < |Axes| ==> AxisCount(b, p, row, col, Axes[j]) < WinLength
    decreases |Axes| - i
  {
    if i == |Axes| then None
    else if AxisCount(b, p, row, col, Axes[i]) >= WinLength then
      RankOfAxes(i);
      Some(Axes[i])
    else
      FirstWinning(b, p, row, col, i + 1)
  }

  /** The axis on which `checkWin` stops: the first, in list order, whose count reaches WinLength. */
  function WinningAxis(b: Grid, p: int, row: int, col: int): (w: Option<Axis>)
    requires WellFormed(b) && InBounds(row, col)
    ensures w.Some? ==> AxisCount(b, p, row, col, w.value) >= WinLength
    ensures w.Some? ==> forall a :: Rank(a) < Rank(w.value) ==> AxisCount(b, p, row, col, a) < WinLength
    ensures w.None? <==> forall a :: AxisCount(b, p, row, col, a) < WinLength
  {
    var w := FirstWinning(b, p, row, col, 0);
    assert forall a :: Axes[Rank(a)] == a;
    w
  }

  /** `checkWin(row, col)` for the current player p. */
  predicate CheckWin(b: Grid, p: int, row: int, col: int)
    requires WellFormed(b) && InBounds(row, col)
  {
    WinningAxis(b, p, row, col).Some?
  }

  /** The axis a line on axis a lies on once the board is mirrored: the two diagonals trade places. */
  function MirrorAxis(a: Axis): (m: Axis)
    ensures AxisRow(m) == AxisRow(a)
    ensures AxisCol(m) == if a.Horizontal? then AxisCol(a) else -AxisCol(a)
  {
    match a
    case Diagonal => AntiDiagonal
    case AntiDiagonal => Diagonal
    case _ => a
  }

  /** A cell k steps from (row, col) in the mirrored board is the mirror of the cell k steps the mirrored way. */
  lemma MirrorMatches(b: Grid, p: int, row: int, col: int, dr: int, dc: int, k: int)
    requires WellFormed(b) && InBounds(row, col) && IsUnit(dr) && IsUnit(dc)
    ensures Matches(Mirror(b), p, row, Cols - 1 - col, dr, -dc, k) == Matches(b, p, row, col, dr, dc, k)
  {
    assert Along(Cols - 1 - col, -dc, k) == Cols - 1 - Along(col, dc, k);
  }

  /** A maximal run on the board is a maximal run of the same length on the mirrored board, along the mirrored delta. */
  lemma MirrorIsRun(b: Grid, p: int, row: int, col: int, dr: int, dc: int, n: nat)
    requires WellFormed(b) && InBounds(row, col) && IsUnit(dr) && IsUnit(dc)
    requires IsRun(b, p, row, col, dr, dc, n)
    ensures IsRun(Mirror(b), p, row, Cols - 1 - col, dr, -dc, n)
  {
    var m, mc, mdc := Mirror(b), Cols - 1 - col, -dc;
    forall k | 1 <= k <= n
      ensures Matches(m, p, row, mc, dr, mdc, k)
    {
      MirrorMatches(b, p, row, col, dr, dc, k);
    }
    MirrorMatches(b, p, row, col, dr, dc, n + 1);
  }

  /** `countDirection` gives the same run on the mirrored board along the mirrored delta. */
  lemma MirrorRun(b: Grid, p: int, row: int, col: int, dr: int, dc: int)
    requires WellFormed(b) && InBounds(row, col) && IsDirection(dr, dc)
    ensures RunLength(Mirror(b), p, row, Cols - 1 - col, dr, -dc) == RunLength(b, p, row, col, dr, dc)
  {
    var n := RunLength(b, p, row, col, dr, dc);
    MirrorIsRun(b, p, row, col, dr, dc, n);
    RunLengthIs(Mirror(b), p, row, Cols - 1 - col, dr, -dc, n);
  }

  lemma MirrorAxisCount(b: Grid, p: int, row: int, col: int, a: Axis)
    requires WellFormed(b) && InBounds(row, col)
    ensures AxisCount(Mirror(b), p, row, Cols - 1 - col, MirrorAxis(a)) == AxisCount(b, p, row, col, a)
  {
    var dr, dc := AxisRow(a), AxisCol(a);
    MirrorRun(b, p, row, col, dr, dc);
    MirrorRun(b, p, row, col, -dr, -dc);
  }

  /** `checkWin` finds a win on the mirrored board at the mirrored cell exactly when it finds one on the board. */
  lemma CheckWinMirror(b: Grid, p: int, row: int, col: int)
    requires WellFormed(b) && InBounds(row, col)
    ensures CheckWin(Mirror(b), p, row, Cols - 1 - col) <==> CheckWin(b, p, row, col)
  {
    forall a
      ensures AxisCount(Mirror(b), p, row, Cols - 1 - col, MirrorAxis(a)) == AxisCount(b, p, row, col, a)
    {
      MirrorAxisCount(b, p, row, col, a);
    }
    forall a
      ensures MirrorAxis(MirrorAxis(a)) == a
    {
    }
  }

  /** The cell k steps from (row, col) along axis a, k < 0 walking the second direction. */
  function AxisPos(row: int, col: int, a: Axis, k: int): Pos {
    PosAlong(row, col, AxisRow(a), AxisCol(a), k)
  }

  /** WinLength consecutive cells along (dr, dc), from s steps on, all hold p. */
  predicate Window(b: Grid, p: int, row: int, col: int, dr: int, dc: int, s: int)
    requires WellFormed(b) && IsUnit(dr) && IsUnit(dc)
  {
    forall k :: s <= k < s + WinLength ==> Matches(b, p, row, col, dr, dc, k)
  }

  /** Some WinLength contiguous cells through (row, col) along (dr, dc) all hold p. */
  predicate FourThroughAlong(b: Grid, p: int, row: int, col: int, dr: int, dc: int)
    requires WellFormed(b) && IsUnit(dr) && IsUnit(dc)
  {
    exists s :: -(WinLength - 1) <= s <= 0 && Window(b, p, row, col, dr, dc, s)
  }

  /** Some WinLength contiguous cells through (row, col) on axis a all hold p. */
  predicate FourThroughOn(b: Grid, p: int, row: int, col: int, a: Axis)
    requires WellFormed(b)
  {
    FourThroughAlong(b, p, row, col, AxisRow(a), AxisCol(a))
  }

  /** Stepping k along the negated deltas is stepping -k along the deltas. */
  lemma OppositeMatches(b: Grid, p: int, row: int, col: int, dr: int, dc: int, k: int)
    requires WellFormed(b) && IsUnit(dr) && IsUnit(dc)
    ensures Matches(b, p, row, col, -dr, -dc, k) == Matches(b, p, row, col, dr, dc, -k)
  {
    assert Along(row, -dr, k) == Along(row, dr, -k);
    assert Along(col, -dc, k) == Along(col, dc, -k);
  }

  /** The cells from -back to forth steps all hold p, when the runs either way are forth and back long. */
  lemma SpanMatches(b: Grid, p: int, row: int, col: int, dr: int, dc: int, forth: nat, back: nat)
    requires WellFormed(b) && InBounds(row, col) && b[row][col] == p && IsUnit(dr) && IsUnit(dc)
    requires IsRun(b, p, row, col, dr, dc, forth) && IsRun(b, p, row, col, -dr, -dc, back)
    ensures forall k :: -(back as int) <= k <= forth ==> Matches(b, p, row, col, dr, dc, k)
    ensures !Matches(b, p, row, col, dr, dc, forth + 1)
    ensures !Matches(b, p, row, col, dr, dc, -(back + 1))
  {
    forall k | -(back as int) <= k <= forth
      ensures Matches(b, p, row, col, dr, dc, k)
    {
      if k < 0 {
        OppositeMatches(b, p, row, col, dr, dc, -k);
      }
    }
    OppositeMatches(b, p, row, col, dr, dc, back + 1);
  }

  /** Runs forth and back long either way give WinLength aligned marks through (row, col) exactly when they total WinLength. */
  lemma SpanIsWindow(b: Grid, p: int, row: int, col: int, dr: int, dc: int, forth: nat, back: nat)
    requires WellFormed(b) && InBounds(row, col) && b[row][col] == p && IsUnit(dr) && IsUnit(dc)
    requires IsRun(b, p, row, col, dr, dc, forth) && IsRun(b, p, row, col, -dr, -dc, back)
    ensures 1 + forth + back >= WinLength <==> FourThroughAlong(b, p, row, col, dr, dc)
  {
    SpanMatches(b, p, row, col, dr, dc, forth, back);
    if 1 + forth + back >= WinLength {
      var s: int := if back >= WinLength - 1 then -(WinLength - 1) else -(back as int);
      assert Window(b, p, row, col, dr, dc, s);
    }
    if FourThroughAlong(b, p, row, col, dr, dc) {
      // The first cell past either run is outside every window of marks.
      var s :| -(WinLength - 1) <= s <= 0 && Window(b, p, row, col, dr, dc, s);
      assert !(s <= forth + 1 < s + WinLength);
      assert !(s <= -(back + 1) < s + WinLength);
    }
  }

  /** The axis count reaches WinLength exactly when WinLength aligned marks pass through the placed cell. */
  lemma AxisCountIsWindow(b: Grid, p: int, row: int, col: int, a: Axis)
    requires WellFormed(b) && InBounds(row, col) && b[row][col] == p
    ensures AxisCount(b, p, row, col, a) >= WinLength <==> FourThroughOn(b, p, row, col, a)
  {
    var dr, dc := AxisRow(a), AxisCol(a);
    SpanIsWindow(b, p, row, col, dr, dc, RunLength(b, p, row, col, dr, dc), RunLength(b, p, row, col, -dr, -dc));
  }

  /** Four in a row through the placed cell on any axis. */
  predicate FourThrough(b: Grid, p: int, row: int, col: int)
    requires WellFormed(b)
  {
    exists a :: FourThroughOn(b, p, row, col, a)
  }

  /** `checkWin` is true exactly when WinLength contiguous marks of p pass through the placed cell on one axis. */
  lemma CheckWinIsFourInARow(b: Grid, p: int, row: int, col: int)
    requires WellFormed(b) && InBounds(row, col) && b[row][col] == p
    ensures CheckWin(b, p, row, col) <==> FourThrough(b, p, row, col)
  {
    forall a
      ensures AxisCount(b, p, row, col, a) >= WinLength <==> FourThroughOn(b, p, row, col, a)
    {
      AxisCountIsWindow(b, p, row, col, a);
    }
  }

  /** The cells 1 .. n steps from (row, col) along (dr, dc), nearest first. */
  function Ray(row: int, col: int, dr: int, dc: int, n: nat): (cells: seq<Pos>)
    requires IsUnit(dr) && IsUnit(dc)
    ensures |cells| == n
    ensures forall i :: 0 <= i < n ==> cells[i] == (Along(row, dr, i + 1), Along(col, dc, i + 1))
  {
    seq(n, i => (Along(row, dr, i + 1), Along(col, dc, i + 1)))
  }

  /** Every listed cell is on the board and holds p. */
  predicate AllHold(b: Grid, p: int, cells: seq<Pos>)
    requires WellFormed(b)
  {
    forall i :: 0 <= i < |cells| ==> InBounds(cells[i].0, cells[i].1) && b[cells[i].0][cells[i].1] == p
  }

  lemma RayHolds(b: Grid, p: int, row: int, col: int, dr: int, dc: int, n: nat)
    requires WellFormed(b) && IsUnit(dr) && IsUnit(dc)
    requires forall k :: 1 <= k <= n ==> Matches(b, p, row, col, dr, dc, k)
    ensures AllHold(b, p, Ray(row, col, dr, dc, n))
  {
    var ray := Ray(row, col, dr, dc, n);
    forall i | 0 <= i < n
      ensures InBounds(ray[i].0, ray[i].1) && b[ray[i].0][ray[i].1] == p
    {
      assert Matches(b, p, row, col, dr, dc, i + 1);
    }
  }

  lemma AllHoldConcat(b: Grid, p: int, xs: seq<Pos>, ys: seq<Pos>)
    requires WellFormed(b) && AllHold(b, p, xs) && AllHold(b, p, ys)
    ensures AllHold(b, p, xs + ys)
  {
    forall i | 0 <= i < |xs + ys|
      ensures InBounds((xs + ys)[i].0, (xs + ys)[i].1) && b[(xs + ys)[i].0][(xs + ys)[i].1] == p
    {
      if i >= |xs| {
        assert (xs + ys)[i] == ys[i - |xs|];
      }
    }
  }

  /** The run of forth cells along (dr, dc), then the run of back cells along (er, ec). */
  function Runs(b: Grid, p: int, row: int, col: int, dr: int, dc: int, forth: nat, er: int, ec: int, back: nat): (cells: seq<Pos>)
    requires WellFormed(b) && IsUnit(dr) && IsUnit(dc) && IsUnit(er) && IsUnit(ec)
    requires forall k :: 1 <= k <= forth ==> Matches(b, p, row, col, dr, dc, k)
    requires forall k :: 1 <= k <= back ==> Matches(b, p, row, col, er, ec, k)
    ensures |cells| == forth + back
    ensures AllHold(b, p, cells)
  {
    RayHolds(b, p, row, col, dr, dc, forth);
    RayHolds(b, p, row, col, er, ec, back);
    AllHoldConcat(b, p, Ray(row, col, dr, dc, forth), Ray(row, col, er, ec, back));
    Ray(row, col, dr, dc, forth) + Ray(row, col, er, ec, back)
  }

  /** A list holds when its head and its tail do. */
  lemma AllHoldCons(b: Grid, p: int, cells: seq<Pos>)
    requires WellFormed(b) && |cells| > 0 && AllHold(b, p, cells[1..])
    requires InBounds(cells[0].0, cells[0].1) && b[cells[0].0][cells[0].1] == p
    ensures AllHold(b, p, cells)
  {
    assert cells == [cells[0]] + cells[1..];
    AllHoldConcat(b, p, [cells[0]], cells[1..]);
  }

  /** The placed cell, then the run along (dr, dc), then the run along (-dr, -dc). */
  function Line(b: Grid, p: int, row: int, col: int, dr: int, dc: int): (cells: seq<Pos>)
    requires WellFormed(b) && InBounds(row, col) && IsDirection(dr, dc)
    ensures |cells| == 1 + RunLength(b, p, row, col, dr, dc) + RunLength(b, p, row, col, -dr, -dc)
    ensures cells[0] == (row, col)
    ensures AllHold(b, p, cells[1..])
  {
    var rest := Runs(b, p, row, col, dr, dc, RunLength(b, p, row, col, dr, dc), -dr, -dc, RunLength(b, p, row, col, -dr, -dc));
    assert ([(row, col)] + rest)[1..] == rest;
    [(row, col)] + rest
  }

  /**
   The `winningCells` list of `highlightWinningCells` for axis a: the placed
   cell, then the run along the first delta, then the run along the second.
   */
  function WinningCells(b: Grid, p: int, row: int, col: int, a: Axis): (cells: seq<Pos>)
    requires WellFormed(b) && InBounds(row, col)
    ensures |cells| == AxisCount(b, p, row, col, a)
    ensures cells[0] == (row, col)
    ensures AllHold(b, p, cells[1..])
    ensures b[row][col] == p ==> AllHold(b, p, cells)
  {
    var cells := Line(b, p, row, col, AxisRow(a), AxisCol(a));
    if b[row][col] == p then
      AllHoldCons(b, p, cells);
      cells
    else
      cells
  }

  /** The cell k steps from (row, col) along (dr, dc). */
  function PosAlong(row: int, col: int, dr: int, dc: int, k: int): Pos
    requires IsUnit(dr) && IsUnit(dc)
  {
    (Along(row, dr, k), Along(col, dc, k))
  }

  /** Every cell from (row, col) up to k steps along (dr, dc), the start excluded, holds p. */
  predicate ReachesAlong(b: Grid, p: int, row: int, col: int, dr: int, dc: int, k: int)
    requires WellFormed(b) && IsUnit(dr) && IsUnit(dc)
  {
    && (forall j :: 0 < j <= k ==> Matches(b, p, row, col, dr, dc, j))
    && (forall j :: k <= j < 0 ==> Matches(b, p, row, col, dr, dc, j))
  }

  /** Every cell from (row, col) up to k steps along axis a, the placed cell excluded, holds p. */
  predicate Reaches(b: Grid, p: int, row: int, col: int, a: Axis, k: int)
    requires WellFormed(b)
  {
    ReachesAlong(b, p, row, col, AxisRow(a), AxisCol(a), k)
  }

  /** The step count of the i-th cell of a Line whose first run is forth long. */
  function StepOf(i: int, forth: int): int {
    if i <= forth then i else forth - i
  }

  /** The i-th cell of a Line is StepOf(i) steps along (dr, dc), and p's marks reach it. */
  lemma LineIndex(b: Grid, p: int, row: int, col: int, dr: int, dc: int, i: int)
    requires WellFormed(b) && InBounds(row, col) && IsDirection(dr, dc)
    requires 0 <= i < |Line(b, p, row, col, dr, dc)|
    ensures Line(b, p, row, col, dr, dc)[i] == PosAlong(row, col, dr, dc, StepOf(i, RunLength(b, p, row, col, dr, dc)))
    ensures ReachesAlong(b, p, row, col, dr, dc, StepOf(i, RunLength(b, p, row, col, dr, dc)))
  {
    var forth := RunLength(b, p, row, col, dr, dc);
    var back := RunLength(b, p, row, col, -dr, -dc);
    var ahead := Ray(row, col, dr, dc, forth);
    var behind := Ray(row, col, -dr, -dc, back);
    assert Line(b, p, row, col, dr, dc) == [(row, col)] + (ahead + behind);
    if 0 < i <= forth {
      assert Line(b, p, row, col, dr, dc)[i] == ahead[i - 1];
    } else if i > forth {
      assert Line(b, p, row, col, dr, dc)[i] == behind[i - 1 - forth];
      assert Along(row, -dr, i - forth) == Along(row, dr, forth - i);
      assert Along(col, -dc, i - forth) == Along(col, dc, forth - i);
      forall j | forth - i <= j < 0
        ensures Matches(b, p, row, col, dr, dc, j)
      {
        OppositeMatches(b, p, row, col, dr, dc, -j);
      }
    }
  }

  /** Every cell p's marks reach from (row, col) along (dr, dc) is in the Line. */
  lemma LineCovers(b: Grid, p: int, row: int, col: int, dr: int, dc: int, k: int)
    requires WellFormed(b) && InBounds(row, col) && IsDirection(dr, dc)
    requires ReachesAlong(b, p, row, col, dr, dc, k)
    ensures PosAlong(row, col, dr, dc, k) in Line(b, p, row, col, dr, dc)
  {
    var forth := RunLength(b, p, row, col, dr, dc);
    var back := RunLength(b, p, row, col, -dr, -dc);
    var line := Line(b, p, row, col, dr, dc);
    if k > 0 {
      assert !(0 < forth + 1 <= k);
      LineIndex(b, p, row, col, dr, dc, k);
      assert line[k] == PosAlong(row, col, dr, dc, k);
    } else if k < 0 {
      OppositeMatches(b, p, row, col, dr, dc, back + 1);
      assert !(k <= -(back as int + 1) < 0);
      LineIndex(b, p, row, col, dr, dc, forth - k);
      assert line[forth - k] == PosAlong(row, col, dr, dc, k);
    } else {
      LineIndex(b, p, row, col, dr, dc, 0);
      assert line[0] == PosAlong(row, col, dr, dc, k);
    }
  }

  /** The Line is exactly the contiguous run of p's marks through (row, col) along (dr, dc). */
  lemma LineIsTheRun(b: Grid, p: int, row: int, col: int, dr: int, dc: int)
    requires WellFormed(b) && InBounds(row, col) && IsDirection(dr, dc)
    ensures forall k :: PosAlong(row, col, dr, dc, k) in Line(b, p, row, col, dr, dc) <==> ReachesAlong(b, p, row, col, dr, dc, k)
  {
    var line := Line(b, p, row, col, dr, dc);
    forall k
      ensures PosAlong(row, col, dr, dc, k) in line <==> ReachesAlong(b, p, row, col, dr, dc, k)
    {
      if PosAlong(row, col, dr, dc, k) in line {
        var i :| 0 <= i < |line| && line[i] == PosAlong(row, col, dr, dc, k);
        LineIndex(b, p, row, col, dr, dc, i);
      }
      if ReachesAlong(b, p, row, col, dr, dc, k) {
        LineCovers(b, p, row, col, dr, dc, k);
      }
    }
  }

  /** The winning line is exactly the contiguous run of p's marks through (row, col) along axis a. */
  lemma WinningCellsAreTheRun(b: Grid, p: int, row: int, col: int, a: Axis)
    requires WellFormed(b) && InBounds(row, col)
    ensures forall k :: AxisPos(row, col, a, k) in WinningCells(b, p, row, col, a) <==> Reaches(b, p, row, col, a, k)
  {
    LineIsTheRun(b, p, row, col, AxisRow(a), AxisCol(a));
  }
}
