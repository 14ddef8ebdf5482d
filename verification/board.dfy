/**
 The Connect Four grid of static/js/game.js: a fixed 6x7 board whose cells
 hold 0 (empty), 1 or 2 (the player owning the piece). Row 0 is the top row;
 pieces fall toward row Rows - 1.
 */
module Board {
  import opened Wrappers

  const Rows: int := 6
  const Cols: int := 7

  /** The mark of an empty cell. */
  const Empty: int := 0

  /** A board is a sequence of rows, each a sequence of cell marks. */
  type Grid = seq<seq<int>>

  predicate IsPlayer(p: int) {
    p == 1 || p == 2
  }

  predicate IsMark(v: int) {
    v == Empty || IsPlayer(v)
  }

  /** The player whose turn follows p's (`currentPlayer === 1 ? 2 : 1`). */
  function Other(p: int): (q: int)
    requires IsPlayer(p)
    ensures IsPlayer(q) && q != p
  {
    if p == 1 then 2 else 1
  }

  predicate InBounds(row: int, col: int) {
    0 <= row < Rows && 0 <= col < Cols
  }

  /** Exactly Rows rows of exactly Cols cells, each empty or a player's mark. */
  predicate WellFormed(b: Grid) {
    && |b| == Rows
    && (forall r :: 0 <= r < Rows ==> |b[r]| == Cols)
    && (forall r, c :: 0 <= r < Rows && 0 <= c < Cols ==> IsMark(b[r][c]))
  }

  /** The all-empty board built by the constructor and by `resetGame`. */
  function EmptyBoard(): (b: Grid)
    ensures WellFormed(b)
    ensures forall r, c :: InBounds(r, c) ==> b[r][c] == Empty
  {
    seq(Rows, _ => seq(Cols, _ => Empty))
  }

  /** `board[row][col] = p`. */
  function Place(b: Grid, row: int, col: int, p: int): (b': Grid)
    requires WellFormed(b) && InBounds(row, col) && IsMark(p)
    ensures WellFormed(b')
    ensures b'[row][col] == p
    ensures forall r, c :: InBounds(r, c) && (r != row || c != col) ==> b'[r][c] == b[r][c]
  {
    b[row := b[row][col := p]]
  }

  predicate ColumnFull(b: Grid, col: int)
    requires WellFormed(b) && 0 <= col < Cols
  {
    forall r :: 0 <= r < Rows ==> b[r][col] != Empty
  }

  /** Every cell is occupied. */
  predicate IsFull(b: Grid)
    requires WellFormed(b)
  {
    forall r, c :: 0 <= r < Rows && 0 <= c < Cols ==> b[r][c] != Empty
  }

  /** The gravity invariant: an occupied cell has only occupied cells below it. */
  predicate Gravity(b: Grid)
    requires WellFormed(b)
  {
    forall r, r', c :: 0 <= r < r' < Rows && 0 <= c < Cols && b[r][c] != Empty ==> b[r'][c] != Empty
  }

  /**
   `getLowestEmptyRow(col)`: the largest row whose cell in column col is
   empty, or None when the column is full. A column outside the board reads
   as full, since the source's `board[row][col]` is then undefined, never 0.
   */
  function LowestEmptyRow(b: Grid, col: int): (r: Option<int>)
    requires WellFormed(b)
    ensures r.Some? ==> 0 <= col < Cols && 0 <= r.value < Rows && b[r.value][col] == Empty
    ensures r.Some? ==> forall below :: r.value < below < Rows ==> b[below][col] != Empty
    ensures r.None? <==> !(0 <= col < Cols) || ColumnFull(b, col)
  {
    if 0 <= col < Cols then LowestEmptyFrom(b, col, Rows - 1) else None
  }

  /** The converse of `LowestEmptyRow`'s contract: an empty cell with every cell below it occupied is where the column's next piece lands. */
  lemma LowestEmptyRowIs(b: Grid, col: int, row: int)
    requires WellFormed(b) && InBounds(row, col) && b[row][col] == Empty
    requires forall below :: row < below < Rows ==> b[below][col] != Empty
    ensures LowestEmptyRow(b, col) == Some(row)
  {
    var r := LowestEmptyRow(b, col);
    assert r.Some? by {
      assert !ColumnFull(b, col);
    }
    assert !(r.value < row);
  }

  /** The scan of `getLowestEmptyRow` from row upward, every row below row already found occupied. */
  function LowestEmptyFrom(b: Grid, col: int, row: int): (r: Option<int>)
    requires WellFormed(b) && 0 <= col < Cols && -1 <= row < Rows
    requires forall below :: row < below < Rows ==> b[below][col] != Empty
    ensures r.Some? ==> 0 <= r.value <= row && b[r.value][col] == Empty
    ensures r.Some? ==> forall below :: r.value < below < Rows ==> b[below][col] != Empty
    ensures r.None? ==> ColumnFull(b, col)
    decreases row + 1
  {
    if row < 0 then None
    else if b[row][col] == Empty then Some(row)
    else LowestEmptyFrom(b, col, row - 1)
  }

  /** The board seen in a mirror: column c trades places with column Cols - 1 - c. */
  function Mirror(b: Grid): (m: Grid)
    requires WellFormed(b)
    ensures WellFormed(m)
    ensures forall r, c :: 0 <= r < Rows && 0 <= c < Cols ==> m[r][c] == b[r][Cols - 1 - c]
  {
    seq(Rows, r requires 0 <= r < Rows => seq(Cols, c requires 0 <= c < Cols => b[r][Cols - 1 - c]))
  }

  /** Mirroring twice gives back the board. */
  lemma MirrorTwice(b: Grid)
    requires WellFormed(b)
    ensures Mirror(Mirror(b)) == b
  {
    var m := Mirror(Mirror(b));
    forall r | 0 <= r < Rows
      ensures m[r] == b[r]
    {
      assert forall c :: 0 <= c < Cols ==> m[r][c] == b[r][c];
    }
  }

  /** `checkDraw`: every cell of the top row is occupied. */
  predicate CheckDraw(b: Grid)
    requires WellFormed(b)
  {
    forall c :: 0 <= c < Cols ==> b[0][c] != Empty
  }

  /** Under gravity the top-row test is exactly "the board is full". */
  lemma DrawIsFull(b: Grid)
    requires WellFormed(b) && Gravity(b)
    ensures CheckDraw(b) <==> IsFull(b)
  {
    if CheckDraw(b) {
      forall r, c | InBounds(r, c)
        ensures b[r][c] != Empty
      {
        if r > 0 {
          assert b[0][c] != Empty;
        }
      }
    }
  }

  /** Without gravity the top-row test over-approximates: a full top row over an empty cell. */
  lemma DrawWithoutGravity()
    ensures exists b :: WellFormed(b) && CheckDraw(b) && !IsFull(b)
  {
    var b := Place(seq(Rows, _ => seq(Cols, _ => 1)), Rows - 1, 0, Empty);
    assert b[Rows - 1][0] == Empty;
    assert CheckDraw(b);
  }

  /** Placing at the lowest empty row of a column keeps the gravity invariant. */
  lemma PlaceKeepsGravity(b: Grid, col: int, row: int, p: int)
    requires WellFormed(b) && Gravity(b) && IsPlayer(p)
    requires LowestEmptyRow(b, col) == Some(row)
    ensures Gravity(Place(b, row, col, p))
  {
    var b' := Place(b, row, col, p);
    forall r, r', c | 0 <= r < r' < Rows && 0 <= c < Cols && b'[r][c] != Empty
      ensures b'[r'][c] != Empty
    {
      if c == col && r' != row && r != row {
        assert b[r][c] != Empty;
      }
    }
  }

  /** After a piece lands on row, the next piece in that column lands directly above it. */
  lemma NextRowIsAbove(b: Grid, col: int, row: int, p: int)
    requires WellFormed(b) && Gravity(b) && IsPlayer(p)
    requires LowestEmptyRow(b, col) == Some(row)
    ensures LowestEmptyRow(Place(b, row, col, p), col) == if row == 0 then None else Some(row - 1)
  {
    var b' := Place(b, row, col, p);
    if row > 0 {
      assert b[row - 1][col] == Empty;
      var next := LowestEmptyRow(b', col);
      assert next.Some? by {
        assert b'[row - 1][col] == Empty;
      }
      assert next.value == row - 1 by {
        assert b'[row][col] != Empty;
      }
    } else {
      assert ColumnFull(b', col);
    }
  }

  /** The number of cells of a row holding v. */
  function CountRow(s: seq<int>, v: int): (n: nat)
    ensures n <= |s|
  {
    if |s| == 0 then 0 else (if s[0] == v then 1 else 0) + CountRow(s[1..], v)
  }

  /** The number of cells of the first k rows holding v. */
  function CountRows(b: Grid, v: int, k: nat): nat
    requires k <= |b|
  {
    if k == 0 then 0 else CountRows(b, v, k - 1) + CountRow(b[k - 1], v)
  }

  /** The number of cells of the board holding v. */
  function Count(b: Grid, v: int): nat {
    CountRows(b, v, |b|)
  }

  /** Overwriting one cell of a row moves it from its old value's count to its new one's. */
  lemma {:induction false} CountRowUpdate(s: seq<int>, i: int, x: int, v: int)
    requires 0 <= i < |s|
    ensures CountRow(s[i := x], v) == CountRow(s, v) - (if s[i] == v then 1 else 0) + (if x == v then 1 else 0)
  {
    if i > 0 {
      assert s[i := x][1..] == s[1..][i - 1 := x];
      CountRowUpdate(s[1..], i - 1, x, v);
    } else {
      assert s[i := x][1..] == s[1..];
    }
  }

  /** Replacing row i of a board changes the count by the difference of the two rows' counts. */
  lemma {:induction false} CountRowsUpdate(b: Grid, i: int, row: seq<int>, v: int, k: nat)
    requires 0 <= i < |b| && k <= |b|
    ensures CountRows(b[i := row], v, k) ==
      CountRows(b, v, k) + (if i < k then CountRow(row, v) - CountRow(b[i], v) else 0)
  {
    if k > 0 {
      CountRowsUpdate(b, i, row, v, k - 1);
    }
  }

  /** Placing p on an empty cell adds one p to the count and leaves every other mark's count alone. */
  lemma PlaceCount(b: Grid, row: int, col: int, p: int, v: int)
    requires WellFormed(b) && InBounds(row, col) && IsPlayer(p) && b[row][col] == Empty
    ensures Count(Place(b, row, col, p), v) == Count(b, v) + (if v == p then 1 else 0) - (if v == Empty then 1 else 0)
  {
    CountRowUpdate(b[row], col, p, v);
    CountRowsUpdate(b, row, b[row][col := p], v, |b|);
  }

  /** The empty board has no marks of either player. */
  lemma {:induction false} EmptyCount(v: int, k: nat)
    requires IsPlayer(v) && k <= Rows
    ensures CountRows(EmptyBoard(), v, k) == 0
  {
    if k > 0 {
      EmptyCount(v, k - 1);
      EmptyRowCount(seq(Cols, _ => Empty), v);
    }
  }

  lemma {:induction false} EmptyRowCount(s: seq<int>, v: int)
    requires IsPlayer(v) && forall i :: 0 <= i < |s| ==> s[i] == Empty
    ensures CountRow(s, v) == 0
  {
    if |s| > 0 {
      EmptyRowCount(s[1..], v);
    }
  }
}

