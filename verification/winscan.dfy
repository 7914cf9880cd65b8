/** The scan-based `checkWinner` of the dynamic-depth game and of the console `TicTacToe`:
    it scans the whole row, the whole column and both whole diagonals through (row, col)
    with a running counter that resets on every other cell, and reports a win as soon as
    the counter reaches five. The five need not include (row, col) itself. */
module WinScan {
  import opened Cells
  import opened Grid
  import WinRay

  /** The four lines the scan walks, in its order: the row, the column, the `\` diagonal
      (row + i, col + i) and the `/` diagonal (row + i, col - i). */
  datatype Line = RowLine | ColumnLine | DownDiagonal | UpDiagonal

  /** First loop index of each scan. */
  function LineLo(g: Board, row: int, col: int, l: Line): int
  {
    match l
    case RowLine => 0
    case ColumnLine => 0
    case DownDiagonal => -Min(row, col)
    case UpDiagonal => -Min(row, g.cols - 1 - col)
  }

  /** Loop bound (exclusive) of each scan. */
  function LineHi(g: Board, row: int, col: int, l: Line): int
  {
    match l
    case RowLine => g.cols
    case ColumnLine => g.rows
    case DownDiagonal => Min(g.rows - row, g.cols - col)
    case UpDiagonal => Min(g.rows - row, col + 1)
  }

  /** The cell a scan reads at loop index `i`. */
  function LineCell(row: int, col: int, l: Line, i: int): Pos
  {
    match l
    case RowLine => (row, i)
    case ColumnLine => (i, col)
    case DownDiagonal => (row + i, col + i)
    case UpDiagonal => (row + i, col - i)
  }

  /** Every loop range, including both diagonal ranges, is exactly the set of indices
      whose cell is on the board: no scan reads outside the grid and none stops short. */
  lemma LineRangeIsBoard(g: Board, row: int, col: int, l: Line, i: int)
    requires InBounds(g, row, col)
    ensures LineLo(g, row, col, l) <= i < LineHi(g, row, col, l)
            <==> InBounds(g, LineCell(row, col, l, i).0, LineCell(row, col, l, i).1)
  {
  }

  /** Index `i` is inside the scan of line `l` and its cell holds `sym`. */
  predicate LineMatch(g: Board, row: int, col: int, l: Line, sym: char, i: int)
    requires Valid(g) && InBounds(g, row, col)
  {
    LineLo(g, row, col, l) <= i < LineHi(g, row, col, l) &&
    (LineRangeIsBoard(g, row, col, l, i);
     Get(g, LineCell(row, col, l, i).0, LineCell(row, col, l, i).1) == sym)
  }

  /** Five consecutive cells of line `l`, from index `j`, hold `sym`. */
  predicate Window(g: Board, row: int, col: int, l: Line, sym: char, j: int)
    requires Valid(g) && InBounds(g, row, col)
  {
    forall m :: j <= m < j + 5 ==> LineMatch(g, row, col, l, sym, m)
  }

  /** Reference definition: line `l` through (row, col) has five `sym` in a row somewhere. */
  ghost predicate FiveOnLine(g: Board, row: int, col: int, l: Line, sym: char)
    requires Valid(g) && InBounds(g, row, col)
  {
    exists j :: Window(g, row, col, l, sym, j)
  }

  /** One scan loop: `count` is the length of the run of `sym` ending just before `i`;
      the answer is true as soon as it reaches five. */
  function Scan(g: Board, row: int, col: int, l: Line, sym: char, i: int, count: nat): bool
    requires Valid(g) && InBounds(g, row, col)
    requires LineLo(g, row, col, l) <= i <= LineHi(g, row, col, l) && count < 5
    decreases LineHi(g, row, col, l) - i
  {
    if i == LineHi(g, row, col, l) then false
    else
      LineRangeIsBoard(g, row, col, l, i);
      var p := LineCell(row, col, l, i);
      var count' := if Get(g, p.0, p.1) == sym then count + 1 else 0;
      if count' == 5 then true else Scan(g, row, col, l, sym, i + 1, count')
  }

  /** The loop invariant of one scan at index `i` with counter `count`. */
  ghost predicate ScanInvariant(g: Board, row: int, col: int, l: Line, sym: char, i: int, count: nat)
    requires Valid(g) && InBounds(g, row, col)
  {
    RunBefore(g, row, col, l, sym, i, count) && NoFiveBefore(g, row, col, l, sym, i)
  }

  /** `count` is the length of the maximal run of `sym` ending just before index `i`. */
  ghost predicate RunBefore(g: Board, row: int, col: int, l: Line, sym: char, i: int, count: nat)
    requires Valid(g) && InBounds(g, row, col)
  {
    && LineLo(g, row, col, l) <= i - count
    && (forall m :: i - count <= m < i ==> LineMatch(g, row, col, l, sym, m))
    && (i - count > LineLo(g, row, col, l) ==> !LineMatch(g, row, col, l, sym, i - count - 1))
  }

  /** No five lies entirely before index `i`. */
  ghost predicate NoFiveBefore(g: Board, row: int, col: int, l: Line, sym: char, i: int)
    requires Valid(g) && InBounds(g, row, col)
  {
    forall j :: j + 5 <= i ==> !Window(g, row, col, l, sym, j)
  }

  /** One step of a scan keeps the invariant when the counter does not reach five. */
  lemma StepKeepsInvariant(g: Board, row: int, col: int, l: Line, sym: char, i: int, count: nat)
    requires Valid(g) && InBounds(g, row, col)
    requires LineLo(g, row, col, l) <= i < LineHi(g, row, col, l) && count < 5
    requires ScanInvariant(g, row, col, l, sym, i, count)
    ensures var hit := LineMatch(g, row, col, l, sym, i);
      (hit ==> count + 1 == 5 ==> Window(g, row, col, l, sym, i - 4)) &&
      (hit ==> count + 1 < 5 ==> ScanInvariant(g, row, col, l, sym, i + 1, count + 1)) &&
      (!hit ==> ScanInvariant(g, row, col, l, sym, i + 1, 0))
  {
    var lo := LineLo(g, row, col, l);
    var hit := LineMatch(g, row, col, l, sym, i);
    if hit && count + 1 < 5 {
      var s := i - count;
      forall j | j + 5 == i + 1
        ensures !Window(g, row, col, l, sym, j)
      {
        if s > lo {
          assert !LineMatch(g, row, col, l, sym, s - 1);
        } else {
          assert !LineMatch(g, row, col, l, sym, j);
        }
      }
    } else if !hit {
      forall j | j + 5 == i + 1
        ensures !Window(g, row, col, l, sym, j)
      {
        assert !LineMatch(g, row, col, l, sym, i);
      }
    }
  }

  /** When the scan has passed the whole line without a five, there is none. */
  lemma NoFiveAtEnd(g: Board, row: int, col: int, l: Line, sym: char, count: nat)
    requires Valid(g) && InBounds(g, row, col)
    requires ScanInvariant(g, row, col, l, sym, LineHi(g, row, col, l), count)
    ensures !FiveOnLine(g, row, col, l, sym)
  {
    forall j
      ensures !Window(g, row, col, l, sym, j)
    {
      if j + 5 > LineHi(g, row, col, l) {
        assert !LineMatch(g, row, col, l, sym, j + 4);
      }
    }
  }

  /** One unfolding of `Scan` at index `i`, phrased with `LineMatch`. */
  lemma ScanUnfold(g: Board, row: int, col: int, l: Line, sym: char, i: int, count: nat)
    requires Valid(g) && InBounds(g, row, col)
    requires LineLo(g, row, col, l) <= i < LineHi(g, row, col, l) && count < 5
    ensures LineMatch(g, row, col, l, sym, i) && count + 1 == 5 ==> Scan(g, row, col, l, sym, i, count)
    ensures LineMatch(g, row, col, l, sym, i) && count + 1 < 5 ==>
      Scan(g, row, col, l, sym, i, count) == Scan(g, row, col, l, sym, i + 1, count + 1)
    ensures !LineMatch(g, row, col, l, sym, i) ==>
      Scan(g, row, col, l, sym, i, count) == Scan(g, row, col, l, sym, i + 1, 0)
  {
    LineRangeIsBoard(g, row, col, l, i);
  }

  /** A scan that starts in a state satisfying the invariant answers exactly whether the
      line holds five in a row. */
  lemma {:induction false} ScanCorrect(g: Board, row: int, col: int, l: Line, sym: char, i: int, count: nat)
    requires Valid(g) && InBounds(g, row, col)
    requires LineLo(g, row, col, l) <= i <= LineHi(g, row, col, l) && count < 5
    requires ScanInvariant(g, row, col, l, sym, i, count)
    ensures Scan(g, row, col, l, sym, i, count) <==> FiveOnLine(g, row, col, l, sym)
    decreases LineHi(g, row, col, l) - i
  {
    if i == LineHi(g, row, col, l) {
      NoFiveAtEnd(g, row, col, l, sym, count);
    } else {
      var hit := LineMatch(g, row, col, l, sym, i);
      StepKeepsInvariant(g, row, col, l, sym, i, count);
      ScanUnfold(g, row, col, l, sym, i, count);
      if hit && count + 1 == 5 {
        assert Window(g, row, col, l, sym, i - 4);
      } else if hit {
        ScanCorrect(g, row, col, l, sym, i + 1, count + 1);
      } else {
        ScanCorrect(g, row, col, l, sym, i + 1, 0);
      }
    }
  }

  /** A whole scan of line `l`, from its first index with the counter at zero. */
  function ScanLine(g: Board, row: int, col: int, l: Line, sym: char): (found: bool)
    requires Valid(g) && InBounds(g, row, col)
    ensures found <==> FiveOnLine(g, row, col, l, sym)
  {
    var lo := LineLo(g, row, col, l);
    LineRangeIsBoard(g, row, col, l, 0);
    forall j | j + 5 <= lo
      ensures !Window(g, row, col, l, sym, j)
    {
      assert !LineMatch(g, row, col, l, sym, j);
    }
    assert ScanInvariant(g, row, col, l, sym, lo, 0);
    ScanCorrect(g, row, col, l, sym, lo, 0);
    Scan(g, row, col, l, sym, lo, 0)
  }

  /** `checkWinner(row, col)`: true exactly when the row, the column or one of the two
      diagonals through (row, col) holds five consecutive copies of the symbol at
      (row, col), wherever on that line they are. */
  function CheckWinner(g: Board, row: int, col: int): (won: bool)
    requires Valid(g) && InBounds(g, row, col)
    ensures won <==> exists l :: FiveOnLine(g, row, col, l, Get(g, row, col))
  {
    var sym := Get(g, row, col);
    var won := ScanLine(g, row, col, RowLine, sym) || ScanLine(g, row, col, ColumnLine, sym)
      || ScanLine(g, row, col, DownDiagonal, sym) || ScanLine(g, row, col, UpDiagonal, sym);
    assert (exists l :: FiveOnLine(g, row, col, l, sym)) ==> won by {
      forall l | FiveOnLine(g, row, col, l, sym)
        ensures won
      {
        if l.RowLine? {
        } else if l.ColumnLine? {
        } else if l.DownDiagonal? {
        } else {
        }
      }
    }
    won
  }

  /** The line the scan walks for a ray direction, and the line index of ray step `t`. */
  function LineOf(d: Dir): Line
  {
    match d
    case Horizontal => RowLine
    case Vertical => ColumnLine
    case Diagonal => DownDiagonal
    case AntiDiagonal => UpDiagonal
  }

  /** A five along ray direction `d` is a five on the scanned line `LineOf(d)`. */
  lemma RunIsWindow(g: Board, row: int, col: int, d: Dir, lo: int, sym: char)
    requires Valid(g) && InBounds(g, row, col)
    requires WinRay.FiveFrom(g, row, col, d, lo, sym)
    ensures FiveOnLine(g, row, col, LineOf(d), sym)
  {
    var l := LineOf(d);
    match d {
      case Horizontal =>
        forall m | col + lo <= m < col + lo + 5
          ensures LineMatch(g, row, col, l, sym, m)
        {
          assert WinRay.Matches(g, row, col, d, m - col, sym);
          LineRangeIsBoard(g, row, col, l, m);
        }
        assert Window(g, row, col, l, sym, col + lo);
      case Vertical =>
        forall m | row + lo <= m < row + lo + 5
          ensures LineMatch(g, row, col, l, sym, m)
        {
          assert WinRay.Matches(g, row, col, d, m - row, sym);
          LineRangeIsBoard(g, row, col, l, m);
        }
        assert Window(g, row, col, l, sym, row + lo);
      case Diagonal =>
        forall m | lo <= m < lo + 5
          ensures LineMatch(g, row, col, l, sym, m)
        {
          assert WinRay.Matches(g, row, col, d, m, sym);
          LineRangeIsBoard(g, row, col, l, m);
        }
        assert Window(g, row, col, l, sym, lo);
      case AntiDiagonal =>
        forall m | -lo - 4 <= m < -lo + 1
          ensures LineMatch(g, row, col, l, sym, m)
        {
          assert WinRay.Matches(g, row, col, d, -m, sym);
          LineRangeIsBoard(g, row, col, l, m);
        }
        assert Window(g, row, col, l, sym, -lo - 4);
    }
  }

  /** Whenever the ray-walking `checkWinner` reports a win, the scanning `checkWinner`
      does too: a run through (row, col) is in particular a run on a line through it. */
  lemma RayWinImpliesScanWin(g: Board, row: int, col: int)
    requires Valid(g) && InBounds(g, row, col)
    ensures WinRay.CheckWinner(g, row, col).hasWinner ==> CheckWinner(g, row, col)
  {
    var sym := Get(g, row, col);
    if WinRay.CheckWinner(g, row, col).hasWinner {
      var d :| d in Directions && WinRay.FiveThrough(g, row, col, d, sym);
      var lo :| -4 <= lo <= 0 && WinRay.FiveFrom(g, row, col, d, lo, sym);
      RunIsWindow(g, row, col, d, lo, sym);
    }
  }

  /** The converse fails: on the one-row board "OOOOO O" the scan from (0, 6) finds the
      five at the left, while the ray walk from (0, 6) sees a run of one. */
  lemma ScanMayMissAnchor()
    ensures var g := Board(1, 7, ["OOOOO O"]);
      Valid(g) && CheckWinner(g, 0, 6) && !WinRay.CheckWinner(g, 0, 6).hasWinner
  {
    var g := Board(1, 7, ["OOOOO O"]);
    assert Window(g, 0, 6, RowLine, 'O', 0);
    forall d, lo | -4 <= lo <= 0
      ensures !WinRay.FiveFrom(g, 0, 6, d, lo, 'O')
    {
      if lo == 0 {
        assert !WinRay.Matches(g, 0, 6, d, 4, 'O');
      } else if d == Horizontal {
        assert !WinRay.Matches(g, 0, 6, d, -1, 'O');
      } else {
        assert !WinRay.Matches(g, 0, 6, d, lo, 'O');
      }
    }
  }
}
