/** The bot's one-move look-ahead: `canWinNextMove` finds the first empty cell that wins
    outright, and `detectAndBlockThreat` the first cell where the opponent would make a
    four, or failing that an open three. Both try each empty cell by writing the symbol
    into the grid and writing ' ' back, so the grid they hand back is the one they got. */
module Threats {
  import opened Cells
  import opened Grid
  import opened WinRay
  import opened Scanners

  /** (r, c) is empty and playing `sym` there makes five in a row through it. */
  ghost predicate WinningCell(g: Board, r: int, c: int, sym: char)
    requires Valid(g)
  {
    InBounds(g, r, c) && Get(g, r, c) == Empty &&
    exists d :: d in Directions && FiveThrough(SetCell(g, r, c, sym), r, c, d, sym)
  }

  /** The three cell tests the look-ahead scans apply. */
  datatype Test = Win | Four | Open3

  /** Cell (r, c) passes test `t` for `sym`. */
  ghost predicate Hit(g: Board, t: Test, r: int, c: int, sym: char)
    requires Valid(g)
  {
    match t
    case Win => WinningCell(g, r, c, sym)
    case Four => FourThreat(g, r, c, sym)
    case Open3 => OpenThree(g, r, c, sym)
  }

  /** No cell strictly before (r, c) in row-major order passes test `t`. */
  ghost predicate NoneBefore(g: Board, t: Test, sym: char, r: int, c: int)
    requires Valid(g)
  {
    forall i, j {:trigger Hit(g, t, i, j, sym)} :: InBounds(g, i, j) && Before((i, j), (r, c)) ==> !Hit(g, t, i, j, sym)
  }

  /** A scan that passes (r, c) without a hit keeps `NoneBefore`. */
  lemma NoneBeforeStep(g: Board, t: Test, sym: char, r: int, c: int)
    requires Valid(g) && InBounds(g, r, c)
    requires NoneBefore(g, t, sym, r, c) && !Hit(g, t, r, c, sym)
    ensures NoneBefore(g, t, sym, r, c + 1)
  {
  }

  /** At the end of a row the scan moves on to the next one. */
  lemma NoneBeforeRowEnd(g: Board, t: Test, sym: char, r: int)
    requires Valid(g)
    requires NoneBefore(g, t, sym, r, g.cols)
    ensures NoneBefore(g, t, sym, r + 1, 0)
  {
  }

  /** A scan past the last row without a winning cell has seen every cell. */
  lemma NoWinAnywhere(g: Board, sym: char)
    requires Valid(g)
    requires NoneBefore(g, Win, sym, g.rows, 0)
    ensures forall i, j :: InBounds(g, i, j) ==> !WinningCell(g, i, j, sym)
  {
    forall i, j | InBounds(g, i, j)
      ensures !WinningCell(g, i, j, sym)
    {
      assert !Hit(g, Win, i, j, sym);
    }
  }

  /** A scan past the last row without a four-threat cell has seen every cell. */
  lemma NoFourAnywhere(g: Board, sym: char)
    requires Valid(g)
    requires NoneBefore(g, Four, sym, g.rows, 0)
    ensures !AnyFour(g, sym)
  {
    forall i, j | InBounds(g, i, j)
      ensures !FourThreat(g, i, j, sym)
    {
      assert !Hit(g, Four, i, j, sym);
    }
  }

  /** A scan past the last row without an open-three cell has seen every cell. */
  lemma NoOpenThreeAnywhere(g: Board, sym: char)
    requires Valid(g)
    requires NoneBefore(g, Open3, sym, g.rows, 0)
    ensures !AnyOpenThree(g, sym)
  {
    forall i, j | InBounds(g, i, j)
      ensures !OpenThree(g, i, j, sym)
    {
      assert !Hit(g, Open3, i, j, sym);
    }
  }

  /** A cell that cannot be played passes no test. */
  lemma OccupiedMisses(g: Board, t: Test, r: int, c: int, sym: char)
    requires Valid(g) && InBounds(g, r, c) && !IsCellEmpty(g, r, c)
    ensures !Hit(g, t, r, c, sym)
  {
  }

  /** `canWinNextMove(symbol, winRow, winCol)`: reports the first empty cell in row-major
      order where `sym` would win, or that there is none; the grid comes back unchanged. */
  method CanWinNextMove(g: Board, sym: char) returns (found: bool, winRow: int, winCol: int, after: Board)
    requires Valid(g)
    ensures after == g
    ensures found ==> WinningCell(g, winRow, winCol, sym) && NoneBefore(g, Win, sym, winRow, winCol)
    ensures !found ==> forall i, j :: InBounds(g, i, j) ==> !WinningCell(g, i, j, sym)
  {
    var b := g;
    var r := 0;
    while r < g.rows
      invariant 0 <= r <= g.rows && b == g
      invariant NoneBefore(g, Win, sym, r, 0)
    {
      var c := 0;
      while c < g.cols
        invariant 0 <= c <= g.cols && b == g
        invariant NoneBefore(g, Win, sym, r, c)
      {
        if IsCellEmpty(b, r, c) {
          b := SetCell(b, r, c, sym);
          var w := CheckWinner(b, r, c);
          b := SetCell(b, r, c, Empty);
          UndoRestores(g, r, c, sym);
          assert w.hasWinner == Hit(g, Win, r, c, sym);
          if w.hasWinner {
            return true, r, c, b;
          }
        } else {
          OccupiedMisses(g, Win, r, c, sym);
        }
        NoneBeforeStep(g, Win, sym, r, c);
        c := c + 1;
      }
      NoneBeforeRowEnd(g, Win, sym, r);
      r := r + 1;
    }
    NoWinAnywhere(g, sym);
    return false, -1, -1, b;
  }

  /** Playing `sym` at the empty cell (r, c) gives a run of four or more other `sym`
      around it in some direction: `countSequence >= 4`. */
  ghost predicate FourThreat(g: Board, r: int, c: int, sym: char)
    requires Valid(g)
  {
    InBounds(g, r, c) && Get(g, r, c) == Empty && FourAround(SetCell(g, r, c, sym), r, c, sym)
  }

  /** Playing `sym` at the empty cell (r, c) gives a run of three or more other `sym`
      with an open end: `countOpenConsecutive >= 3`. */
  ghost predicate OpenThree(g: Board, r: int, c: int, sym: char)
    requires Valid(g)
  {
    InBounds(g, r, c) && Get(g, r, c) == Empty && ThreeAround(SetCell(g, r, c, sym), r, c, sym)
  }

  /** The run through (r, c) along `d`, not counting (r, c), is three or longer and has
      an open end. */
  predicate OpenLongRun(g: Board, r: int, c: int, d: Dir, sym: char)
    requires Valid(g)
  {
    Qualifies(g, r, c, d, sym) && RunLength(g, r, c, d, sym) >= 3
  }

  /** Some direction's run around (r, c) is three or longer with an open end. */
  predicate ThreeAround(g: Board, r: int, c: int, sym: char)
    requires Valid(g)
  {
    OpenLongRun(g, r, c, Horizontal, sym) || OpenLongRun(g, r, c, Vertical, sym) ||
    OpenLongRun(g, r, c, Diagonal, sym) || OpenLongRun(g, r, c, AntiDiagonal, sym)
  }

  /** `countOpenConsecutive >= 3` holds exactly when some open-ended run is three or
      longer. */
  lemma OpenCountIff(g: Board, r: int, c: int, sym: char)
    requires Valid(g) && InBounds(g, r, c)
    ensures CountOpenConsecutive(g, r, c, sym) >= 3 <==> ThreeAround(g, r, c, sym)
  {
  }

  /** The run through (r, c) along `d`, not counting (r, c), is four or longer. */
  predicate LongRun(g: Board, r: int, c: int, d: Dir, sym: char)
    requires Valid(g)
  {
    RunLength(g, r, c, d, sym) >= 4
  }

  /** Some direction's run around (r, c) is four or longer. */
  predicate FourAround(g: Board, r: int, c: int, sym: char)
    requires Valid(g)
  {
    LongRun(g, r, c, Horizontal, sym) || LongRun(g, r, c, Vertical, sym) ||
    LongRun(g, r, c, Diagonal, sym) || LongRun(g, r, c, AntiDiagonal, sym)
  }

  /** (r, c) is a four-threat cell and no cell before it is. */
  ghost predicate FirstFour(g: Board, r: int, c: int, sym: char)
    requires Valid(g)
  {
    FourThreat(g, r, c, sym) && NoneBefore(g, Four, sym, r, c)
  }

  /** (r, c) is an open-three cell and no cell before it is. */
  ghost predicate FirstOpenThree(g: Board, r: int, c: int, sym: char)
    requires Valid(g)
  {
    OpenThree(g, r, c, sym) && NoneBefore(g, Open3, sym, r, c)
  }

  /** The board holds a four-threat cell for `sym`. */
  ghost predicate AnyFour(g: Board, sym: char)
    requires Valid(g)
  {
    exists i, j :: FourThreat(g, i, j, sym)
  }

  /** The board holds an open-three cell for `sym`. */
  ghost predicate AnyOpenThree(g: Board, sym: char)
    requires Valid(g)
  {
    exists i, j :: OpenThree(g, i, j, sym)
  }

  /** The direction loop of `detectAndBlockThreat` on the board with `sym` already at
      (r, c): is some direction's `countSequence` four or more? */
  method FourInSomeDirection(g: Board, r: int, c: int, sym: char) returns (four: bool)
    requires Valid(g) && InBounds(g, r, c)
    ensures four <==> FourAround(g, r, c, sym)
  {
    var k := 0;
    while k < 4
      invariant 0 <= k <= 4
      invariant k > 0 ==> !LongRun(g, r, c, Horizontal, sym)
      invariant k > 1 ==> !LongRun(g, r, c, Vertical, sym)
      invariant k > 2 ==> !LongRun(g, r, c, Diagonal, sym)
      invariant k > 3 ==> !LongRun(g, r, c, AntiDiagonal, sym)
    {
      var d := Directions[k];
      if CountSequence(g, r, c, d, sym) >= 4 {
        assert LongRun(g, r, c, d, sym);
        assert d == Horizontal || d == Vertical || d == Diagonal || d == AntiDiagonal;
        return true;
      }
      k := k + 1;
    }
    return false;
  }

  /** `detectAndBlockThreat(symbol, threatRow, threatCol)`: the first cell (row-major)
      where `sym` would make a four is returned at once; otherwise the first cell where
      it would make an open three, remembered while the scan goes on looking for fours;
      otherwise nothing. The grid comes back unchanged. */
  method DetectAndBlockThreat(g: Board, sym: char) returns (found: bool, threatRow: int, threatCol: int, after: Board)
    requires Valid(g)
    ensures after == g
    ensures found && AnyFour(g, sym) ==> FirstFour(g, threatRow, threatCol, sym)
    ensures found && !AnyFour(g, sym) ==> FirstOpenThree(g, threatRow, threatCol, sym)
    ensures !found ==> !AnyFour(g, sym) && !AnyOpenThree(g, sym)
  {
    after := g;
    var blocked := false;
    threatRow, threatCol := -1, -1;
    var r := 0;
    while r < g.rows
      invariant 0 <= r <= g.rows && after == g
      invariant NoneBefore(g, Four, sym, r, 0)
      invariant blocked ==> FirstOpenThree(g, threatRow, threatCol, sym)
      invariant !blocked ==> NoneBefore(g, Open3, sym, r, 0)
    {
      var four, col;
      four, col, after, blocked, threatRow, threatCol := ScanRow(after, r, sym, blocked, threatRow, threatCol);
      if four {
        return true, r, col, after;
      }
      r := r + 1;
    }
    NoFourAnywhere(g, sym);
    if !blocked {
      NoOpenThreeAnywhere(g, sym);
    }
    return blocked, threatRow, threatCol, after;
  }

  /** One row of `detectAndBlockThreat`'s scan: stops at the first four-threat cell of row
      `r`, and otherwise carries the remembered open three (or the absence of one) to the
      start of the next row. */
  method ScanRow(g: Board, r: int, sym: char, blocked0: bool, row0: int, col0: int)
    returns (four: bool, col: int, after: Board, blocked: bool, threatRow: int, threatCol: int)
    requires Valid(g) && 0 <= r < g.rows
    requires NoneBefore(g, Four, sym, r, 0)
    requires blocked0 ==> FirstOpenThree(g, row0, col0, sym)
    requires !blocked0 ==> NoneBefore(g, Open3, sym, r, 0)
    ensures after == g
    ensures four ==> FirstFour(g, r, col, sym)
    ensures !four ==> NoneBefore(g, Four, sym, r + 1, 0)
    ensures blocked ==> FirstOpenThree(g, threatRow, threatCol, sym)
    ensures !four && !blocked ==> NoneBefore(g, Open3, sym, r + 1, 0)
  {
    after, blocked, threatRow, threatCol := g, blocked0, row0, col0;
    var c := 0;
    while c < g.cols
      invariant 0 <= c <= g.cols && after == g
      invariant NoneBefore(g, Four, sym, r, c)
      invariant blocked ==> FirstOpenThree(g, threatRow, threatCol, sym)
      invariant !blocked ==> NoneBefore(g, Open3, sym, r, c)
    {
      four, after, blocked, threatRow, threatCol := VisitCell(after, r, c, sym, blocked, threatRow, threatCol);
      if four {
        return true, c, after, blocked, threatRow, threatCol;
      }
      c := c + 1;
    }
    NoneBeforeRowEnd(g, Four, sym, r);
    if !blocked {
      NoneBeforeRowEnd(g, Open3, sym, r);
    }
    return false, -1, after, blocked, threatRow, threatCol;
  }

  /** One step of the cell loop: try (r, c); a four-threat ends the scan there, and
      otherwise the scan's facts extend past (r, c). */
  method VisitCell(g: Board, r: int, c: int, sym: char, blocked0: bool, row0: int, col0: int)
    returns (four: bool, after: Board, blocked: bool, threatRow: int, threatCol: int)
    requires Valid(g) && InBounds(g, r, c)
    requires NoneBefore(g, Four, sym, r, c)
    requires blocked0 ==> FirstOpenThree(g, row0, col0, sym)
    requires !blocked0 ==> NoneBefore(g, Open3, sym, r, c)
    ensures after == g
    ensures four ==> FirstFour(g, r, c, sym)
    ensures !four ==> NoneBefore(g, Four, sym, r, c + 1)
    ensures blocked ==> FirstOpenThree(g, threatRow, threatCol, sym)
    ensures !four && !blocked ==> NoneBefore(g, Open3, sym, r, c + 1)
  {
    var open3;
    four, open3, after := TryCell(g, r, c, sym, blocked0);
    blocked, threatRow, threatCol := blocked0, row0, col0;
    if !four {
      KeepScanning(g, r, c, sym, blocked0, row0, col0, open3);
      if open3 {
        threatRow, threatCol := r, c;
        blocked := true;
      }
    }
  }

  /** Passing a cell that is no four-threat keeps the scan's facts: the cell joins the
      ones known to hold no four, and either becomes the remembered open three or, when
      no three is remembered, joins the ones known to hold none. */
  lemma KeepScanning(g: Board, r: int, c: int, sym: char, blocked: bool, row0: int, col0: int, open3: bool)
    requires Valid(g) && InBounds(g, r, c)
    requires NoneBefore(g, Four, sym, r, c) && !Hit(g, Four, r, c, sym)
    requires blocked ==> FirstOpenThree(g, row0, col0, sym)
    requires !blocked ==> NoneBefore(g, Open3, sym, r, c)
    requires open3 == (!blocked && Hit(g, Open3, r, c, sym))
    ensures NoneBefore(g, Four, sym, r, c + 1)
    ensures open3 ==> FirstOpenThree(g, r, c, sym)
    ensures !open3 && !blocked ==> NoneBefore(g, Open3, sym, r, c + 1)
  {
    NoneBeforeStep(g, Four, sym, r, c);
    if !open3 && !blocked {
      NoneBeforeStep(g, Open3, sym, r, c);
    }
  }

  /** The body of `detectAndBlockThreat`'s cell loop for (r, c): if the cell is empty,
      place `sym`, test the four directions for a four, then (unless a three is already
      remembered) test for an open three, and write ' ' back. */
  method TryCell(g: Board, r: int, c: int, sym: char, blocked: bool) returns (four: bool, open3: bool, after: Board)
    requires Valid(g) && InBounds(g, r, c)
    ensures after == g
    ensures four == Hit(g, Four, r, c, sym)
    ensures open3 == (!four && !blocked && Hit(g, Open3, r, c, sym))
  {
    four, open3 := false, false;
    after := g;
    if IsCellEmpty(after, r, c) {
      after := SetCell(after, r, c, sym);
      four := FourInSomeDirection(after, r, c, sym);
      if four {
        after := SetCell(after, r, c, Empty);
        UndoRestores(g, r, c, sym);
        return;
      }
      OpenCountIff(after, r, c, sym);
      if !blocked && CountOpenConsecutive(after, r, c, sym) >= 3 {
        after := SetCell(after, r, c, Empty);
        UndoRestores(g, r, c, sym);
        open3 := true;
        WriteBackIsNoop(g, r, c);
      }
      after := SetCell(after, r, c, Empty);
      UndoRestores(g, r, c, sym);
    } else {
      OccupiedMisses(g, Four, r, c, sym);
      OccupiedMisses(g, Open3, r, c, sym);
    }
  }

  /** Around a stone of `sym`, a run of four along some direction is exactly five in a
      row through it. */
  lemma FourAroundIsFive(g: Board, r: int, c: int, sym: char)
    requires Valid(g) && InBounds(g, r, c) && Get(g, r, c) == sym
    ensures FourAround(g, r, c, sym) <==> FiveAnyDirection(g, r, c, sym)
  {
    RayFiveIff(g, r, c, Horizontal);
    RayFiveIff(g, r, c, Vertical);
    RayFiveIff(g, r, c, Diagonal);
    RayFiveIff(g, r, c, AntiDiagonal);
  }

  /** The four test of `detectAndBlockThreat` finds exactly the winning cells: a run of
      four around the new stone is five in a row through it. So blocking the opponent's
      first four-threat blocks its first winning move. */
  lemma FourThreatIsWin(g: Board, r: int, c: int, sym: char)
    requires Valid(g)
    ensures FourThreat(g, r, c, sym) <==> WinningCell(g, r, c, sym)
  {
    if InBounds(g, r, c) {
      var g' := SetCell(g, r, c, sym);
      FourAroundIsFive(g', r, c, sym);
      FiveAnyDirectionIff(g', r, c, sym);
    }
  }
}
