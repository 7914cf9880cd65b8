/** `GameLogic::checkWinner` of the graphical game: from the just-played cell it walks at
    most four cells forward and four backward along each direction and reports the first
    run of five or more as a `WinSequence` with its two end cells. */
module WinRay {
  import opened Cells
  import opened Grid

  datatype WinSequence = WinSequence(hasWinner: bool, startRow: int, startCol: int, endRow: int, endCol: int)

  /** What `checkWinner` returns when no direction has five in a row. */
  const NoWinner: WinSequence := WinSequence(false, -1, -1, -1, -1)

  /** The cell `t` steps from (r, c) along `d` is on the board and holds `sym`. */
  predicate Matches(g: Board, r: int, c: int, d: Dir, t: int, sym: char)
    requires Valid(g)
  {
    var p := CellAt(r, c, d, t);
    InBounds(g, p.0, p.1) && Get(g, p.0, p.1) == sym
  }

  /** Every cell from step `lo` to step `hi` along `d` is on the board and holds `sym`. */
  predicate RunOn(g: Board, r: int, c: int, d: Dir, lo: int, hi: int, sym: char)
    requires Valid(g)
  {
    forall t :: lo <= t <= hi ==> Matches(g, r, c, d, t, sym)
  }

  /** Reference definition of a win through (r, c) along `d`: five consecutive cells
      holding `sym`, one of which is (r, c) itself. */
  predicate FiveThrough(g: Board, r: int, c: int, d: Dir, sym: char)
    requires Valid(g)
  {
    exists lo :: -4 <= lo <= 0 && FiveFrom(g, r, c, d, lo, sym)
  }

  /** The five cells from step `lo` to step `lo + 4` along `d` hold `sym`. */
  predicate FiveFrom(g: Board, r: int, c: int, d: Dir, lo: int, sym: char)
    requires Valid(g)
  {
    RunOn(g, r, c, d, lo, lo + 4, sym)
  }

  /** One walk of `checkWinner`, from step `i` up to step 4: it counts matching cells and
      stops at the first cell that is off the board or holds something else. */
  function RayFrom(g: Board, r: int, c: int, d: Dir, back: bool, sym: char, i: nat): (k: nat)
    requires Valid(g) && 1 <= i <= 5
    ensures k <= 5 - i
    ensures forall t :: i <= t < i + k ==> Matches(g, r, c, d, Off(back, t), sym)
    ensures i + k < 5 ==> !Matches(g, r, c, d, Off(back, i + k), sym)
    decreases 5 - i
  {
    if i == 5 then 0
    else if Matches(g, r, c, d, Off(back, i), sym) then 1 + RayFrom(g, r, c, d, back, sym, i + 1)
    else 0
  }

  /** The length of the longest run of `sym` starting next to (r, c), at most four cells. */
  function RayLen(g: Board, r: int, c: int, d: Dir, back: bool, sym: char): (k: nat)
    requires Valid(g)
    ensures k <= 4
    ensures forall t :: 1 <= t <= k ==> Matches(g, r, c, d, Off(back, t), sym)
    ensures k < 4 ==> !Matches(g, r, c, d, Off(back, k + 1), sym)
  {
    RayFrom(g, r, c, d, back, sym, 1)
  }

  /** The two walks along `d` together cover at least five cells exactly when five cells
      in a row through (r, c) hold its symbol. */
  lemma RayFiveIff(g: Board, r: int, c: int, d: Dir)
    requires Valid(g) && InBounds(g, r, c)
    ensures var sym := Get(g, r, c);
      1 + RayLen(g, r, c, d, false, sym) + RayLen(g, r, c, d, true, sym) >= 5
      <==> FiveThrough(g, r, c, d, sym)
  {
    var sym := Get(g, r, c);
    var f: int := RayLen(g, r, c, d, false, sym);
    var b: int := RayLen(g, r, c, d, true, sym);
    assert CellAt(r, c, d, 0) == (r, c);
    if 1 + f + b >= 5 {
      forall t | -b <= t <= -b + 4
        ensures Matches(g, r, c, d, t, sym)
      {
        if t < 0 {
          assert Off(true, -t) == t;
        } else if t > 0 {
          assert Off(false, t) == t;
        }
      }
      assert FiveFrom(g, r, c, d, -b, sym);
    }
    if FiveThrough(g, r, c, d, sym) {
      var lo :| -4 <= lo <= 0 && FiveFrom(g, r, c, d, lo, sym);
      forall t | 1 <= t <= -lo
        ensures Matches(g, r, c, d, Off(true, t), sym)
      {
        assert Matches(g, r, c, d, -t, sym);
      }
      RayLenAtLeast(g, r, c, d, true, sym, -lo);
      forall t | 1 <= t <= lo + 4
        ensures Matches(g, r, c, d, Off(false, t), sym)
      {
        assert Matches(g, r, c, d, t, sym);
      }
      RayLenAtLeast(g, r, c, d, false, sym, lo + 4);
    }
  }

  /** A walk reaches at least as far as any run of matching cells next to (r, c). */
  lemma RayLenAtLeast(g: Board, r: int, c: int, d: Dir, back: bool, sym: char, n: int)
    requires Valid(g) && 0 <= n <= 4
    requires forall t :: 1 <= t <= n ==> Matches(g, r, c, d, Off(back, t), sym)
    ensures RayLen(g, r, c, d, back, sym) >= n
  {
  }

  /** Five in a row through (r, c) along one of the four directions, spelled out. */
  predicate FiveAnyDirection(g: Board, r: int, c: int, sym: char)
    requires Valid(g)
  {
    FiveThrough(g, r, c, Horizontal, sym) || FiveThrough(g, r, c, Vertical, sym) ||
    FiveThrough(g, r, c, Diagonal, sym) || FiveThrough(g, r, c, AntiDiagonal, sym)
  }

  /** The quantified and the spelled-out forms agree. */
  lemma FiveAnyDirectionIff(g: Board, r: int, c: int, sym: char)
    requires Valid(g)
    ensures (exists d :: d in Directions && FiveThrough(g, r, c, d, sym)) <==> FiveAnyDirection(g, r, c, sym)
  {
  }

  /** `w` reports a run along `d` from step `lo` to step `hi`, through (r, c), of five to
      nine cells all holding the symbol at (r, c). */
  predicate WinningRun(g: Board, r: int, c: int, d: Dir, lo: int, hi: int, w: WinSequence)
    requires Valid(g) && InBounds(g, r, c)
  {
    && d in Directions
    && -4 <= lo <= 0 <= hi <= 4 && hi - lo >= 4
    && (w.startRow, w.startCol) == CellAt(r, c, d, lo)
    && (w.endRow, w.endCol) == CellAt(r, c, d, hi)
    && RunOn(g, r, c, d, lo, hi, Get(g, r, c))
  }

  /** The direction loop of `checkWinner`, from `Directions[j]` on. */
  function WinFrom(g: Board, r: int, c: int, j: nat): (w: WinSequence)
    requires Valid(g) && InBounds(g, r, c) && j <= 4
    ensures w.hasWinner <==> exists k :: j <= k < 4 && FiveThrough(g, r, c, Directions[k], Get(g, r, c))
    ensures w.hasWinner ==> exists d, lo, hi :: WinningRun(g, r, c, d, lo, hi, w)
    ensures !w.hasWinner ==> w == NoWinner
    decreases 4 - j
  {
    if j == 4 then NoWinner
    else
      var d := Directions[j];
      var sym := Get(g, r, c);
      var f: int := RayLen(g, r, c, d, false, sym);
      var b: int := RayLen(g, r, c, d, true, sym);
      RayFiveIff(g, r, c, d);
      if 1 + f + b >= 5 then
        var s := CellAt(r, c, d, -b);
        var e := CellAt(r, c, d, f);
        var w := WinSequence(true, s.0, s.1, e.0, e.1);
        assert CellAt(r, c, d, 0) == (r, c);
        assert forall t :: 1 <= t <= b ==> Off(true, t) == -t;
        assert forall t :: 1 <= t <= f ==> Off(false, t) == t;
        assert RunOn(g, r, c, d, -b, f, sym) by {
          forall t | -b <= t <= f
            ensures Matches(g, r, c, d, t, sym)
          {
            if t < 0 {
              assert Off(true, -t) == t;
            } else if t > 0 {
              assert Off(false, t) == t;
            }
          }
        }
        assert WinningRun(g, r, c, d, -b, f, w);
        w
      else
        WinFrom(g, r, c, j + 1)
  }

  /** `checkWinner(row, col)`: a win is reported exactly when five cells in a row through
      (row, col) hold its symbol in one of the four directions, with the run's two ends;
      otherwise the `{false, -1, -1, -1, -1}` sentinel. */
  function CheckWinner(g: Board, row: int, col: int): (w: WinSequence)
    requires Valid(g) && InBounds(g, row, col)
    ensures w.hasWinner <==> exists d :: d in Directions && FiveThrough(g, row, col, d, Get(g, row, col))
    ensures w.hasWinner ==> exists d, lo, hi :: WinningRun(g, row, col, d, lo, hi, w)
    ensures !w.hasWinner ==> w == NoWinner
  {
    var w := WinFrom(g, row, col, 0);
    assert forall d :: d in Directions <==> exists k :: 0 <= k < 4 && Directions[k] == d;
    w
  }
}
