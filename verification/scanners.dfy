/** The bot's line scanners `countSequence`, `countConsecutive` and `countOpenConsecutive`.
    Each walks at most four cells forward and four backward from (row, col); unlike the
    winner check, a walk does not stop at a cell off the board but skips it and goes on. */
module Scanners {
  import opened Cells
  import opened Grid
  import opened WinRay

  /** What one walk of a scanner reports: how many cells matched, and whether it stopped
      at an empty cell (an open end). */
  datatype HalfRun = HalfRun(count: nat, open: bool)

  /** The walk as the source's loop runs it, from step `i` up to step 4: an off-board
      cell is skipped, a matching cell is counted, an empty cell opens the end and stops
      the walk, anything else stops it closed. */
  function WalkFrom(g: Board, r: int, c: int, d: Dir, back: bool, sym: char, i: nat): HalfRun
    requires Valid(g) && 1 <= i <= 5
    decreases 5 - i
  {
    if i == 5 then HalfRun(0, false)
    else
      var p := CellAt(r, c, d, Off(back, i));
      if !InBounds(g, p.0, p.1) then WalkFrom(g, r, c, d, back, sym, i + 1)
      else if Get(g, p.0, p.1) == sym then
        var h := WalkFrom(g, r, c, d, back, sym, i + 1);
        HalfRun(h.count + 1, h.open)
      else if Get(g, p.0, p.1) == Empty then HalfRun(0, true)
      else HalfRun(0, false)
  }

  /** A straight walk that has left the board from a cell on it never comes back. */
  lemma OutStaysOut(g: Board, r: int, c: int, d: Dir, back: bool, i: int, j: int)
    requires InBounds(g, r, c) && 0 <= i <= j
    requires !InBounds(g, CellAt(r, c, d, Off(back, i)).0, CellAt(r, c, d, Off(back, i)).1)
    ensures !InBounds(g, CellAt(r, c, d, Off(back, j)).0, CellAt(r, c, d, Off(back, j)).1)
  {
  }

  /** Skipping off-board cells is the same as stopping at the first one: once step `i`
      is off the board, the rest of the walk finds nothing and no open end. */
  lemma {:induction false} NoReentry(g: Board, r: int, c: int, d: Dir, back: bool, sym: char, i: nat)
    requires Valid(g) && InBounds(g, r, c) && 1 <= i <= 5
    requires i < 5 ==> !InBounds(g, CellAt(r, c, d, Off(back, i)).0, CellAt(r, c, d, Off(back, i)).1)
    ensures WalkFrom(g, r, c, d, back, sym, i) == HalfRun(0, false)
    decreases 5 - i
  {
    if i < 5 {
      if i + 1 < 5 {
        OutStaysOut(g, r, c, d, back, i, i + 1);
      }
      NoReentry(g, r, c, d, back, sym, i + 1);
    }
  }

  /** Reference definition of an open end: the cell just past the run of `sym` next to
      (r, c) is within four steps, on the board and empty. */
  predicate OpenEnd(g: Board, r: int, c: int, d: Dir, back: bool, sym: char)
    requires Valid(g)
  {
    var k := RayLen(g, r, c, d, back, sym);
    var p := CellAt(r, c, d, Off(back, k + 1));
    k < 4 && InBounds(g, p.0, p.1) && Get(g, p.0, p.1) == Empty
  }

  /** The cell that ends the stopping walk from step `i` is open: on the board, empty,
      and within the four steps. */
  predicate EndOpenFrom(g: Board, r: int, c: int, d: Dir, back: bool, sym: char, i: nat)
    requires Valid(g) && 1 <= i <= 5
  {
    var k := RayFrom(g, r, c, d, back, sym, i);
    var p := CellAt(r, c, d, Off(back, i + k));
    i + k < 5 && InBounds(g, p.0, p.1) && Get(g, p.0, p.1) == Empty
  }

  /** Step `i` of a walk is off the board: the walk from there is empty and closed,
      and the stopping walk counts nothing and ends closed. */
  lemma WalkStepOut(g: Board, r: int, c: int, d: Dir, back: bool, sym: char, i: nat)
    requires Valid(g) && InBounds(g, r, c) && 1 <= i < 5
    requires !InBounds(g, CellAt(r, c, d, Off(back, i)).0, CellAt(r, c, d, Off(back, i)).1)
    ensures WalkFrom(g, r, c, d, back, sym, i) == HalfRun(0, false)
    ensures RayFrom(g, r, c, d, back, sym, i) == 0
    ensures !EndOpenFrom(g, r, c, d, back, sym, i)
  {
    NoReentry(g, r, c, d, back, sym, i);
  }

  /** Step `i` of a walk holds `sym`: both walks count it and go on. */
  lemma WalkStepMatch(g: Board, r: int, c: int, d: Dir, back: bool, sym: char, i: nat)
    requires Valid(g) && 1 <= i < 5
    requires Matches(g, r, c, d, Off(back, i), sym)
    ensures WalkFrom(g, r, c, d, back, sym, i).count == WalkFrom(g, r, c, d, back, sym, i + 1).count + 1
    ensures WalkFrom(g, r, c, d, back, sym, i).open == WalkFrom(g, r, c, d, back, sym, i + 1).open
    ensures RayFrom(g, r, c, d, back, sym, i) == RayFrom(g, r, c, d, back, sym, i + 1) + 1
    ensures EndOpenFrom(g, r, c, d, back, sym, i) == EndOpenFrom(g, r, c, d, back, sym, i + 1)
  {
    var k' := RayFrom(g, r, c, d, back, sym, i + 1);
    assert RayFrom(g, r, c, d, back, sym, i) == k' + 1;
    assert i + (k' + 1) == (i + 1) + k';
  }

  /** Step `i` of a walk is on the board but holds something else: both walks stop there,
      and both call the end open exactly when the cell is empty. */
  lemma WalkStepStop(g: Board, r: int, c: int, d: Dir, back: bool, sym: char, i: nat)
    requires Valid(g) && 1 <= i < 5
    requires InBounds(g, CellAt(r, c, d, Off(back, i)).0, CellAt(r, c, d, Off(back, i)).1)
    requires !Matches(g, r, c, d, Off(back, i), sym)
    ensures WalkFrom(g, r, c, d, back, sym, i).count == 0
    ensures RayFrom(g, r, c, d, back, sym, i) == 0
    ensures WalkFrom(g, r, c, d, back, sym, i).open == EndOpenFrom(g, r, c, d, back, sym, i)
  {
  }

  /** The skipping walk from step `i` counts exactly the run the stopping walk counts,
      and is open exactly when the cell that ends the run is on the board and empty. */
  lemma {:induction false} WalkFromIsRay(g: Board, r: int, c: int, d: Dir, back: bool, sym: char, i: nat)
    requires Valid(g) && InBounds(g, r, c) && 1 <= i <= 5
    ensures WalkFrom(g, r, c, d, back, sym, i).count == RayFrom(g, r, c, d, back, sym, i)
    ensures WalkFrom(g, r, c, d, back, sym, i).open <==> EndOpenFrom(g, r, c, d, back, sym, i)
    decreases 5 - i
  {
    if i < 5 {
      var p := CellAt(r, c, d, Off(back, i));
      if !InBounds(g, p.0, p.1) {
        WalkStepOut(g, r, c, d, back, sym, i);
      } else if Matches(g, r, c, d, Off(back, i), sym) {
        WalkStepMatch(g, r, c, d, back, sym, i);
        WalkFromIsRay(g, r, c, d, back, sym, i + 1);
      } else {
        WalkStepStop(g, r, c, d, back, sym, i);
      }
    }
  }

  /** One whole walk from step 1. */
  function Walk(g: Board, r: int, c: int, d: Dir, back: bool, sym: char): (h: HalfRun)
    requires Valid(g) && InBounds(g, r, c)
    ensures h.count == RayLen(g, r, c, d, back, sym)
    ensures h.open <==> OpenEnd(g, r, c, d, back, sym)
  {
    WalkFromIsRay(g, r, c, d, back, sym, 1);
    WalkFrom(g, r, c, d, back, sym, 1)
  }

  /** The length of the run of `sym` along `d` on both sides of (r, c), not counting
      (r, c) itself. */
  function RunLength(g: Board, r: int, c: int, d: Dir, sym: char): nat
    requires Valid(g)
  {
    RayLen(g, r, c, d, false, sym) + RayLen(g, r, c, d, true, sym)
  }

  /** `countSequence(row, col, dir, symbol)`: the matching cells on both sides of
      (row, col) along `d`, at most four each way. */
  function CountSequence(g: Board, row: int, col: int, d: Dir, sym: char): (n: nat)
    requires Valid(g) && InBounds(g, row, col)
    ensures n == RunLength(g, row, col, d, sym)
    ensures n <= 8
  {
    Walk(g, row, col, d, false, sym).count + Walk(g, row, col, d, true, sym).count
  }

  /** The two score tables: `finalProject.cpp` and `sapfinal.cpp` differ only in the
      count-of-four tier. */
  datatype Variant = Fixed | Dynamic

  /** The run-and-open-ends shapes the table scores; every other shape scores 0. */
  predicate Scored(count: nat, openEnds: nat)
  {
    count >= 4 || ((count == 2 || count == 3) && (openEnds == 1 || openEnds == 2))
  }

  /** The score table of `countConsecutive`, for the bot's own symbol when `own` holds and
      for the opponent's otherwise. In both tables a run of four or more outweighs every
      shorter shape, for either side: shorter runs stay within -900 .. 700. */
  function Tier(v: Variant, count: nat, openEnds: nat, own: bool): (s: int)
    ensures s != 0 <==> Scored(count, openEnds)
    ensures own ==> s >= 0
    ensures !own ==> s <= 0
    ensures count >= 4 ==> s == (match v
      case Fixed => if own then 1000 else -1500
      case Dynamic => if own then 1100 else -1000)
    ensures count < 4 ==> -900 <= s <= 700
  {
    if count >= 4 then
      match v
      case Fixed => if own then 1000 else -1500
      case Dynamic => if own then 1100 else -1000
    else if count == 3 && openEnds == 2 then (if own then 700 else -900)
    else if count == 3 && openEnds == 1 then (if own then 500 else -600)
    else if count == 2 && openEnds == 2 then (if own then 200 else -200)
    else if count == 2 && openEnds == 1 then (if own then 100 else -100)
    else 0
  }

  /** The number of open ends of the run through (row, col) along `d`. */
  function OpenEnds(g: Board, row: int, col: int, d: Dir, sym: char): (n: nat)
    requires Valid(g)
    ensures n <= 2
  {
    (if OpenEnd(g, row, col, d, false, sym) then 1 else 0) + (if OpenEnd(g, row, col, d, true, sym) then 1 else 0)
  }

  /** `countConsecutive(row, col, dir, symbol)`: the table score of the run through
      (row, col) along `d` and its open ends, signed by whether `sym` is the bot's. */
  function CountConsecutive(g: Board, v: Variant, bot: char, row: int, col: int, d: Dir, sym: char): (s: int)
    requires Valid(g) && InBounds(g, row, col)
    ensures s == Tier(v, RunLength(g, row, col, d, sym), OpenEnds(g, row, col, d, sym), sym == bot)
  {
    var f := Walk(g, row, col, d, false, sym);
    var b := Walk(g, row, col, d, true, sym);
    var count := f.count + b.count;
    var openEnds := (if f.open then 1 else 0) + (if b.open then 1 else 0);
    Tier(v, count, openEnds, sym == bot)
  }

  /** A direction counts for `countOpenConsecutive` when its run has an open end. */
  predicate Qualifies(g: Board, row: int, col: int, d: Dir, sym: char)
    requires Valid(g)
  {
    OpenEnd(g, row, col, d, false, sym) || OpenEnd(g, row, col, d, true, sym)
  }

  /** One direction's contribution to `countOpenConsecutive`: the run through (row, col)
      when one of its ends is open, 0 otherwise. */
  function OpenRun(g: Board, row: int, col: int, d: Dir, sym: char): (n: nat)
    requires Valid(g) && InBounds(g, row, col)
    ensures Qualifies(g, row, col, d, sym) ==> n == RunLength(g, row, col, d, sym)
    ensures !Qualifies(g, row, col, d, sym) ==> n == 0
  {
    var f := Walk(g, row, col, d, false, sym);
    var b := Walk(g, row, col, d, true, sym);
    if b.open || f.open then f.count + b.count else 0
  }

  /** `countOpenConsecutive(row, col, symbol)`: the longest run through (row, col) over
      the directions with at least one open end, and 0 when none has one. The source's
      running `max` over the four directions, starting from 0, is the maximum of the four
      contributions. */
  function CountOpenConsecutive(g: Board, row: int, col: int, sym: char): (m: nat)
    requires Valid(g) && InBounds(g, row, col)
    ensures m <= 8
    ensures Qualifies(g, row, col, Horizontal, sym) ==> RunLength(g, row, col, Horizontal, sym) <= m
    ensures Qualifies(g, row, col, Vertical, sym) ==> RunLength(g, row, col, Vertical, sym) <= m
    ensures Qualifies(g, row, col, Diagonal, sym) ==> RunLength(g, row, col, Diagonal, sym) <= m
    ensures Qualifies(g, row, col, AntiDiagonal, sym) ==> RunLength(g, row, col, AntiDiagonal, sym) <= m
    ensures m == 0 ||
      (Qualifies(g, row, col, Horizontal, sym) && RunLength(g, row, col, Horizontal, sym) == m) ||
      (Qualifies(g, row, col, Vertical, sym) && RunLength(g, row, col, Vertical, sym) == m) ||
      (Qualifies(g, row, col, Diagonal, sym) && RunLength(g, row, col, Diagonal, sym) == m) ||
      (Qualifies(g, row, col, AntiDiagonal, sym) && RunLength(g, row, col, AntiDiagonal, sym) == m)
  {
    var h := OpenRun(g, row, col, Horizontal, sym);
    var v := OpenRun(g, row, col, Vertical, sym);
    var di := OpenRun(g, row, col, Diagonal, sym);
    var an := OpenRun(g, row, col, AntiDiagonal, sym);
    var hv := if v > h then v else h;
    var hvd := if di > hv then di else hv;
    if an > hvd then an else hvd
  }
}
