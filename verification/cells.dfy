/** Coordinates, directions and row-major order shared by every part of the game. */
module Cells {

  /** A (row, col) pair; the source passes these as two `int`s or a `pair<int,int>`. */
  type Pos = (int, int)

  function Abs(x: int): int { if x < 0 then -x else x }

  function Min(a: int, b: int): int { if a <= b then a else b }

  /** The four line directions every scanner walks, in the order the source lists them:
      horizontal (0,1), vertical (1,0), diagonal (1,1) and anti-diagonal (-1,1). */
  datatype Dir = Horizontal | Vertical | Diagonal | AntiDiagonal

  const Directions: seq<Dir> := [Horizontal, Vertical, Diagonal, AntiDiagonal]

  /** The cell `t` steps from (r, c) along `d`; negative `t` walks backwards. */
  function CellAt(r: int, c: int, d: Dir, t: int): Pos
  {
    match d
    case Horizontal => (r, c + t)
    case Vertical => (r + t, c)
    case Diagonal => (r + t, c + t)
    case AntiDiagonal => (r - t, c + t)
  }

  /** Step `i` of a forward walk, or of the backward walk when `back` holds. */
  function Off(back: bool, i: int): int { if back then -i else i }

  /** (i, j) is at or after (r, c) in row-major order. */
  predicate AtOrAfter(i: int, j: int, r: int, c: int)
  {
    i > r || (i == r && j >= c)
  }

  /** `a` strictly precedes `b` in row-major (lexicographic) order. */
  predicate Before(a: Pos, b: Pos)
  {
    a.0 < b.0 || (a.0 == b.0 && a.1 < b.1)
  }

  /** (i, j) lies in the 3x3 block centred on (r, c). */
  predicate Near(i: int, j: int, r: int, c: int)
  {
    -1 <= i - r <= 1 && -1 <= j - c <= 1
  }
}
