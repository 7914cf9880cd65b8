/** `getCandidateMoves`: the empty cells next to (in the 8-neighbourhood of) some stone.
    `finalProject.cpp` collects them in a `std::set` and returns them in the set's order;
    `sapfinal.cpp` appends them to a `vector` as it meets them, so a cell next to several
    stones appears several times. */
module Candidates {
  import opened Cells
  import opened Grid

  /** (i, j) is next to or on some stone. */
  ghost predicate HasStoneNear(g: Board, i: int, j: int)
    requires Valid(g)
  {
    exists r, c :: InBounds(g, r, c) && Near(r, c, i, j) && Get(g, r, c) != Empty
  }

  /** Reference definition of a candidate move: an empty cell on the board next to a stone. */
  ghost predicate IsCandidate(g: Board, i: int, j: int)
    requires Valid(g)
  {
    InBounds(g, i, j) && Get(g, i, j) == Empty && HasStoneNear(g, i, j)
  }

  /** The inner `dc` loop for one `dr`, from offset `dc` to 1: the empty board cells
      (r + dr, c + dc .. c + 1) in that order. */
  function NeighbourCols(g: Board, r: int, c: int, dr: int, dc: int): (s: seq<Pos>)
    requires Valid(g) && -1 <= dc <= 2
    ensures forall p :: p in s <==>
      p.0 == r + dr && dc <= p.1 - c <= 1 && InBounds(g, p.0, p.1) && Get(g, p.0, p.1) == Empty
    decreases 2 - dc
  {
    if dc == 2 then []
    else
      var nr := r + dr;
      var nc := c + dc;
      (if InBounds(g, nr, nc) && IsCellEmpty(g, nr, nc) then [(nr, nc)] else []) + NeighbourCols(g, r, c, dr, dc + 1)
  }

  /** The `dr` loop from offset `dr` to 1. */
  function NeighbourRows(g: Board, r: int, c: int, dr: int): (s: seq<Pos>)
    requires Valid(g) && -1 <= dr <= 2
    ensures forall p :: p in s <==>
      dr <= p.0 - r <= 1 && -1 <= p.1 - c <= 1 && InBounds(g, p.0, p.1) && Get(g, p.0, p.1) == Empty
    decreases 2 - dr
  {
    if dr == 2 then [] else NeighbourCols(g, r, c, dr, -1) + NeighbourRows(g, r, c, dr + 1)
  }

  /** The empty board cells of the 3x3 block around (r, c), in the order the two offset
      loops visit them. */
  function Neighbours(g: Board, r: int, c: int): (s: seq<Pos>)
    requires Valid(g)
    ensures forall p :: p in s <==> Near(p.0, p.1, r, c) && InBounds(g, p.0, p.1) && Get(g, p.0, p.1) == Empty
  {
    NeighbourRows(g, r, c, -1)
  }

  /** Some stone at or after (r, c) in row-major order is next to (i, j). */
  ghost predicate StoneNearFrom(g: Board, i: int, j: int, r: int, c: int)
    requires Valid(g)
  {
    exists a, b :: InBounds(g, a, b) && AtOrAfter(a, b, r, c) && Get(g, a, b) != Empty && Near(a, b, i, j)
  }

  /** The stones at or after (r, c) are those at (r, c), if any, and those at or after the
      next cell. */
  lemma StoneNearStep(g: Board, i: int, j: int, r: nat, c: nat)
    requires Valid(g) && r < g.rows && c < g.cols
    ensures StoneNearFrom(g, i, j, r, c) <==>
      (Get(g, r, c) != Empty && Near(r, c, i, j)) || StoneNearFrom(g, i, j, r, c + 1)
  {
    if StoneNearFrom(g, i, j, r, c) {
      var a, b :| InBounds(g, a, b) && AtOrAfter(a, b, r, c) && Get(g, a, b) != Empty && Near(a, b, i, j);
      if (a, b) != (r, c) {
        assert AtOrAfter(a, b, r, c + 1);
      }
    }
  }

  /** Past the end of a row the scan goes on at the start of the next. */
  lemma StoneNearRowEnd(g: Board, i: int, j: int, r: nat)
    requires Valid(g) && r < g.rows
    ensures StoneNearFrom(g, i, j, r, g.cols) <==> StoneNearFrom(g, i, j, r + 1, 0)
  {
    if StoneNearFrom(g, i, j, r, g.cols) {
      var a, b :| InBounds(g, a, b) && AtOrAfter(a, b, r, g.cols) && Get(g, a, b) != Empty && Near(a, b, i, j);
      assert AtOrAfter(a, b, r + 1, 0);
    }
  }

  /** The vector version's double loop from (r, c) on: for each stone, its empty
      neighbours, repeats included. */
  function CandidateListFrom(g: Board, r: nat, c: nat): (s: seq<Pos>)
    requires Valid(g) && r <= g.rows && c <= g.cols
    ensures forall p :: p in s <==>
      InBounds(g, p.0, p.1) && Get(g, p.0, p.1) == Empty && StoneNearFrom(g, p.0, p.1, r, c)
    decreases g.rows - r, g.cols - c
  {
    if r == g.rows then
      []
    else if c == g.cols then
      var s := CandidateListFrom(g, r + 1, 0);
      assert forall p: Pos :: StoneNearFrom(g, p.0, p.1, r, c) <==> StoneNearFrom(g, p.0, p.1, r + 1, 0) by {
        forall p: Pos ensures StoneNearFrom(g, p.0, p.1, r, c) <==> StoneNearFrom(g, p.0, p.1, r + 1, 0) {
          StoneNearRowEnd(g, p.0, p.1, r);
        }
      }
      s
    else
      var here := if Get(g, r, c) != Empty then Neighbours(g, r, c) else [];
      var s := here + CandidateListFrom(g, r, c + 1);
      assert forall p :: p in s <==>
        InBounds(g, p.0, p.1) && Get(g, p.0, p.1) == Empty && StoneNearFrom(g, p.0, p.1, r, c) by {
        forall p: Pos ensures p in s <==>
          InBounds(g, p.0, p.1) && Get(g, p.0, p.1) == Empty && StoneNearFrom(g, p.0, p.1, r, c) {
          StoneNearStep(g, p.0, p.1, r, c);
          assert Near(r, c, p.0, p.1) <==> Near(p.0, p.1, r, c);
        }
      }
      s
  }

  /** A stone anywhere on the board is a stone at or after (0, 0). */
  lemma StoneNearFromStart(g: Board, i: int, j: int)
    requires Valid(g)
    ensures StoneNearFrom(g, i, j, 0, 0) <==> HasStoneNear(g, i, j)
  {
    if HasStoneNear(g, i, j) {
      var a, b :| InBounds(g, a, b) && Near(a, b, i, j) && Get(g, a, b) != Empty;
      assert AtOrAfter(a, b, 0, 0);
    }
  }

  /** `getCandidateMoves` of `sapfinal.cpp`: every element is a candidate and every
      candidate appears (possibly more than once). */
  function CandidateList(g: Board): (s: seq<Pos>)
    requires Valid(g)
    ensures forall p :: p in s <==> IsCandidate(g, p.0, p.1)
  {
    var s := CandidateListFrom(g, 0, 0);
    assert forall p :: p in s <==> IsCandidate(g, p.0, p.1) by {
      forall p: Pos ensures p in s <==> IsCandidate(g, p.0, p.1) {
        StoneNearFromStart(g, p.0, p.1);
      }
    }
    s
  }

  /** The `std::set` the `finalProject.cpp` version fills from (r, c) on: each stone's
      empty neighbours are inserted, so a cell is kept once however often it is met. */
  function CandidateSetFrom(g: Board, r: nat, c: nat): (s: set<Pos>)
    requires Valid(g) && r <= g.rows && c <= g.cols
    ensures forall p :: p in s <==> p in CandidateListFrom(g, r, c)
    decreases g.rows - r, g.cols - c
  {
    if r == g.rows then {}
    else if c == g.cols then CandidateSetFrom(g, r + 1, 0)
    else
      (if Get(g, r, c) != Empty then set p | p in Neighbours(g, r, c) else {}) + CandidateSetFrom(g, r, c + 1)
  }

  /** The cells of `S` at or after (r, c), in row-major order: the iteration order of a
      `std::set<pair<int,int>>` holding board cells. */
  function InOrderFrom(g: Board, S: set<Pos>, r: nat, c: nat): (s: seq<Pos>)
    requires Valid(g) && r <= g.rows && c <= g.cols
    ensures forall p :: p in s <==> p in S && InBounds(g, p.0, p.1) && AtOrAfter(p.0, p.1, r, c)
    ensures forall a, b :: 0 <= a < b < |s| ==> Before(s[a], s[b])
    decreases g.rows - r, g.cols - c
  {
    if r == g.rows then []
    else if c == g.cols then InOrderFrom(g, S, r + 1, 0)
    else
      var rest := InOrderFrom(g, S, r, c + 1);
      if (r, c) in S then
        var s := [(r, c)] + rest;
        assert forall b :: 0 < b < |s| ==> Before(s[0], s[b]) by {
          forall b | 0 < b < |s| ensures Before(s[0], s[b]) {
            assert s[b] in rest;
          }
        }
        s
      else rest
  }

  /** `getCandidateMoves` of `finalProject.cpp`: exactly the candidates, each once, in
      increasing (row, col) order. */
  function CandidateMoves(g: Board): (s: seq<Pos>)
    requires Valid(g)
    ensures forall p :: p in s <==> IsCandidate(g, p.0, p.1)
    ensures forall a, b :: 0 <= a < b < |s| ==> Before(s[a], s[b])
  {
    var S := CandidateSetFrom(g, 0, 0);
    var s := InOrderFrom(g, S, 0, 0);
    assert forall p :: p in s <==> IsCandidate(g, p.0, p.1) by {
      forall p: Pos ensures p in s <==> IsCandidate(g, p.0, p.1) {
        StoneNearFromStart(g, p.0, p.1);
      }
    }
    s
  }

  /** A strictly increasing list holds no cell twice. */
  lemma IncreasingHasNoRepeats(s: seq<Pos>)
    requires forall a, b :: 0 <= a < b < |s| ==> Before(s[a], s[b])
    ensures forall a, b :: 0 <= a < b < |s| ==> s[a] != s[b]
  {
  }

  /** The two versions offer the same moves; they differ only in order and repeats. */
  lemma SameMoves(g: Board, p: Pos)
    requires Valid(g)
    ensures p in CandidateMoves(g) <==> p in CandidateList(g)
  {
  }

  /** Stone at (row, a) and an empty cell at (row, b): some empty cell of the row lies
      next to a stone of the row, and is therefore a candidate. */
  lemma {:induction false} RowFrontier(g: Board, row: int, a: int, b: int) returns (j: int)
    requires Valid(g) && InBounds(g, row, a) && InBounds(g, row, b)
    requires Get(g, row, a) != Empty && Get(g, row, b) == Empty
    ensures IsCandidate(g, row, j)
    decreases Abs(b - a)
  {
    var m := if a < b then a + 1 else a - 1;
    if Get(g, row, m) == Empty {
      assert Near(row, a, row, m);
      j := m;
    } else {
      j := RowFrontier(g, row, m, b);
    }
  }

  /** The same argument along a column. */
  lemma {:induction false} ColumnFrontier(g: Board, col: int, a: int, b: int) returns (i: int)
    requires Valid(g) && InBounds(g, a, col) && InBounds(g, b, col)
    requires Get(g, a, col) != Empty && Get(g, b, col) == Empty
    ensures IsCandidate(g, i, col)
    decreases Abs(b - a)
  {
    var m := if a < b then a + 1 else a - 1;
    if Get(g, m, col) == Empty {
      assert Near(a, col, m, col);
      i := m;
    } else {
      i := ColumnFrontier(g, col, m, b);
    }
  }

  /** A board holding at least one stone and at least one empty cell always offers a
      candidate move; the empty board offers none. So both versions are empty exactly on
      the empty board and the full board. */
  lemma CandidatesExistIff(g: Board)
    requires Valid(g)
    ensures (exists i, j :: IsCandidate(g, i, j)) <==>
      (exists a, b :: InBounds(g, a, b) && Get(g, a, b) != Empty) &&
      (exists x, y :: InBounds(g, x, y) && Get(g, x, y) == Empty)
  {
    if (exists a, b :: InBounds(g, a, b) && Get(g, a, b) != Empty) &&
       (exists x, y :: InBounds(g, x, y) && Get(g, x, y) == Empty) {
      var a, b :| InBounds(g, a, b) && Get(g, a, b) != Empty;
      var x, y :| InBounds(g, x, y) && Get(g, x, y) == Empty;
      if Get(g, a, y) == Empty {
        var j := RowFrontier(g, a, b, y);
        assert IsCandidate(g, a, j);
      } else {
        var i := ColumnFrontier(g, y, a, x);
        assert IsCandidate(g, i, y);
      }
    }
  }
}
