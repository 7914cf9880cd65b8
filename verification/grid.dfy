/** The `Grid` class: a `rows x cols` board of characters, ' ' for an empty cell and
    'O' / 'X' for the two players' symbols. */
module Grid {
  import opened Cells

  const Empty: char := ' '

  datatype Board = Board(rows: nat, cols: nat, cells: seq<seq<char>>)

  /** The vector-of-vectors really has `rows` rows of `cols` cells each. */
  predicate Valid(g: Board)
  {
    |g.cells| == g.rows && forall i :: 0 <= i < g.rows ==> |g.cells[i]| == g.cols
  }

  predicate InBounds(g: Board, r: int, c: int)
  {
    0 <= r < g.rows && 0 <= c < g.cols
  }

  /** `getCell`. */
  function Get(g: Board, r: int, c: int): char
    requires Valid(g) && InBounds(g, r, c)
  {
    g.cells[r][c]
  }

  /** `isCellEmpty`. */
  predicate IsCellEmpty(g: Board, r: int, c: int)
    requires Valid(g) && InBounds(g, r, c)
  {
    Get(g, r, c) == Empty
  }

  /** The constructor `Grid(n, m)`: every cell starts empty. */
  function NewBoard(n: nat, m: nat): (g: Board)
    ensures Valid(g) && g.rows == n && g.cols == m
    ensures forall r, c :: InBounds(g, r, c) ==> Get(g, r, c) == Empty
  {
    Board(n, m, seq(n, _ => seq(m, _ => Empty)))
  }

  /** `clearGrid`: same shape, every cell reset to empty. */
  function ClearGrid(g: Board): (g': Board)
    requires Valid(g)
    ensures Valid(g') && g'.rows == g.rows && g'.cols == g.cols
    ensures forall r, c :: InBounds(g', r, c) ==> IsCellEmpty(g', r, c)
  {
    Board(g.rows, g.cols, seq(g.rows, i requires 0 <= i < g.rows => seq(g.cols, _ => Empty)))
  }

  /** `setCell`: writes `s` into (r, c) and into no other cell. */
  function SetCell(g: Board, r: int, c: int, s: char): (g': Board)
    requires Valid(g) && InBounds(g, r, c)
    ensures Valid(g') && g'.rows == g.rows && g'.cols == g.cols
    ensures Get(g', r, c) == s
    ensures forall i, j :: InBounds(g, i, j) && (i != r || j != c) ==> Get(g', i, j) == Get(g, i, j)
  {
    Board(g.rows, g.cols, g.cells[r := g.cells[r][c := s]])
  }

  /** Two valid boards of one shape that agree on every cell are the same board. */
  lemma SameCells(a: Board, b: Board)
    requires Valid(a) && Valid(b) && a.rows == b.rows && a.cols == b.cols
    requires forall i, j :: InBounds(a, i, j) ==> Get(a, i, j) == Get(b, i, j)
    ensures a == b
  {
    forall i | 0 <= i < a.rows
      ensures a.cells[i] == b.cells[i]
    {
      forall j | 0 <= j < a.cols
        ensures a.cells[i][j] == b.cells[i][j]
      {
        assert Get(a, i, j) == Get(b, i, j);
      }
    }
  }

  /** Place-then-undo: writing a cell and then writing its old content back restores
      the board exactly, which is how search and threat detection leave the grid unchanged. */
  lemma UndoRestores(g: Board, r: int, c: int, s: char)
    requires Valid(g) && InBounds(g, r, c)
    ensures SetCell(SetCell(g, r, c, s), r, c, Get(g, r, c)) == g
  {
    SameCells(SetCell(SetCell(g, r, c, s), r, c, Get(g, r, c)), g);
  }

  /** Writing back the symbol a cell already holds leaves the board as it was, which is
      why a second `setCell(r, c, ' ')` on an undone cell changes nothing. */
  lemma WriteBackIsNoop(g: Board, r: int, c: int)
    requires Valid(g) && InBounds(g, r, c)
    ensures SetCell(g, r, c, Get(g, r, c)) == g
  {
    SameCells(SetCell(g, r, c, Get(g, r, c)), g);
  }

  /** `isFull`, scanning row-major from (r, c) and stopping at the first empty cell. */
  function FullFrom(g: Board, r: nat, c: nat): (full: bool)
    requires Valid(g) && r <= g.rows && c <= g.cols
    ensures full <==> forall i, j :: InBounds(g, i, j) && AtOrAfter(i, j, r, c) ==> Get(g, i, j) != Empty
    decreases g.rows - r, g.cols - c
  {
    if r == g.rows then true
    else if c == g.cols then FullFrom(g, r + 1, 0)
    else Get(g, r, c) != Empty && FullFrom(g, r, c + 1)
  }

  /** `isFull`: holds iff no cell is empty. */
  function IsFull(g: Board): (full: bool)
    requires Valid(g)
    ensures full <==> forall i, j :: InBounds(g, i, j) ==> Get(g, i, j) != Empty
  {
    FullFrom(g, 0, 0)
  }

  /** The empty cells at or after (r, c) in row-major order. */
  ghost function EmptyCellsFrom(g: Board, r: int, c: int): set<Pos>
    requires Valid(g)
  {
    set i, j | 0 <= i < g.rows && 0 <= j < g.cols && AtOrAfter(i, j, r, c) && g.cells[i][j] == Empty :: (i, j)
  }

  /** The set of all empty cells. */
  ghost function EmptyCells(g: Board): set<Pos>
    requires Valid(g)
  {
    EmptyCellsFrom(g, 0, 0)
  }

  lemma EmptyCellsStep(g: Board, r: nat, c: nat)
    requires Valid(g) && r < g.rows && c < g.cols
    ensures (r, c) !in EmptyCellsFrom(g, r, c + 1)
    ensures EmptyCellsFrom(g, r, c) ==
      EmptyCellsFrom(g, r, c + 1) + (if Get(g, r, c) == Empty then {(r, c)} else {})
  {
  }

  lemma EmptyCellsRowEnd(g: Board, r: nat)
    requires Valid(g) && r < g.rows
    ensures EmptyCellsFrom(g, r, g.cols) == EmptyCellsFrom(g, r + 1, 0)
  {
  }

  /** `countEmptyCells`, accumulated row-major from (r, c). */
  function CountEmptyFrom(g: Board, r: nat, c: nat): (n: nat)
    requires Valid(g) && r <= g.rows && c <= g.cols
    ensures n == |EmptyCellsFrom(g, r, c)|
    decreases g.rows - r, g.cols - c
  {
    if r == g.rows then
      assert EmptyCellsFrom(g, r, c) == {};
      0
    else if c == g.cols then
      EmptyCellsRowEnd(g, r);
      CountEmptyFrom(g, r + 1, 0)
    else
      EmptyCellsStep(g, r, c);
      (if Get(g, r, c) == Empty then 1 else 0) + CountEmptyFrom(g, r, c + 1)
  }

  /** `countEmptyCells`: the number of cells holding ' '. */
  function CountEmptyCells(g: Board): (n: nat)
    requires Valid(g)
    ensures n == |EmptyCells(g)|
  {
    CountEmptyFrom(g, 0, 0)
  }

  /** `isFull()` holds exactly when `countEmptyCells()` is zero. */
  lemma FullIffNoEmptyCells(g: Board)
    requires Valid(g)
    ensures IsFull(g) <==> CountEmptyCells(g) == 0
  {
    if !IsFull(g) {
      var i, j :| InBounds(g, i, j) && Get(g, i, j) == Empty;
      assert (i, j) in EmptyCells(g);
    }
  }

  /** Writing a player symbol into an empty cell removes exactly that cell from the empty
      cells, so the empty count drops by one (the occupied count rises by one). */
  lemma PlaceCountsDown(g: Board, r: int, c: int, s: char)
    requires Valid(g) && InBounds(g, r, c) && Get(g, r, c) == Empty && s != Empty
    ensures EmptyCells(SetCell(g, r, c, s)) == EmptyCells(g) - {(r, c)}
    ensures CountEmptyCells(SetCell(g, r, c, s)) == CountEmptyCells(g) - 1
  {
    var g' := SetCell(g, r, c, s);
    assert (r, c) in EmptyCells(g);
    forall p | p in EmptyCells(g')
      ensures p in EmptyCells(g) - {(r, c)}
    {
      assert Get(g', p.0, p.1) == Empty;
    }
    forall p | p in EmptyCells(g) - {(r, c)}
      ensures p in EmptyCells(g')
    {
      assert Get(g, p.0, p.1) == Empty;
    }
  }
}
