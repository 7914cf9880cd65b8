/** The bot's look-ahead search on the grid: `minimax` tries the candidate moves of each
    position in turn, the bot's symbol when maximizing and the opponent's when
    minimizing, down to `depth` plies or a full grid, where `evaluateGrid` scores the
    position. The positions it can visit form a game tree, and `minimax` is alpha-beta
    pruning over that tree. */
module Search {
  import opened Cells
  import opened Grid
  import opened Players
  import opened Evaluator
  import opened Scanners
  import opened Candidates
  import opened GameTree

  /** The candidate moves as each program produces them: the sorted, repeat-free contents
      of the `std::set` in `finalProject.cpp`, the discovery-order `vector` in
      `sapfinal.cpp`. */
  function Moves(g: Board, v: Variant): (s: seq<Pos>)
    requires Valid(g)
    ensures forall k :: 0 <= k < |s| ==> InBounds(g, s[k].0, s[k].1) && Get(g, s[k].0, s[k].1) == Empty
  {
    var s := match v case Fixed => CandidateMoves(g) case Dynamic => CandidateList(g);
    assert forall k :: 0 <= k < |s| ==> s[k] in s;
    s
  }

  /** Either way the moves are exactly the candidate cells. */
  lemma MovesAreCandidates(g: Board, v: Variant)
    requires Valid(g)
    ensures forall p :: p in Moves(g, v) <==> IsCandidate(g, p.0, p.1)
  {
  }

  /** What the search needs from a bot: its symbol and its opponent's, the moves it
      tries in a position, and the score it gives a position at the end of the
      look-ahead. */
  datatype Searcher = Searcher(bot: char, opp: char, moves: Board -> seq<Pos>, eval: Board -> int)

  /** The move generator only proposes empty cells of the grid it is given. */
  ghost predicate ProposesEmptyCells(s: Searcher)
  {
    forall b: Board, k: int {:trigger s.moves(b)[k]} :: Valid(b) && 0 <= k < |s.moves(b)| ==>
      InBounds(b, s.moves(b)[k].0, s.moves(b)[k].1) && Get(b, s.moves(b)[k].0, s.moves(b)[k].1) == Empty
  }

  /** The searcher `makeMove` uses: the bot's candidate moves and `evaluateGrid`. */
  function SearcherOf(cfg: BotConfig): (s: Searcher)
    ensures ProposesEmptyCells(s)
  {
    Searcher(cfg.bot, Opponent(cfg),
             b => if Valid(b) then Moves(b, cfg.variant) else [],
             b => if Valid(b) then EvaluateGrid(b, cfg) else 0)
  }

  /** On a valid grid the bot's searcher tries exactly the candidate cells and scores
      with `evaluateGrid`. */
  lemma SearcherOfMeans(cfg: BotConfig, g: Board)
    requires Valid(g)
    ensures SearcherOf(cfg).bot == cfg.bot && SearcherOf(cfg).opp == Opponent(cfg)
    ensures SearcherOf(cfg).moves(g) == Moves(g, cfg.variant)
    ensures forall p :: p in SearcherOf(cfg).moves(g) <==> IsCandidate(g, p.0, p.1)
    ensures SearcherOf(cfg).eval(g) == EvaluateGrid(g, cfg)
  {
    MovesAreCandidates(g, cfg.variant);
  }

  /** The symbol played at a node: the bot's when maximizing, the opponent's otherwise. */
  function Mover(s: Searcher, isMax: bool): char
  {
    if isMax then s.bot else s.opp
  }

  /** The positions `minimax(depth, isMaximizing, ...)` can reach from `g`: a leaf scored
      by `evaluateGrid` once the grid is full or the depth is used up, and otherwise one
      subtree per candidate move, in the order the moves are tried. */
  function SearchTree(g: Board, s: Searcher, depth: nat, isMax: bool): Tree
    requires Valid(g) && ProposesEmptyCells(s)
    decreases depth, 1
  {
    if IsFull(g) || depth == 0 then Leaf(s.eval(g))
    else
      Node(seq(|s.moves(g)|, k requires 0 <= k < |s.moves(g)| => Child(g, s, depth, isMax, k)))
  }

  /** The subtree after move `k`: the mover's symbol is played there and the search goes
      one level shallower with the other side to move. */
  function Child(g: Board, s: Searcher, depth: nat, isMax: bool, k: int): Tree
    requires Valid(g) && ProposesEmptyCells(s) && 1 <= depth && 0 <= k < |s.moves(g)|
    decreases depth, 0
  {
    var m := s.moves(g)[k];
    SearchTree(SetCell(g, m.0, m.1, Mover(s, isMax)), s, depth - 1, !isMax)
  }

  /** `minimax(depth, isMaximizing, alpha, beta)`: alpha-beta pruning over the positions
      reachable from `g`. In any window with alpha below beta it is sound for the value of
      the position's game tree, and with the window `makeMove` opens it is exactly that
      value: pruning loses nothing. */
  function Minimax(g: Board, s: Searcher, depth: nat, isMax: bool, alpha: Score, beta: Score): (r: Score)
    requires Valid(g) && ProposesEmptyCells(s)
    ensures Lt(alpha, beta) ==> Sound(r, Value(SearchTree(g, s, depth, isMax), isMax), alpha, beta)
    ensures alpha == NegInf && beta == PosInf ==> r == Value(SearchTree(g, s, depth, isMax), isMax)
  {
    var t := SearchTree(g, s, depth, isMax);
    AlphaBetaExact(t, isMax);
    var r := AlphaBeta(t, isMax, alpha, beta);
    assert Lt(alpha, beta) ==> Sound(r, Value(t, isMax), alpha, beta) by {
      if Lt(alpha, beta) {
        AlphaBetaSound(t, isMax, alpha, beta);
      }
    }
    r
  }

  /** The tree's shape, one level at a time: a leaf exactly when the grid is full or the
      depth is used up, scored by the evaluation; otherwise one child per move, reached by
      playing the mover's symbol there. */
  lemma SearchTreeShape(g: Board, s: Searcher, depth: nat, isMax: bool)
    requires Valid(g) && ProposesEmptyCells(s)
    ensures SearchTree(g, s, depth, isMax).Leaf? <==> IsFull(g) || depth == 0
    ensures SearchTree(g, s, depth, isMax).Leaf? ==> SearchTree(g, s, depth, isMax).v == s.eval(g)
    ensures SearchTree(g, s, depth, isMax).Node? ==>
      var moves := s.moves(g);
      var kids := SearchTree(g, s, depth, isMax).kids;
      |kids| == |moves| &&
      forall k :: 0 <= k < |moves| ==>
        kids[k] == SearchTree(SetCell(g, moves[k].0, moves[k].1, Mover(s, isMax)), s, depth - 1, !isMax)
  {
  }

  /** At a leaf `minimax` returns the evaluation whatever the window. */
  lemma MinimaxAtLeaf(g: Board, s: Searcher, depth: nat, isMax: bool, alpha: Score, beta: Score)
    requires Valid(g) && ProposesEmptyCells(s) && (IsFull(g) || depth == 0)
    ensures Minimax(g, s, depth, isMax, alpha, beta) == Fin(s.eval(g))
  {
  }

  /** The grid holds at least one stone. */
  ghost predicate HasStone(g: Board)
    requires Valid(g)
  {
    exists a, b :: InBounds(g, a, b) && Get(g, a, b) != Empty
  }

  /** Playing a stone leaves a stone on the grid. */
  lemma PlacedStone(g: Board, r: int, c: int, sym: char)
    requires Valid(g) && InBounds(g, r, c) && sym != Empty
    ensures HasStone(SetCell(g, r, c, sym))
  {
    assert Get(SetCell(g, r, c, sym), r, c) != Empty;
  }

  /** The move generator proposes a move on every grid that has a stone and an empty
      cell, and both players' symbols are stones. */
  ghost predicate NeverStuck(s: Searcher)
  {
    s.bot != Empty && s.opp != Empty &&
    forall b: Board {:trigger s.moves(b)} :: Valid(b) && HasStone(b) && !IsFull(b) ==> |s.moves(b)| > 0
  }

  /** Once a stone is on the grid, every position the search reaches that is not full has
      a move: the search never meets a node without moves. */
  lemma {:induction false} NodesHaveMoves(g: Board, s: Searcher, depth: nat, isMax: bool)
    requires Valid(g) && ProposesEmptyCells(s) && NeverStuck(s) && HasStone(g)
    ensures AllNodesHaveKids(SearchTree(g, s, depth, isMax))
    decreases depth, 1
  {
    var t := SearchTree(g, s, depth, isMax);
    if IsFull(g) || depth == 0 {
      LeafPosition(g, s, depth, isMax);
    } else {
      NodeHasKids(g, s, depth, isMax);
      forall k | 0 <= k < |t.kids|
        ensures AllNodesHaveKids(t.kids[k])
      {
        var child := ChildPosition(g, s, depth, isMax, k);
        NodesHaveMoves(child, s, depth - 1, !isMax);
      }
      KidsHaveKids(t);
    }
  }

  /** A full grid or an exhausted depth is a leaf. */
  lemma LeafPosition(g: Board, s: Searcher, depth: nat, isMax: bool)
    requires Valid(g) && ProposesEmptyCells(s) && (IsFull(g) || depth == 0)
    ensures AllNodesHaveKids(SearchTree(g, s, depth, isMax))
  {
  }

  /** Inside the look-ahead, a grid with a stone and an empty cell is a node with at least
      one child. */
  lemma NodeHasKids(g: Board, s: Searcher, depth: nat, isMax: bool)
    requires Valid(g) && ProposesEmptyCells(s) && NeverStuck(s) && HasStone(g)
    requires !IsFull(g) && depth != 0
    ensures SearchTree(g, s, depth, isMax).Node? && |SearchTree(g, s, depth, isMax).kids| > 0
  {
    SearchTreeShape(g, s, depth, isMax);
  }

  /** Child `k` of a node is the search from the grid with the mover's stone on move `k`,
      which has a stone. */
  lemma ChildPosition(g: Board, s: Searcher, depth: nat, isMax: bool, k: int) returns (child: Board)
    requires Valid(g) && ProposesEmptyCells(s) && NeverStuck(s)
    requires !IsFull(g) && depth != 0 && 0 <= k < |SearchTree(g, s, depth, isMax).kids|
    ensures Valid(child) && HasStone(child)
    ensures SearchTree(g, s, depth, isMax).kids[k] == SearchTree(child, s, depth - 1, !isMax)
  {
    SearchTreeShape(g, s, depth, isMax);
    var m := s.moves(g)[k];
    PlacedStone(g, m.0, m.1, Mover(s, isMax));
    child := SetCell(g, m.0, m.1, Mover(s, isMax));
  }

  /** A grid with a stone and an empty cell has a candidate move. */
  lemma StoneMeansMoves(g: Board, v: Variant)
    requires Valid(g) && HasStone(g) && !IsFull(g)
    ensures |Moves(g, v)| > 0
  {
    CandidatesExistIff(g);
    var i, j :| IsCandidate(g, i, j);
    MovesAreCandidates(g, v);
    assert (i, j) in Moves(g, v);
  }

  /** The bot's searcher is never stuck. */
  lemma BotNeverStuck(cfg: BotConfig)
    requires ValidConfig(cfg)
    ensures NeverStuck(SearcherOf(cfg))
  {
    forall b: Board | Valid(b) && HasStone(b) && !IsFull(b)
      ensures |SearcherOf(cfg).moves(b)| > 0
    {
      StoneMeansMoves(b, cfg.variant);
    }
  }

  /** On a grid with a stone, `minimax` called with the widest window by a searcher that
      is never stuck returns an evaluation, never the `INT_MIN`/`INT_MAX` sentinel. */
  lemma MinimaxFinite(g: Board, s: Searcher, depth: nat, isMax: bool)
    requires Valid(g) && ProposesEmptyCells(s) && NeverStuck(s) && HasStone(g)
    ensures Minimax(g, s, depth, isMax, NegInf, PosInf).Fin?
  {
    NodesHaveMoves(g, s, depth, isMax);
    ValueFinite(SearchTree(g, s, depth, isMax), isMax);
  }
}
