/** `BotManager`: the bot's move. The `finalProject.cpp` bot wins at once if it can, else
    blocks the opponent's strongest threat, else searches three plies below each candidate;
    the `sapfinal.cpp` bot only searches, to a depth that grows as the grid fills. Either
    way it keeps the first candidate with the strictly greatest score. */
module Bot {
  import opened Cells
  import opened Grid
  import opened Players
  import opened Scanners
  import opened Evaluator
  import opened Candidates
  import opened GameTree
  import opened Search
  import opened Threats

  /** The bot's state: its configuration and the last cell it played, (-1, -1) before its
      first move. */
  datatype BotManager = BotManager(cfg: BotConfig, lastRow: int, lastCol: int)

  /** The constructor: no move made yet. */
  function NewBotManager(symbol: char, v: Variant): (b: BotManager)
    ensures b.cfg.bot == symbol && b.cfg.variant == v
    ensures Opponent(b.cfg) == (if symbol == 'O' then 'X' else 'O')
    ensures b.lastRow == -1 && b.lastCol == -1
  {
    BotManager(BotConfig(symbol, v), -1, -1)
  }

  /** `getDynamicDepth`: 2 with more than 70 empty cells, 3 with 51 to 70, 4 otherwise. */
  function DynamicDepth(emptyCells: int): (d: nat)
    ensures 2 <= d <= 4
    ensures d == 2 <==> emptyCells > 70
    ensures d == 4 <==> emptyCells <= 50
  {
    if emptyCells > 70 then 2 else if emptyCells > 50 then 3 else 4
  }

  /** The search only deepens as the grid fills. */
  lemma DeeperAsGridFills(e1: int, e2: int)
    requires e1 <= e2
    ensures DynamicDepth(e2) <= DynamicDepth(e1)
  {
  }

  /** The depth `makeMove` passes to `minimax` below each candidate: 3 in
      `finalProject.cpp`, one less than `getDynamicDepth()` in `sapfinal.cpp`. */
  function SearchDepth(g: Board, v: Variant): (d: nat)
    requires Valid(g)
    ensures 1 <= d <= 3
    ensures v == Fixed ==> d == 3
    ensures v == Dynamic ==> d == DynamicDepth(CountEmptyCells(g)) - 1
  {
    match v
    case Fixed => 3
    case Dynamic => DynamicDepth(CountEmptyCells(g)) - 1
  }

  /** The score `makeMove` gives candidate `p`: the bot's symbol is placed there and the
      opponent searches `depth` plies in the widest window. */
  function RootScore(g: Board, s: Searcher, depth: nat, p: Pos): Score
    requires Valid(g) && ProposesEmptyCells(s) && InBounds(g, p.0, p.1)
  {
    Minimax(SetCell(g, p.0, p.1, s.bot), s, depth, false, NegInf, PosInf)
  }

  /** A candidate's score is the game-tree value of the position after it. */
  lemma RootScoreIsValue(g: Board, s: Searcher, depth: nat, p: Pos)
    requires Valid(g) && ProposesEmptyCells(s) && InBounds(g, p.0, p.1)
    ensures RootScore(g, s, depth, p) == Value(SearchTree(SetCell(g, p.0, p.1, s.bot), s, depth, false), false)
  {
  }

  /** A candidate's score is never the `INT_MIN` sentinel: the grid it is searched on
      holds the bot's stone. */
  lemma RootScoreAboveSentinel(g: Board, s: Searcher, depth: nat, p: Pos)
    requires Valid(g) && ProposesEmptyCells(s) && NeverStuck(s) && InBounds(g, p.0, p.1)
    ensures RootScore(g, s, depth, p).Fin?
  {
    PlacedStone(g, p.0, p.1, s.bot);
    MinimaxFinite(SetCell(g, p.0, p.1, s.bot), s, depth, false);
  }

  /** Every move lies on the grid. */
  ghost predicate OnGrid(g: Board, moves: seq<Pos>)
    requires Valid(g)
  {
    forall k :: 0 <= k < |moves| ==> InBounds(g, moves[k].0, moves[k].1)
  }

  /** Move `k` is the one the root loop keeps: its score beats the `INT_MIN` start, no
      move scores higher, and every earlier move scores strictly lower. */
  ghost predicate FirstBest(g: Board, s: Searcher, depth: nat, moves: seq<Pos>, k: int)
    requires Valid(g) && ProposesEmptyCells(s) && OnGrid(g, moves)
  {
    0 <= k < |moves| &&
    Lt(NegInf, RootScore(g, s, depth, moves[k])) &&
    (forall j :: 0 <= j < |moves| ==> Le(RootScore(g, s, depth, moves[j]), RootScore(g, s, depth, moves[k]))) &&
    (forall j :: 0 <= j < k ==> Lt(RootScore(g, s, depth, moves[j]), RootScore(g, s, depth, moves[k])))
  }

  /** The root loop of `makeMove`: score each move in order and keep it when its score is
      strictly greater than the best so far, starting from `INT_MIN`. */
  method BestMove(g: Board, s: Searcher, depth: nat, moves: seq<Pos>) returns (found: bool, k: int, bestScore: Score)
    requires Valid(g) && ProposesEmptyCells(s) && OnGrid(g, moves)
    ensures found ==> FirstBest(g, s, depth, moves, k) && bestScore == RootScore(g, s, depth, moves[k])
    ensures !found <==> forall j :: 0 <= j < |moves| ==> RootScore(g, s, depth, moves[j]) == NegInf
  {
    found, k, bestScore := false, -1, NegInf;
    var i := 0;
    while i < |moves|
      invariant 0 <= i <= |moves|
      invariant !found ==> bestScore == NegInf && forall j :: 0 <= j < i ==> RootScore(g, s, depth, moves[j]) == NegInf
      invariant found ==> 0 <= k < i && bestScore == RootScore(g, s, depth, moves[k]) && Lt(NegInf, bestScore)
      invariant found ==> forall j :: 0 <= j < i ==> Le(RootScore(g, s, depth, moves[j]), bestScore)
      invariant found ==> forall j :: 0 <= j < k ==> Lt(RootScore(g, s, depth, moves[j]), bestScore)
    {
      var score := RootScore(g, s, depth, moves[i]);
      if Lt(bestScore, score) {
        found, k, bestScore := true, i, score;
      }
      i := i + 1;
    }
  }

  /** `g'` is `g` with `sym` written into the empty cell (r, c). */
  ghost predicate Placed(g: Board, g': Board, r: int, c: int, sym: char)
    requires Valid(g)
  {
    InBounds(g, r, c) && Get(g, r, c) == Empty && g' == SetCell(g, r, c, sym)
  }

  /** The search step of `makeMove`: with no candidate nothing changes; otherwise the bot's
      symbol goes on the first best candidate, which becomes the last move. */
  ghost predicate SearchOutcome(g: Board, b: BotManager, s: Searcher, depth: nat, b': BotManager, g': Board)
    requires Valid(g) && ProposesEmptyCells(s)
  {
    var moves := s.moves(g);
    (|moves| == 0 && b' == b && g' == g) ||
    (exists k :: FirstBest(g, s, depth, moves, k) && moves[k] == (b'.lastRow, b'.lastCol) &&
       b' == b.(lastRow := b'.lastRow, lastCol := b'.lastCol) &&
       Placed(g, g', b'.lastRow, b'.lastCol, s.bot))
  }

  /** Search the candidates and play the first best one, as the last part of either
      `makeMove`. A searcher that is never stuck always keeps a move when there is one. */
  method SearchAndPlace(b: BotManager, g: Board, s: Searcher, depth: nat) returns (b': BotManager, g': Board)
    requires Valid(g) && ProposesEmptyCells(s) && NeverStuck(s)
    ensures SearchOutcome(g, b, s, depth, b', g')
  {
    var moves := s.moves(g);
    var found, k, _ := BestMove(g, s, depth, moves);
    if found {
      b' := b.(lastRow := moves[k].0, lastCol := moves[k].1);
      g' := SetCell(g, moves[k].0, moves[k].1, s.bot);
    } else {
      if |moves| > 0 {
        RootScoreAboveSentinel(g, s, depth, moves[0]);
        assert false;
      }
      b', g' := b, g;
    }
  }

  /** Some cell wins outright for `sym`. */
  ghost predicate AnyWin(g: Board, sym: char)
    requires Valid(g)
  {
    exists i, j :: WinningCell(g, i, j, sym)
  }

  /** `makeMove`. The `finalProject.cpp` bot plays the first winning cell if there is one,
      else the first cell where the opponent would make a four, else the first where the
      opponent would make an open three, else the search's choice at depth 3; the
      `sapfinal.cpp` bot plays the search's choice at the dynamic depth. Either way the
      grid changes in at most one previously empty cell, which receives the bot's symbol
      and becomes the last move. */
  method MakeMove(b: BotManager, g: Board) returns (b': BotManager, g': Board)
    requires Valid(g) && ValidConfig(b.cfg)
    ensures b'.cfg == b.cfg
    ensures (b' == b && g' == g) || Placed(g, g', b'.lastRow, b'.lastCol, b.cfg.bot)
    ensures b.cfg.variant == Fixed && AnyWin(g, b.cfg.bot) ==>
      WinningCell(g, b'.lastRow, b'.lastCol, b.cfg.bot) && NoneBefore(g, Win, b.cfg.bot, b'.lastRow, b'.lastCol) &&
      g' == SetCell(g, b'.lastRow, b'.lastCol, b.cfg.bot)
    ensures b.cfg.variant == Fixed && !AnyWin(g, b.cfg.bot) && AnyFour(g, Opponent(b.cfg)) ==>
      FirstFour(g, b'.lastRow, b'.lastCol, Opponent(b.cfg)) && g' == SetCell(g, b'.lastRow, b'.lastCol, b.cfg.bot)
    ensures b.cfg.variant == Fixed && !AnyWin(g, b.cfg.bot) && !AnyFour(g, Opponent(b.cfg)) &&
            AnyOpenThree(g, Opponent(b.cfg)) ==>
      FirstOpenThree(g, b'.lastRow, b'.lastCol, Opponent(b.cfg)) && g' == SetCell(g, b'.lastRow, b'.lastCol, b.cfg.bot)
    ensures b.cfg.variant == Fixed && !AnyWin(g, b.cfg.bot) && !AnyFour(g, Opponent(b.cfg)) &&
            !AnyOpenThree(g, Opponent(b.cfg)) ==>
      SearchOutcome(g, b, SearcherOf(b.cfg), 3, b', g')
    ensures b.cfg.variant == Dynamic ==> SearchOutcome(g, b, SearcherOf(b.cfg), SearchDepth(g, Dynamic), b', g')
  {
    match b.cfg.variant
    case Dynamic =>
      BotNeverStuck(b.cfg);
      b', g' := SearchAndPlace(b, g, SearcherOf(b.cfg), SearchDepth(g, Dynamic));
    case Fixed =>
      b', g' := FixedMove(b, g);
  }

  /** The `finalProject.cpp` branch of `MakeMove`. */
  method FixedMove(b: BotManager, g: Board) returns (b': BotManager, g': Board)
    requires Valid(g) && ValidConfig(b.cfg)
    ensures b'.cfg == b.cfg
    ensures (b' == b && g' == g) || Placed(g, g', b'.lastRow, b'.lastCol, b.cfg.bot)
    ensures AnyWin(g, b.cfg.bot) ==>
      WinningCell(g, b'.lastRow, b'.lastCol, b.cfg.bot) && NoneBefore(g, Win, b.cfg.bot, b'.lastRow, b'.lastCol) &&
      g' == SetCell(g, b'.lastRow, b'.lastCol, b.cfg.bot)
    ensures !AnyWin(g, b.cfg.bot) && AnyFour(g, Opponent(b.cfg)) ==>
      FirstFour(g, b'.lastRow, b'.lastCol, Opponent(b.cfg)) && g' == SetCell(g, b'.lastRow, b'.lastCol, b.cfg.bot)
    ensures !AnyWin(g, b.cfg.bot) && !AnyFour(g, Opponent(b.cfg)) && AnyOpenThree(g, Opponent(b.cfg)) ==>
      FirstOpenThree(g, b'.lastRow, b'.lastCol, Opponent(b.cfg)) && g' == SetCell(g, b'.lastRow, b'.lastCol, b.cfg.bot)
    ensures !AnyWin(g, b.cfg.bot) && !AnyFour(g, Opponent(b.cfg)) && !AnyOpenThree(g, Opponent(b.cfg)) ==>
      SearchOutcome(g, b, SearcherOf(b.cfg), 3, b', g')
  {
    var win, winRow, winCol, _ := CanWinNextMove(g, b.cfg.bot);
    if win {
      b' := b.(lastRow := winRow, lastCol := winCol);
      g' := SetCell(g, winRow, winCol, b.cfg.bot);
      return;
    }
    var threat, threatRow, threatCol, _ := DetectAndBlockThreat(g, Opponent(b.cfg));
    if threat {
      b' := b.(lastRow := threatRow, lastCol := threatCol);
      g' := SetCell(g, threatRow, threatCol, b.cfg.bot);
      return;
    }
    BotNeverStuck(b.cfg);
    b', g' := SearchAndPlace(b, g, SearcherOf(b.cfg), 3);
  }
}
