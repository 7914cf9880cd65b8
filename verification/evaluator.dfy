/** The bot's static evaluation: `evaluatePosition` scores one stone by its distance from
    the centre and the four direction scores of `countConsecutive`; `evaluateGrid` adds the
    bot's stones and subtracts twice the opponent's. */
module Evaluator {
  import opened Cells
  import opened Grid
  import opened Players
  import opened Scanners

  /** The part of a `BotManager` the scoring reads: its symbol and which of the two
      programs' tables it uses. */
  datatype BotConfig = BotConfig(bot: char, variant: Variant)

  /** The bot plays one of the two player symbols. */
  predicate ValidConfig(cfg: BotConfig)
  {
    IsPlayer(cfg.bot)
  }

  /** `opponentSymbol` as the constructor sets it: 'X' for an 'O' bot, 'O' otherwise. */
  function Opponent(cfg: BotConfig): (o: char)
    ensures IsPlayer(o) && o != cfg.bot
  {
    Other(cfg.bot)
  }

  /** The centre reward `50 - |rows/2 - r| - |cols/2 - c|`: at most 50, and 50 exactly on
      the centre cell (rows/2, cols/2). */
  function Centrality(g: Board, r: int, c: int): (s: int)
    ensures s <= 50
    ensures s == 50 <==> r == g.rows / 2 && c == g.cols / 2
  {
    50 - Abs(g.rows / 2 - r) - Abs(g.cols / 2 - c)
  }

  /** The largest magnitude one direction can add, per table and side. */
  function MaxTier(v: Variant, own: bool): int
  {
    match v
    case Fixed => if own then 1000 else 1500
    case Dynamic => if own then 1100 else 1000
  }

  /** Every table entry lies between 0 and the count-of-four entry of its side. */
  lemma TierBounded(v: Variant, count: nat, openEnds: nat, own: bool)
    ensures own ==> 0 <= Tier(v, count, openEnds, own) <= MaxTier(v, own)
    ensures !own ==> -MaxTier(v, own) <= Tier(v, count, openEnds, own) <= 0
  {
  }

  /** Reference value of one direction's term: the table entry for the run through
      (row, col) along `d` and its open ends, for the bot's side exactly when `sym` is the
      bot's symbol. */
  ghost function TableTerm(g: Board, cfg: BotConfig, row: int, col: int, d: Dir, sym: char): int
    requires Valid(g)
  {
    Tier(cfg.variant, RunLength(g, row, col, d, sym), OpenEnds(g, row, col, d, sym), sym == cfg.bot)
  }

  /** `evaluatePosition(row, col, symbol)`: the centre reward plus the four direction
      scores. The bot's stones never score below their centre reward and the opponent's
      never above it, and four directions bound the rest; `EvaluatePositionIsTable` gives
      the exact value. */
  function EvaluatePosition(g: Board, cfg: BotConfig, row: int, col: int, sym: char): (s: int)
    requires Valid(g) && InBounds(g, row, col)
    ensures sym == cfg.bot ==> Centrality(g, row, col) <= s <= Centrality(g, row, col) + 4 * MaxTier(cfg.variant, true)
    ensures sym != cfg.bot ==> Centrality(g, row, col) - 4 * MaxTier(cfg.variant, false) <= s <= Centrality(g, row, col)
  {
    var v := cfg.variant;
    var own := sym == cfg.bot;
    var h := CountConsecutive(g, v, cfg.bot, row, col, Horizontal, sym);
    var ve := CountConsecutive(g, v, cfg.bot, row, col, Vertical, sym);
    var di := CountConsecutive(g, v, cfg.bot, row, col, Diagonal, sym);
    var an := CountConsecutive(g, v, cfg.bot, row, col, AntiDiagonal, sym);
    TierBounded(v, RunLength(g, row, col, Horizontal, sym), OpenEnds(g, row, col, Horizontal, sym), own);
    TierBounded(v, RunLength(g, row, col, Vertical, sym), OpenEnds(g, row, col, Vertical, sym), own);
    TierBounded(v, RunLength(g, row, col, Diagonal, sym), OpenEnds(g, row, col, Diagonal, sym), own);
    TierBounded(v, RunLength(g, row, col, AntiDiagonal, sym), OpenEnds(g, row, col, AntiDiagonal, sym), own);
    Centrality(g, row, col) + h + ve + di + an
  }

  /** The position score is the centre reward plus, for each of the four directions, the
      table entry of the run through (row, col) and its open ends. */
  lemma EvaluatePositionIsTable(g: Board, cfg: BotConfig, row: int, col: int, sym: char)
    requires Valid(g) && InBounds(g, row, col)
    ensures EvaluatePosition(g, cfg, row, col, sym) == Centrality(g, row, col)
      + TableTerm(g, cfg, row, col, Horizontal, sym) + TableTerm(g, cfg, row, col, Vertical, sym)
      + TableTerm(g, cfg, row, col, Diagonal, sym) + TableTerm(g, cfg, row, col, AntiDiagonal, sym)
  {
  }

  /** One cell's share of `evaluateGrid`: its position score for a bot stone, minus twice
      its position score for an opponent stone, nothing otherwise. Because the opponent's
      position score already carries the negative table entries, an opponent stone costs
      at most twice its centre reward and its runs raise the total. */
  function CellScore(g: Board, cfg: BotConfig, r: int, c: int): (s: int)
    requires Valid(g) && InBounds(g, r, c)
    ensures Get(g, r, c) != cfg.bot && Get(g, r, c) != Opponent(cfg) ==> s == 0
    ensures Get(g, r, c) == cfg.bot ==> s >= Centrality(g, r, c)
    ensures Get(g, r, c) == Opponent(cfg) ==> s >= -2 * Centrality(g, r, c)
  {
    var x := Get(g, r, c);
    if x == cfg.bot then EvaluatePosition(g, cfg, r, c, cfg.bot)
    else if x == Opponent(cfg) then -(EvaluatePosition(g, cfg, r, c, Opponent(cfg)) * 2)
    else 0
  }

  /** The double loop of `evaluateGrid`, row-major from (r, c). */
  function EvalFrom(g: Board, cfg: BotConfig, r: nat, c: nat): int
    requires Valid(g) && r <= g.rows && c <= g.cols
    decreases g.rows - r, g.cols - c
  {
    if r == g.rows then 0
    else if c == g.cols then EvalFrom(g, cfg, r + 1, 0)
    else CellScore(g, cfg, r, c) + EvalFrom(g, cfg, r, c + 1)
  }

  /** `evaluateGrid`: the bot's total minus twice the opponent's total; empty cells
      contribute nothing. */
  function EvaluateGrid(g: Board, cfg: BotConfig): (score: int)
    requires Valid(g)
    ensures score == SumFor(g, cfg, cfg.bot, 0, 0) - 2 * SumFor(g, cfg, Opponent(cfg), 0, 0)
  {
    EvalSplits(g, cfg, 0, 0);
    EvalFrom(g, cfg, 0, 0)
  }

  /** Reference sum: the position scores for `sym` of the cells holding `sym`, row-major
      from (r, c). */
  function SumFor(g: Board, cfg: BotConfig, sym: char, r: nat, c: nat): int
    requires Valid(g) && r <= g.rows && c <= g.cols
    decreases g.rows - r, g.cols - c
  {
    if r == g.rows then 0
    else if c == g.cols then SumFor(g, cfg, sym, r + 1, 0)
    else (if Get(g, r, c) == sym then EvaluatePosition(g, cfg, r, c, sym) else 0) + SumFor(g, cfg, sym, r, c + 1)
  }

  /** `evaluateGrid` is the bot's total minus twice the opponent's total; empty cells and
      any other symbol contribute nothing. */
  lemma {:induction false} EvalSplits(g: Board, cfg: BotConfig, r: nat, c: nat)
    requires Valid(g) && r <= g.rows && c <= g.cols
    ensures EvalFrom(g, cfg, r, c) == SumFor(g, cfg, cfg.bot, r, c) - 2 * SumFor(g, cfg, Opponent(cfg), r, c)
    decreases g.rows - r, g.cols - c
  {
    if r == g.rows {
    } else if c == g.cols {
      EvalSplits(g, cfg, r + 1, 0);
    } else {
      EvalSplits(g, cfg, r, c + 1);
    }
  }

  /** A board with no player stones at or after (r, c) contributes nothing from there on. */
  lemma {:induction false} NoStonesScoreZero(g: Board, cfg: BotConfig, r: nat, c: nat)
    requires Valid(g) && ValidConfig(cfg) && r <= g.rows && c <= g.cols
    requires forall i, j :: InBounds(g, i, j) && AtOrAfter(i, j, r, c) ==> Get(g, i, j) == Empty
    ensures EvalFrom(g, cfg, r, c) == 0
    decreases g.rows - r, g.cols - c
  {
    if r == g.rows {
    } else if c == g.cols {
      NoStonesScoreZero(g, cfg, r + 1, 0);
    } else {
      assert Get(g, r, c) == Empty;
      NoStonesScoreZero(g, cfg, r, c + 1);
    }
  }

  /** The empty board evaluates to 0 for either bot. */
  lemma EmptyBoardScoresZero(g: Board, cfg: BotConfig)
    requires Valid(g) && ValidConfig(cfg)
    requires forall i, j :: InBounds(g, i, j) ==> Get(g, i, j) == Empty
    ensures EvaluateGrid(g, cfg) == 0
  {
    NoStonesScoreZero(g, cfg, 0, 0);
  }
}
