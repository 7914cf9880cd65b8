/** Alpha-beta pruning as the bot's `minimax` performs it, on an explicit game tree: the
    maximizer and the minimizer alternate, each node's children are searched in order,
    a running best and the window (alpha, beta) are narrowed after every child, and the
    loop stops as soon as `beta <= alpha`. The scores `std::numeric_limits<int>::min()`
    and `max()` that start the window and the running best are the sentinels `NegInf`
    and `PosInf`, below and above every evaluation. */
module GameTree {

  /** A search value: an evaluation, or one of the two sentinels. */
  datatype Score = NegInf | Fin(v: int) | PosInf

  /** The order on scores: the sentinels below and above every evaluation. */
  predicate Le(a: Score, b: Score)
  {
    a == NegInf || b == PosInf || (a.Fin? && b.Fin? && a.v <= b.v)
  }

  predicate Lt(a: Score, b: Score)
  {
    !Le(b, a)
  }

  /** `std::max` on scores. */
  function MaxScore(a: Score, b: Score): Score
  {
    if Le(a, b) then b else a
  }

  /** `std::min` on scores. */
  function MinScore(a: Score, b: Score): Score
  {
    if Le(a, b) then a else b
  }

  /** `MaxScore` is the least upper bound and `MinScore` the greatest lower bound. */
  lemma ScoreLattice(a: Score, b: Score, c: Score)
    ensures Le(a, MaxScore(a, b)) && Le(b, MaxScore(a, b))
    ensures Le(a, c) && Le(b, c) ==> Le(MaxScore(a, b), c)
    ensures Le(MinScore(a, b), a) && Le(MinScore(a, b), b)
    ensures Le(c, a) && Le(c, b) ==> Le(c, MinScore(a, b))
    ensures MaxScore(a, b) == a || MaxScore(a, b) == b
    ensures MinScore(a, b) == a || MinScore(a, b) == b
  {
  }

  /** A position searched to the end of the look-ahead: a leaf holds the static
      evaluation, a node the positions reached by each move in the order they are tried. */
  datatype Tree = Leaf(v: int) | Node(kids: seq<Tree>)

  /** `minimax(depth, isMaximizing, alpha, beta)` on the tree: a leaf's evaluation, or the
      maximizing or minimizing loop over the children starting from the sentinel best. */
  function AlphaBeta(t: Tree, isMax: bool, alpha: Score, beta: Score): Score
    decreases t, 1
  {
    match t
    case Leaf(v) => Fin(v)
    case Node(kids) =>
      if isMax then MaxLoop(t, 0, NegInf, alpha, beta) else MinLoop(t, 0, PosInf, alpha, beta)
  }

  /** The maximizing loop from child `i` on: search the child as the minimizer, raise the
      best and alpha to it, and stop once `beta <= alpha`. */
  function MaxLoop(t: Tree, i: nat, best: Score, alpha: Score, beta: Score): Score
    requires t.Node? && i <= |t.kids|
    decreases t, 0, |t.kids| - i
  {
    if i == |t.kids| then best
    else
      var s := AlphaBeta(t.kids[i], false, alpha, beta);
      var best' := MaxScore(best, s);
      var alpha' := MaxScore(alpha, best');
      if Le(beta, alpha') then best' else MaxLoop(t, i + 1, best', alpha', beta)
  }

  /** The minimizing loop from child `i` on: search the child as the maximizer, lower the
      best and beta to it, and stop once `beta <= alpha`. */
  function MinLoop(t: Tree, i: nat, best: Score, alpha: Score, beta: Score): Score
    requires t.Node? && i <= |t.kids|
    decreases t, 0, |t.kids| - i
  {
    if i == |t.kids| then best
    else
      var s := AlphaBeta(t.kids[i], true, alpha, beta);
      var best' := MinScore(best, s);
      var beta' := MinScore(beta, best');
      if Le(beta', alpha) then best' else MinLoop(t, i + 1, best', alpha, beta')
  }

  /** Reference definition: the minimax value of the tree without pruning. */
  function Value(t: Tree, isMax: bool): Score
    decreases t, 1
  {
    match t
    case Leaf(v) => Fin(v)
    case Node(kids) => if isMax then MaxAll(t, 0) else MinAll(t, 0)
  }

  /** The largest value of the children from `i` on, as the minimizer plays them; `NegInf`
      when there are none. */
  function MaxAll(t: Tree, i: nat): Score
    requires t.Node? && i <= |t.kids|
    decreases t, 0, |t.kids| - i
  {
    if i == |t.kids| then NegInf else MaxScore(Value(t.kids[i], false), MaxAll(t, i + 1))
  }

  /** The smallest value of the children from `i` on, as the maximizer plays them;
      `PosInf` when there are none. */
  function MinAll(t: Tree, i: nat): Score
    requires t.Node? && i <= |t.kids|
    decreases t, 0, |t.kids| - i
  {
    if i == |t.kids| then PosInf else MinScore(Value(t.kids[i], true), MinAll(t, i + 1))
  }

  /** The alpha-beta guarantee for a search result `r` of true value `v` in the window
      (alpha, beta): below beta it bounds `v` from above, above alpha from below, so
      strictly inside the window it is `v` itself. */
  predicate Sound(r: Score, v: Score, alpha: Score, beta: Score)
  {
    (Lt(r, beta) ==> Le(v, r)) && (Lt(alpha, r) ==> Le(r, v))
  }

  /** A maximizing step that prunes, on scores alone: with `alpha` the caller's `alpha0`
      raised by `best`, a child result `s` sound for the child's value `w` that lifts
      alpha to beta bounds the node's value from below, which is all the caller's window
      asks of the new best. */
  lemma MaxPruneStep(best: Score, s: Score, w: Score, rest: Score, alpha0: Score, alpha: Score, beta: Score)
    requires alpha == MaxScore(alpha0, best) && Lt(alpha, beta)
    requires Sound(s, w, alpha, beta)
    requires Le(beta, MaxScore(alpha, MaxScore(best, s)))
    ensures Sound(MaxScore(best, s), MaxScore(best, MaxScore(w, rest)), alpha0, beta)
  {
  }

  /** A maximizing step that goes on: a result sound for the new best and the values
      `rest` of the later children is sound for the old best, the child's value `w` and
      `rest`; and the raised alpha is still the caller's alpha raised by the new best. */
  lemma MaxContinueStep(best: Score, s: Score, w: Score, rest: Score, tail: Score, alpha0: Score, alpha: Score, beta: Score)
    requires alpha == MaxScore(alpha0, best) && Lt(alpha, beta)
    requires Sound(s, w, alpha, beta)
    requires !Le(beta, MaxScore(alpha, MaxScore(best, s)))
    requires Sound(tail, MaxScore(MaxScore(best, s), rest), alpha0, beta)
    ensures Sound(tail, MaxScore(best, MaxScore(w, rest)), alpha0, beta)
  {
  }

  /** The minimizing mirror image of `MaxPruneStep`. */
  lemma MinPruneStep(best: Score, s: Score, w: Score, rest: Score, beta0: Score, alpha: Score, beta: Score)
    requires beta == MinScore(beta0, best) && Lt(alpha, beta)
    requires Sound(s, w, alpha, beta)
    requires Le(MinScore(beta, MinScore(best, s)), alpha)
    ensures Sound(MinScore(best, s), MinScore(best, MinScore(w, rest)), alpha, beta0)
  {
  }

  /** The minimizing mirror image of `MaxContinueStep`. */
  lemma MinContinueStep(best: Score, s: Score, w: Score, rest: Score, tail: Score, beta0: Score, alpha: Score, beta: Score)
    requires beta == MinScore(beta0, best) && Lt(alpha, beta)
    requires Sound(s, w, alpha, beta)
    requires !Le(MinScore(beta, MinScore(best, s)), alpha)
    requires Sound(tail, MinScore(MinScore(best, s), rest), alpha, beta0)
    ensures Sound(tail, MinScore(best, MinScore(w, rest)), alpha, beta0)
  {
  }

  /** Pruning never misleads: a search in any window with alpha below beta is sound for
      the tree's value. */
  lemma {:induction false} AlphaBetaSound(t: Tree, isMax: bool, alpha: Score, beta: Score)
    requires Lt(alpha, beta)
    ensures Sound(AlphaBeta(t, isMax, alpha, beta), Value(t, isMax), alpha, beta)
    decreases t, 1
  {
    match t
    case Leaf(v) =>
    case Node(kids) =>
      if isMax {
        MaxLoopSound(t, 0, NegInf, alpha, alpha, beta);
      } else {
        MinLoopSound(t, 0, PosInf, beta, alpha, beta);
      }
  }

  /** The maximizing loop, entered with `alpha` raised from the caller's `alpha0` by the
      best so far, is sound in the caller's window for the best of that score and the
      remaining children's values. */
  lemma {:induction false} MaxLoopSound(t: Tree, i: nat, best: Score, alpha0: Score, alpha: Score, beta: Score)
    requires t.Node? && i <= |t.kids|
    requires alpha == MaxScore(alpha0, best) && Lt(alpha, beta)
    ensures Sound(MaxLoop(t, i, best, alpha, beta), MaxScore(best, MaxAll(t, i)), alpha0, beta)
    decreases t, 0, |t.kids| - i
  {
    if i < |t.kids| {
      var s := AlphaBeta(t.kids[i], false, alpha, beta);
      var w := Value(t.kids[i], false);
      AlphaBetaSound(t.kids[i], false, alpha, beta);
      var best' := MaxScore(best, s);
      var alpha' := MaxScore(alpha, best');
      if Le(beta, alpha') {
        MaxPruneStep(best, s, w, MaxAll(t, i + 1), alpha0, alpha, beta);
      } else {
        assert alpha' == MaxScore(alpha0, best');
        MaxLoopSound(t, i + 1, best', alpha0, alpha', beta);
        MaxContinueStep(best, s, w, MaxAll(t, i + 1), MaxLoop(t, i + 1, best', alpha', beta), alpha0, alpha, beta);
      }
    }
  }

  /** The mirror image of `MaxLoopSound` for the minimizing loop, with `beta` lowered from
      the caller's `beta0` by the best so far. */
  lemma {:induction false} MinLoopSound(t: Tree, i: nat, best: Score, beta0: Score, alpha: Score, beta: Score)
    requires t.Node? && i <= |t.kids|
    requires beta == MinScore(beta0, best) && Lt(alpha, beta)
    ensures Sound(MinLoop(t, i, best, alpha, beta), MinScore(best, MinAll(t, i)), alpha, beta0)
    decreases t, 0, |t.kids| - i
  {
    if i < |t.kids| {
      var s := AlphaBeta(t.kids[i], true, alpha, beta);
      var w := Value(t.kids[i], true);
      AlphaBetaSound(t.kids[i], true, alpha, beta);
      var best' := MinScore(best, s);
      var beta' := MinScore(beta, best');
      if Le(beta', alpha) {
        MinPruneStep(best, s, w, MinAll(t, i + 1), beta0, alpha, beta);
      } else {
        assert beta' == MinScore(beta0, best');
        MinLoopSound(t, i + 1, best', beta0, alpha, beta');
        MinContinueStep(best, s, w, MinAll(t, i + 1), MinLoop(t, i + 1, best', alpha, beta'), beta0, alpha, beta);
      }
    }
  }

  /** Called with the widest window, as `makeMove` calls `minimax`, the pruned search
      returns exactly the tree's minimax value. */
  lemma AlphaBetaExact(t: Tree, isMax: bool)
    ensures AlphaBeta(t, isMax, NegInf, PosInf) == Value(t, isMax)
  {
    AlphaBetaSound(t, isMax, NegInf, PosInf);
  }

  /** A node whose every child is a finite-valued subtree (in particular any tree whose
      nodes all have children) has a finite value; only a childless node yields a
      sentinel. */
  predicate AllNodesHaveKids(t: Tree)
    decreases t
  {
    match t
    case Leaf(_) => true
    case Node(kids) => |kids| > 0 && forall k :: 0 <= k < |kids| ==> AllNodesHaveKids(kids[k])
  }

  /** A node with children, all of whose subtrees have no childless node, has none. */
  lemma KidsHaveKids(t: Tree)
    requires t.Node? && |t.kids| > 0
    requires forall k :: 0 <= k < |t.kids| ==> AllNodesHaveKids(t.kids[k])
    ensures AllNodesHaveKids(t)
  {
  }

  /** In a tree where no node is childless, every value is an evaluation. */
  lemma {:induction false} ValueFinite(t: Tree, isMax: bool)
    requires AllNodesHaveKids(t)
    ensures Value(t, isMax).Fin?
    decreases t, 1
  {
    match t
    case Leaf(_) =>
    case Node(kids) =>
      if isMax { MaxAllFinite(t, 0); } else { MinAllFinite(t, 0); }
  }

  lemma {:induction false} MaxAllFinite(t: Tree, i: nat)
    requires AllNodesHaveKids(t) && t.Node? && i < |t.kids|
    ensures MaxAll(t, i).Fin?
    decreases t, 0, |t.kids| - i
  {
    ValueFinite(t.kids[i], false);
    if i + 1 < |t.kids| { MaxAllFinite(t, i + 1); }
  }

  lemma {:induction false} MinAllFinite(t: Tree, i: nat)
    requires AllNodesHaveKids(t) && t.Node? && i < |t.kids|
    ensures MinAll(t, i).Fin?
    decreases t, 0, |t.kids| - i
  {
    ValueFinite(t.kids[i], true);
    if i + 1 < |t.kids| { MinAllFinite(t, i + 1); }
  }

  /** A childless node is worth the sentinel the loop starts from: `INT_MIN` for the
      maximizer, `INT_MAX` for the minimizer. */
  lemma NoMovesSentinel(isMax: bool)
    ensures AlphaBeta(Node([]), isMax, NegInf, PosInf) == if isMax then NegInf else PosInf
    ensures Value(Node([]), isMax) == if isMax then NegInf else PosInf
  {
  }
}
