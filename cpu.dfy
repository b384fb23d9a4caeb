/**
 * The CPU move-selection engine.  It works on cloned games, so it is
 * modelled over the value form `GameState`: a static evaluator (disc
 * difference, five times the mobility difference, and a fixed positional
 * table), a depth-bounded minimax with alpha-beta pruning and a forced-pass
 * rule, and the three move choosers (random, greedy, minimax).
 *
 * The search is specified over `GameTree`, the tree of positions the source
 * visits (its children in enumeration order, a forced pass as a single
 * child).  `AlphaBeta` walks that tree loop by loop, cut-offs included;
 * `MinimaxValue` explores every child.  The window lemma relates the two, so
 * that with the full `i32` window the pruning changes nothing.
 */
module Cpu {
  import opened Board
  import opened Rules

  /** The three CPU strengths. */
  datatype CpuLevel = Easy | Medium | Hard

  /** The sentinels `i32::MIN` and `i32::MAX` of the search. */
  const I32Min: int := -0x8000_0000
  const I32Max: int := 0x7fff_ffff

  /** The depth `get_minimax_move` searches each candidate to. */
  const SearchDepth: nat := 4

  /** A bound on every evaluation: 64 discs, 5 x 64 moves, 64 x the largest weight. */
  const EvalBound: int := 64 + 5 * 64 + 64 * 100

  /** The positional weights of `calculate_positional_score`, indexed [row][col]. */
  const PositionValues: seq<seq<int>> := [
    [100, -20, 10, 5, 5, 10, -20, 100],
    [-20, -50, -2, -2, -2, -2, -50, -20],
    [10, -2, -1, -1, -1, -1, -2, 10],
    [5, -2, -1, -1, -1, -1, -2, 5],
    [5, -2, -1, -1, -1, -1, -2, 5],
    [10, -2, -1, -1, -1, -1, -2, 10],
    [-20, -50, -2, -2, -2, -2, -50, -20],
    [100, -20, 10, 5, 5, 10, -20, 100]
  ]

  function Max(a: int, b: int): int {
    if a >= b then a else b
  }

  function Min(a: int, b: int): int {
    if a <= b then a else b
  }

  /** `get_opponent` is `Board.Opponent`; on the two real sides it is an involution. */
  lemma OpponentInvolution(p: Disc)
    requires p != Empty
    ensures Opponent(Opponent(p)) == p
  {
  }

  /**
   * The table is 8x8, bounded by 100 in absolute value, and unchanged by
   * reversing the rows or the columns; with `TableTranspose`, by every
   * reflection and rotation of the board.
   */
  lemma TableFacts()
    ensures |PositionValues| == 8
    ensures forall r :: 0 <= r < 8 ==> |PositionValues[r]| == 8
    ensures forall r, c :: 0 <= r < 8 && 0 <= c < 8 ==>
      -100 <= PositionValues[r][c] <= 100 &&
      PositionValues[r][c] == PositionValues[7 - r][c] &&
      PositionValues[r][c] == PositionValues[r][7 - c]
  {
  }

  lemma TableTranspose()
    ensures forall r, c :: 0 <= r < 8 && 0 <= c < 8 ==> PositionValues[r][c] == PositionValues[c][r]
  {
    forall r | 0 <= r < 8
      ensures forall c :: 0 <= c < 8 ==> PositionValues[r][c] == PositionValues[c][r]
    {
      assert PositionValues[r] == seq(8, c requires 0 <= c < 8 => PositionValues[c][r]);
    }
  }

  // ---------------------------------------------------------------------
  // Evaluation

  /** The contribution of one cell: its weight for `p`'s discs, minus it for the opponent's. */
  function CellScore(d: Disc, p: Disc, w: int): int {
    if d == p then w else if d == Opponent(p) then -w else 0
  }

  /** The positional score of the first |row| cells of row r. */
  function RowScore(row: seq<Disc>, r: nat, p: Disc): (v: int)
    requires r < 8 && |row| <= 8
    ensures -100 * |row| <= v <= 100 * |row|
  {
    if row == [] then 0
    else
      TableFacts();
      RowScore(row[..|row| - 1], r, p) + CellScore(row[|row| - 1], p, PositionValues[r][|row| - 1])
  }

  /** The positional score of the first |rows| rows. */
  function RowsScore(rows: seq<seq<Disc>>, p: Disc): (v: int)
    requires |rows| <= 8 && forall i :: 0 <= i < |rows| ==> |rows[i]| == 8
    ensures -800 * |rows| <= v <= 800 * |rows|
  {
    if rows == [] then 0
    else RowsScore(rows[..|rows| - 1], p) + RowScore(rows[|rows| - 1], |rows| - 1, p)
  }

  function PositionalScore(g: Grid, p: Disc): int {
    RowsScore(g, p)
  }

  lemma {:induction false} CountRowsBound(rows: seq<seq<Disc>>, d: Disc)
    requires forall i :: 0 <= i < |rows| ==> |rows[i]| == 8
    ensures CountRows(rows, d) <= 8 * |rows|
  {
    if rows != [] {
      CountRowsBound(rows[..|rows| - 1], d);
    }
  }

  /** `evaluate_board`: disc difference + 5 x mobility difference + positional score. */
  function Evaluate(g: Grid, p: Disc): (v: int)
    ensures -EvalBound <= v <= EvalBound
  {
    CountRowsBound(g, Black);
    CountRowsBound(g, White);
    ValidMovesSpec(g, p);
    ValidMovesSpec(g, Opponent(p));
    var counts := Counts(g);
    (Mine(counts, p) - Mine(counts, Opponent(p))) + 5 * (|ValidMoves(g, p)| - |ValidMoves(g, Opponent(p))|) + PositionalScore(g, p)
  }

  lemma {:induction false} RowScoreAntisymmetric(row: seq<Disc>, r: nat)
    requires r < 8 && |row| <= 8
    ensures RowScore(row, r, Black) == -RowScore(row, r, White)
  {
    if row != [] {
      RowScoreAntisymmetric(row[..|row| - 1], r);
    }
  }

  lemma {:induction false} RowsScoreAntisymmetric(rows: seq<seq<Disc>>)
    requires |rows| <= 8 && forall i :: 0 <= i < |rows| ==> |rows[i]| == 8
    ensures RowsScore(rows, Black) == -RowsScore(rows, White)
  {
    if rows != [] {
      RowsScoreAntisymmetric(rows[..|rows| - 1]);
      RowScoreAntisymmetric(rows[|rows| - 1], |rows| - 1);
    }
  }

  /** What is good for Black is exactly as bad for White. */
  lemma EvaluateAntisymmetric(g: Grid)
    ensures PositionalScore(g, Black) == -PositionalScore(g, White)
    ensures Evaluate(g, Black) == -Evaluate(g, White)
  {
    RowsScoreAntisymmetric(g);
  }

  method CalculatePositionalScore(g: Grid, p: Disc) returns (score: int)
    ensures score == PositionalScore(g, p)
    ensures -64 * 100 <= score <= 64 * 100
  {
    TableFacts();
    score := 0;
    for r := 0 to 8
      invariant score == RowsScore(g[..r], p)
    {
      for c := 0 to 8
        invariant score == RowsScore(g[..r], p) + RowScore(g[r][..c], r, p)
      {
        assert g[r][..c + 1][..c] == g[r][..c];
        match Get(g, r, c)
        case Some(disc) =>
          if disc == p {
            score := score + PositionValues[r][c];
          } else if disc == Opponent(p) {
            score := score - PositionValues[r][c];
          }
        case None =>
      }
      assert g[..r + 1][..r] == g[..r];
      assert g[r][..8] == g[r];
    }
    assert g[..8] == g;
  }

  method EvaluateBoard(s: GameState, p: Disc) returns (v: int)
    ensures v == Evaluate(s.grid, p)
    ensures -EvalBound <= v <= EvalBound
  {
    var counts := Counts(s.grid);
    var mine: int := Mine(counts, p);
    var theirs: int := Mine(counts, Opponent(p));
    var mobility := |ValidMoves(s.grid, p)| - |ValidMoves(s.grid, Opponent(p))|;
    var positional := CalculatePositionalScore(s.grid, p);
    v := (mine - theirs) + mobility * 5 + positional;
  }

  // ---------------------------------------------------------------------
  // Search: the game tree, the pruned search of the source, the plain value

  /**
   * The tree `minimax` explores: a leaf holds an evaluation, a pass node the
   * tree after the side to move passes, and a move node one subtree per
   * legal move, in enumeration order.  `isMax` says whose turn it is.
   */
  datatype Tree = Leaf(score: int) | Pass(next: Tree) | Node(isMax: bool, children: seq<Tree>)

  /** Every leaf lies within the evaluation bound and every move node has a child. */
  predicate Bounded(t: Tree)
    decreases t
  {
    match t
    case Leaf(v) => -EvalBound <= v <= EvalBound
    case Pass(next) => Bounded(next)
    case Node(_, children) => |children| > 0 && forall i :: 0 <= i < |children| ==> Bounded(children[i])
  }

  /**
   * The tree searched from the board `g`, `depth` plies deep, for `p`:
   * evaluate at the horizon or at the end of the game; otherwise the side to
   * move is `p` when maximizing and its opponent when minimizing, whatever
   * the game's `current_turn`, and it passes when it has no move.  Every tree
   * built this way is bounded: its evaluations lie within EvalBound and no
   * move node is empty.
   */
  function GameTree(g: Grid, depth: nat, isMax: bool, p: Disc): (t: Tree)
    ensures Bounded(t)
    decreases depth
  {
    if depth == 0 || GameOver(g) then Leaf(Evaluate(g, p))
    else
      var q := if isMax then p else Opponent(p);
      var moves := ValidMoves(g, q);
      if moves == [] then Pass(GameTree(g, depth - 1, !isMax, p))
      else Node(isMax, seq(|moves|, i requires 0 <= i < |moves| =>
                             GameTree(PlayGrid(g, moves[i].0, moves[i].1, q), depth - 1, !isMax, p)))
  }

  /** The loops of `minimax` on a tree, with the window (alpha, beta), cut-offs included. */
  function AlphaBeta(t: Tree, alpha: int, beta: int): int
    decreases t, 1, 0
  {
    match t
    case Leaf(v) => v
    case Pass(next) => AlphaBeta(next, alpha, beta)
    case Node(isMax, _) =>
      if isMax then MaxLoop(t, 0, alpha, beta, I32Min) else MinLoop(t, 0, alpha, beta, I32Max)
  }

  /** The maximizing loop from child i on, with the running alpha and maximum. */
  function MaxLoop(t: Tree, i: nat, alpha: int, beta: int, best: int): int
    requires t.Node? && i <= |t.children|
    decreases t, 0, |t.children| - i
  {
    if i == |t.children| then best
    else
      var score := AlphaBeta(t.children[i], alpha, beta);
      if beta <= Max(alpha, score) then Max(best, score)
      else MaxLoop(t, i + 1, Max(alpha, score), beta, Max(best, score))
  }

  /** The minimizing loop from child i on, with the running beta and minimum. */
  function MinLoop(t: Tree, i: nat, alpha: int, beta: int, best: int): int
    requires t.Node? && i <= |t.children|
    decreases t, 0, |t.children| - i
  {
    if i == |t.children| then best
    else
      var score := AlphaBeta(t.children[i], alpha, beta);
      if Min(beta, score) <= alpha then Min(best, score)
      else MinLoop(t, i + 1, alpha, Min(beta, score), Min(best, score))
  }

  /** The same search without cut-offs: every child is explored. */
  function MinimaxValue(t: Tree): int
    decreases t, 1, 0
  {
    match t
    case Leaf(v) => v
    case Pass(next) => MinimaxValue(next)
    case Node(isMax, _) => if isMax then MaxAll(t, 0, I32Min) else MinAll(t, 0, I32Max)
  }

  function MaxAll(t: Tree, i: nat, best: int): int
    requires t.Node? && i <= |t.children|
    decreases t, 0, |t.children| - i
  {
    if i == |t.children| then best
    else MaxAll(t, i + 1, Max(best, MinimaxValue(t.children[i])))
  }

  function MinAll(t: Tree, i: nat, best: int): int
    requires t.Node? && i <= |t.children|
    decreases t, 0, |t.children| - i
  {
    if i == |t.children| then best
    else MinAll(t, i + 1, Min(best, MinimaxValue(t.children[i])))
  }

  lemma {:induction false} MaxAllAtLeast(t: Tree, i: nat, best: int)
    requires t.Node? && i <= |t.children|
    ensures MaxAll(t, i, best) >= best
    decreases |t.children| - i
  {
    if i < |t.children| {
      MaxAllAtLeast(t, i + 1, Max(best, MinimaxValue(t.children[i])));
    }
  }

  lemma {:induction false} MinAllAtMost(t: Tree, i: nat, best: int)
    requires t.Node? && i <= |t.children|
    ensures MinAll(t, i, best) <= best
    decreases |t.children| - i
  {
    if i < |t.children| {
      MinAllAtMost(t, i + 1, Min(best, MinimaxValue(t.children[i])));
    }
  }

  /**
   * The window property of fail-soft alpha-beta (Knuth and Moore): a value at
   * or below alpha is reported at or below alpha, one at or above beta at or
   * above beta, and one strictly inside the window exactly.
   */
  predicate Window(alpha: int, beta: int, v: int, r: int) {
    (v <= alpha ==> r <= alpha) && (beta <= v ==> beta <= r) && (alpha < v < beta ==> r == v)
  }

  lemma {:induction false} AlphaBetaWindow(t: Tree, alpha: int, beta: int)
    requires I32Min <= alpha < beta <= I32Max
    ensures Window(alpha, beta, MinimaxValue(t), AlphaBeta(t, alpha, beta))
    decreases t, 1, 0
  {
    match t
    case Leaf(_) =>
    case Pass(next) => AlphaBetaWindow(next, alpha, beta);
    case Node(isMax, _) =>
      if isMax {
        MaxLoopWindow(t, 0, alpha, alpha, beta, I32Min, I32Min);
      } else {
        MinLoopWindow(t, 0, alpha, beta, beta, I32Max, I32Max);
      }
  }

  /** One child of the maximizing loop, as integers: a cut-off or the invariant for the next child. */
  lemma MaxStep(alpha0: int, a: int, beta: int, m: int, acc: int, v: int, r: int)
    requires alpha0 <= a < beta && m <= a
    requires acc > alpha0 ==> m == acc && a == acc
    requires acc <= alpha0 ==> a == alpha0
    requires Window(a, beta, v, r)
    ensures beta <= Max(a, r) ==> beta <= v && beta <= Max(m, r)
    ensures Max(a, r) < beta ==>
      alpha0 <= Max(a, r) && Max(m, r) <= Max(a, r) &&
      (Max(acc, v) > alpha0 ==> Max(m, r) == Max(acc, v) && Max(a, r) == Max(acc, v)) &&
      (Max(acc, v) <= alpha0 ==> Max(a, r) == alpha0)
  {
  }

  lemma MinStep(alpha: int, b: int, beta0: int, m: int, acc: int, v: int, r: int)
    requires alpha < b <= beta0 && m >= b
    requires acc < beta0 ==> m == acc && b == acc
    requires acc >= beta0 ==> b == beta0
    requires Window(alpha, b, v, r)
    ensures Min(b, r) <= alpha ==> v <= alpha && Min(m, r) <= alpha
    ensures alpha < Min(b, r) ==>
      Min(b, r) <= beta0 && Min(m, r) >= Min(b, r) &&
      (Min(acc, v) < beta0 ==> Min(m, r) == Min(acc, v) && Min(b, r) == Min(acc, v)) &&
      (Min(acc, v) >= beta0 ==> Min(b, r) == beta0)
  {
  }

  /**
   * The maximizing loop keeps its running alpha `a` at max(alpha0, acc) and
   * its running maximum `m` at the plain maximum `acc` once that exceeds alpha0.
   */
  lemma {:induction false} MaxLoopWindow(t: Tree, i: nat, alpha0: int, a: int, beta: int, m: int, acc: int)
    requires t.Node? && i <= |t.children|
    requires I32Min <= alpha0 <= a < beta <= I32Max
    requires m <= a
    requires acc > alpha0 ==> m == acc && a == acc
    requires acc <= alpha0 ==> a == alpha0
    ensures Window(alpha0, beta, MaxAll(t, i, acc), MaxLoop(t, i, a, beta, m))
    decreases t, 0, |t.children| - i
  {
    if i < |t.children| {
      var v := MinimaxValue(t.children[i]);
      var r := AlphaBeta(t.children[i], a, beta);
      AlphaBetaWindow(t.children[i], a, beta);
      MaxStep(alpha0, a, beta, m, acc, v, r);
      if beta <= Max(a, r) {
        MaxAllAtLeast(t, i + 1, Max(acc, v));
      } else {
        MaxLoopWindow(t, i + 1, alpha0, Max(a, r), beta, Max(m, r), Max(acc, v));
      }
    }
  }

  lemma {:induction false} MinLoopWindow(t: Tree, i: nat, alpha: int, b: int, beta0: int, m: int, acc: int)
    requires t.Node? && i <= |t.children|
    requires I32Min <= alpha < b <= beta0 <= I32Max
    requires m >= b
    requires acc < beta0 ==> m == acc && b == acc
    requires acc >= beta0 ==> b == beta0
    ensures Window(alpha, beta0, MinAll(t, i, acc), MinLoop(t, i, alpha, b, m))
    decreases t, 0, |t.children| - i
  {
    if i < |t.children| {
      var v := MinimaxValue(t.children[i]);
      var r := AlphaBeta(t.children[i], alpha, b);
      AlphaBetaWindow(t.children[i], alpha, b);
      MinStep(alpha, b, beta0, m, acc, v, r);
      if Min(b, r) <= alpha {
        MinAllAtMost(t, i + 1, Min(acc, v));
      } else {
        MinLoopWindow(t, i + 1, alpha, Min(b, r), beta0, Min(m, r), Min(acc, v));
      }
    }
  }

  lemma {:induction false} ValueBounded(t: Tree)
    requires Bounded(t)
    ensures -EvalBound <= MinimaxValue(t) <= EvalBound
    decreases t, 1, 0
  {
    match t
    case Leaf(_) =>
    case Pass(next) => ValueBounded(next);
    case Node(isMax, _) =>
      if isMax {
        MaxAllBounded(t, 0, I32Min);
      } else {
        MinAllBounded(t, 0, I32Max);
      }
  }

  lemma {:induction false} MaxAllBounded(t: Tree, i: nat, best: int)
    requires t.Node? && Bounded(t) && i <= |t.children|
    requires -EvalBound <= best <= EvalBound || (best == I32Min && i < |t.children|)
    ensures -EvalBound <= MaxAll(t, i, best) <= EvalBound
    decreases t, 0, |t.children| - i
  {
    if i < |t.children| {
      ValueBounded(t.children[i]);
      MaxAllBounded(t, i + 1, Max(best, MinimaxValue(t.children[i])));
    }
  }

  lemma {:induction false} MinAllBounded(t: Tree, i: nat, best: int)
    requires t.Node? && Bounded(t) && i <= |t.children|
    requires -EvalBound <= best <= EvalBound || (best == I32Max && i < |t.children|)
    ensures -EvalBound <= MinAll(t, i, best) <= EvalBound
    decreases t, 0, |t.children| - i
  {
    if i < |t.children| {
      ValueBounded(t.children[i]);
      MinAllBounded(t, i + 1, Min(best, MinimaxValue(t.children[i])));
    }
  }

  /** With the full window the cut-offs change nothing: alpha-beta returns the minimax value. */
  lemma FullWindowExact(g: Grid, depth: nat, isMax: bool, p: Disc)
    ensures AlphaBeta(GameTree(g, depth, isMax, p), I32Min, I32Max) == MinimaxValue(GameTree(g, depth, isMax, p))
    ensures -EvalBound <= MinimaxValue(GameTree(g, depth, isMax, p)) <= EvalBound
  {
    var t := GameTree(g, depth, isMax, p);
    ValueBounded(t);
    AlphaBetaWindow(t, I32Min, I32Max);
  }

  /** What the pruned search from the board `g` returns with the window (alpha, beta). */
  function Searched(g: Grid, depth: nat, isMax: bool, p: Disc, alpha: int, beta: int): int {
    AlphaBeta(GameTree(g, depth, isMax, p), alpha, beta)
  }

  /**
   * `minimax`: evaluate at the horizon or at the end of the game, pass when
   * the side to move has no move, and otherwise run the maximizing or the
   * minimizing loop over the children.  The result depends on the board of
   * the game searched, never on its `current_turn`.
   */
  method Minimax(s: GameState, depth: nat, isMax: bool, p: Disc, alpha: int, beta: int) returns (score: int)
    ensures score == Searched(s.grid, depth, isMax, p, alpha, beta)
    decreases depth, 1
  {
    if depth == 0 || GameOver(s.grid) {
      score := EvaluateBoard(s, p);
      return;
    }
    var current := if isMax then p else Opponent(p);
    var moves := ValidMoves(s.grid, current);
    if moves == [] {
      score := Minimax(s, depth - 1, !isMax, p, alpha, beta);
    } else if isMax {
      score := MaxSearch(s, depth, p, moves, alpha, beta);
    } else {
      score := MinSearch(s, depth, p, moves, alpha, beta);
    }
  }

  /** The node searched from a live board has one child per legal move, in enumeration order. */
  lemma NodeChildren(g: Grid, depth: nat, isMax: bool, p: Disc, moves: seq<Cell>)
    requires 0 < depth && !GameOver(g) && moves == ValidMoves(g, if isMax then p else Opponent(p)) && moves != []
    ensures GameTree(g, depth, isMax, p) == Node(isMax, GameTree(g, depth, isMax, p).children)
    ensures |GameTree(g, depth, isMax, p).children| == |moves|
    ensures forall i :: 0 <= i < |moves| ==> ChildOf(GameTree(g, depth, isMax, p), g, moves, i, depth, isMax, p)
  {
  }

  /** Child i of the node t, searched to `depth`, is the tree searched after the side to move plays moves[i]. */
  predicate ChildOf(t: Tree, g: Grid, moves: seq<Cell>, i: int, depth: nat, isMax: bool, p: Disc) {
    0 < depth && t.Node? && 0 <= i < |moves| == |t.children| &&
    t.children[i] == GameTree(PlayGrid(g, moves[i].0, moves[i].1, if isMax then p else Opponent(p)), depth - 1, !isMax, p)
  }

  /** One turn of the maximizing loop, once child i is known to score `score`. */
  lemma MaxLoopStep(t: Tree, i: nat, alpha: int, beta: int, best: int, score: int)
    requires t.Node? && i < |t.children| && score == AlphaBeta(t.children[i], alpha, beta)
    ensures MaxLoop(t, i, alpha, beta, best) ==
      if beta <= Max(alpha, score) then Max(best, score)
      else MaxLoop(t, i + 1, Max(alpha, score), beta, Max(best, score))
  {
  }

  /** One turn of the minimizing loop, once child i is known to score `score`. */
  lemma MinLoopStep(t: Tree, i: nat, alpha: int, beta: int, best: int, score: int)
    requires t.Node? && i < |t.children| && score == AlphaBeta(t.children[i], alpha, beta)
    ensures MinLoop(t, i, alpha, beta, best) ==
      if Min(beta, score) <= alpha then Min(best, score)
      else MinLoop(t, i + 1, alpha, Min(beta, score), Min(best, score))
  {
  }

  /** One pass of the loop of `minimax`: search the clone after move i with the current window. */
  method ChildSearch(s: GameState, depth: nat, isMax: bool, p: Disc, moves: seq<Cell>, i: nat, alpha: int, beta: int,
                     ghost t: Tree)
    returns (score: int)
    requires ChildOf(t, s.grid, moves, i, depth, isMax, p)
    ensures score == AlphaBeta(t.children[i], alpha, beta)
    decreases depth, 0, 0
  {
    var child := Play(s, moves[i].0, moves[i].1, if isMax then p else Opponent(p));
    score := Minimax(child, depth - 1, !isMax, p, alpha, beta);
  }

  /** The maximizing branch of `minimax`: raise alpha child by child, stop once beta <= alpha. */
  method MaxSearch(s: GameState, depth: nat, p: Disc, moves: seq<Cell>, alpha: int, beta: int) returns (maxScore: int)
    requires 0 < depth && !GameOver(s.grid) && moves == ValidMoves(s.grid, p) && moves != []
    ensures maxScore == Searched(s.grid, depth, true, p, alpha, beta)
    decreases depth, 0, 2
  {
    ghost var t := GameTree(s.grid, depth, true, p);
    NodeChildren(s.grid, depth, true, p, moves);
    maxScore := MaxChildren(s, depth, p, moves, alpha, beta, t);
  }

  /** The loop of the maximizing branch over the children of t. */
  method MaxChildren(s: GameState, depth: nat, p: Disc, moves: seq<Cell>, alpha: int, beta: int, ghost t: Tree)
    returns (maxScore: int)
    requires t.Node? && |t.children| == |moves|
    requires forall i :: 0 <= i < |moves| ==> ChildOf(t, s.grid, moves, i, depth, true, p)
    ensures maxScore == MaxLoop(t, 0, alpha, beta, I32Min)
    decreases depth, 0, 1
  {
    var a := alpha;
    maxScore := I32Min;
    for i := 0 to |moves|
      invariant MaxLoop(t, i, a, beta, maxScore) == MaxLoop(t, 0, alpha, beta, I32Min)
    {
      var score := ChildSearch(s, depth, true, p, moves, i, a, beta, t);
      MaxLoopStep(t, i, a, beta, maxScore, score);
      maxScore := Max(maxScore, score);
      a := Max(a, score);
      if beta <= a {
        break;
      }
    }
  }

  /** The minimizing branch of `minimax`: lower beta child by child, stop once beta <= alpha. */
  method MinSearch(s: GameState, depth: nat, p: Disc, moves: seq<Cell>, alpha: int, beta: int) returns (minScore: int)
    requires 0 < depth && !GameOver(s.grid) && moves == ValidMoves(s.grid, Opponent(p)) && moves != []
    ensures minScore == Searched(s.grid, depth, false, p, alpha, beta)
    decreases depth, 0, 2
  {
    ghost var t := GameTree(s.grid, depth, false, p);
    NodeChildren(s.grid, depth, false, p, moves);
    minScore := MinChildren(s, depth, p, moves, alpha, beta, t);
  }

  /** The loop of the minimizing branch over the children of t. */
  method MinChildren(s: GameState, depth: nat, p: Disc, moves: seq<Cell>, alpha: int, beta: int, ghost t: Tree)
    returns (minScore: int)
    requires t.Node? && |t.children| == |moves|
    requires forall i :: 0 <= i < |moves| ==> ChildOf(t, s.grid, moves, i, depth, false, p)
    ensures minScore == MinLoop(t, 0, alpha, beta, I32Max)
    decreases depth, 0, 1
  {
    var b := beta;
    minScore := I32Max;
    for i := 0 to |moves|
      invariant MinLoop(t, i, alpha, b, minScore) == MinLoop(t, 0, alpha, beta, I32Max)
    {
      var score := ChildSearch(s, depth, false, p, moves, i, alpha, b, t);
      MinLoopStep(t, i, alpha, b, minScore, score);
      minScore := Min(minScore, score);
      b := Min(b, score);
      if b <= alpha {
        break;
      }
    }
  }

  // ---------------------------------------------------------------------
  // Move choice

  /** k is the earliest position holding the greatest score. */
  predicate FirstMax(scores: seq<int>, k: int) {
    0 <= k < |scores| &&
    (forall j :: 0 <= j < |scores| ==> scores[j] <= scores[k]) &&
    (forall j :: 0 <= j < k ==> scores[j] < scores[k])
  }

  /** The scores `f` gives the first n candidate moves, in enumeration order. */
  function Scores(moves: seq<Cell>, f: Cell -> int, n: nat): (scores: seq<int>)
    requires n <= |moves|
    ensures |scores| == n
  {
    if n == 0 then [] else Scores(moves, f, n - 1) + [f(moves[n - 1])]
  }

  lemma {:induction false} ScoresAt(moves: seq<Cell>, f: Cell -> int, n: nat, j: nat)
    requires j < n <= |moves|
    ensures Scores(moves, f, n)[j] == f(moves[j])
    decreases n
  {
    if j < n - 1 {
      ScoresAt(moves, f, n - 1, j);
    }
  }

  /** The mover's total disc count after playing m (not the number of discs flipped). */
  function Tally(s: GameState, m: Cell, p: Disc): nat {
    Mine(Counts(Play(s, m.0, m.1, p).grid), p)
  }

  /** The depth-4 minimax value of playing m, opponent to move. */
  function SearchValue(s: GameState, m: Cell, p: Disc): int {
    MinimaxValue(GameTree(Play(s, m.0, m.1, p).grid, SearchDepth, false, p))
  }

  function GreedyScores(s: GameState, moves: seq<Cell>, p: Disc): seq<int> {
    Scores(moves, m => Tally(s, m, p), |moves|)
  }

  function MinimaxScores(s: GameState, moves: seq<Cell>, p: Disc): seq<int> {
    Scores(moves, m => SearchValue(s, m, p), |moves|)
  }

  /** `get_random_move`, with the generator's draw passed in. */
  function RandomMove(moves: seq<Cell>, draw: nat): (m: Cell)
    requires |moves| > 0
    ensures m in moves
  {
    moves[draw % |moves|]
  }

  /**
   * The state of a "keep the first strictly better" scan after the scores
   * `seen`, starting from `seed`: the best score so far and its earliest index.
   */
  predicate RunningBest(seen: seq<int>, k: int, best: int, seed: int) {
    (|seen| == 0 ==> k == 0 && best == seed) &&
    (|seen| > 0 ==> 0 <= k < |seen| && best == seen[k]) &&
    (forall j :: 0 <= j < |seen| ==> seen[j] <= best) &&
    (forall j :: 0 <= j < k ==> seen[j] < best)
  }

  /** One more score: a strictly greater one takes over, a tie keeps the earlier index. */
  lemma RunningBestStep(seen: seq<int>, k: int, best: int, seed: int, x: int)
    requires RunningBest(seen, k, best, seed) && seed <= x
    ensures RunningBest(seen + [x], if x > best then |seen| else k, Max(best, x), seed)
  {
  }

  lemma RunningBestDone(seen: seq<int>, k: int, best: int, seed: int)
    requires RunningBest(seen, k, best, seed) && |seen| > 0
    ensures FirstMax(seen, k)
  {
  }

  /** The body of the greedy loop: clone, play candidate i, count the mover's discs. */
  method MoveTally(s: GameState, moves: seq<Cell>, i: nat, p: Disc) returns (n: nat)
    requires i < |moves|
    ensures n == GreedyScores(s, moves, p)[i]
  {
    n := Mine(Counts(Play(s, moves[i].0, moves[i].1, p).grid), p);
    ScoresAt(moves, m => Tally(s, m, p), |moves|, i);
  }

  /** `get_greedy_move`: the earliest move leaving the mover with the most discs. */
  method GreedyMove(s: GameState, moves: seq<Cell>, p: Disc) returns (best: Cell)
    requires |moves| > 0
    ensures exists k :: FirstMax(GreedyScores(s, moves, p), k) && best == moves[k]
  {
    best := moves[0];
    var maxCount := 0;
    ghost var k := 0;
    ghost var scores := GreedyScores(s, moves, p);
    for i := 0 to |moves|
      invariant RunningBest(scores[..i], k, maxCount, 0)
      invariant 0 <= k < |moves| && best == moves[k]
    {
      var count := MoveTally(s, moves, i, p);
      assert scores[..i + 1] == scores[..i] + [count];
      RunningBestStep(scores[..i], k, maxCount, 0, count);
      if count > maxCount {
        maxCount := count;
        best := moves[i];
        k := i;
      }
    }
    assert scores[..|moves|] == scores;
    RunningBestDone(scores, k, maxCount, 0);
    assert FirstMax(scores, k) && best == moves[k];
  }

  /** The body of the minimax loop: clone, play candidate i, search with the full window. */
  method MoveScore(s: GameState, moves: seq<Cell>, i: nat, p: Disc) returns (score: int)
    requires i < |moves|
    ensures score == MinimaxScores(s, moves, p)[i]
    ensures -EvalBound <= score <= EvalBound
  {
    var child := Play(s, moves[i].0, moves[i].1, p);
    score := Minimax(child, SearchDepth, false, p, I32Min, I32Max);
    FullWindowExact(child.grid, SearchDepth, false, p);
    ScoresAt(moves, m => SearchValue(s, m, p), |moves|, i);
  }

  /** `get_minimax_move`: the earliest move with the greatest depth-4 search value. */
  method MinimaxMove(s: GameState, moves: seq<Cell>, p: Disc) returns (best: Cell)
    requires |moves| > 0
    ensures exists k :: FirstMax(MinimaxScores(s, moves, p), k) && best == moves[k]
  {
    best := moves[0];
    var bestScore := I32Min;
    ghost var k := 0;
    ghost var scores := MinimaxScores(s, moves, p);
    for i := 0 to |moves|
      invariant RunningBest(scores[..i], k, bestScore, I32Min)
      invariant 0 <= k < |moves| && best == moves[k]
    {
      var score := MoveScore(s, moves, i, p);
      assert scores[..i + 1] == scores[..i] + [score];
      RunningBestStep(scores[..i], k, bestScore, I32Min, score);
      if score > bestScore {
        bestScore := score;
        best := moves[i];
        k := i;
      }
    }
    assert scores[..|moves|] == scores;
    RunningBestDone(scores, k, bestScore, I32Min);
    assert FirstMax(scores, k) && best == moves[k];
  }

  /**
   * `get_best_move`: (0, 0) when `p` has no legal move; otherwise a legal
   * move chosen by the level's strategy.
   */
  method GetBestMove(s: GameState, p: Disc, level: CpuLevel, draw: nat) returns (m: Cell)
    ensures ValidMoves(s.grid, p) == [] ==> m == (0, 0)
    ensures ValidMoves(s.grid, p) != [] ==> m in ValidMoves(s.grid, p) && ValidMove(s.grid, m.0, m.1, p)
    ensures ValidMoves(s.grid, p) != [] && level == Easy ==> m == RandomMove(ValidMoves(s.grid, p), draw)
    ensures ValidMoves(s.grid, p) != [] && level == Medium ==>
      exists k :: FirstMax(GreedyScores(s, ValidMoves(s.grid, p), p), k) && m == ValidMoves(s.grid, p)[k]
    ensures ValidMoves(s.grid, p) != [] && level == Hard ==>
      exists k :: FirstMax(MinimaxScores(s, ValidMoves(s.grid, p), p), k) && m == ValidMoves(s.grid, p)[k]
  {
    var moves := ValidMoves(s.grid, p);
    ValidMovesSpec(s.grid, p);
    if moves == [] {
      return (0, 0);
    }
    match level
    case Easy =>
      m := RandomMove(moves, draw);
    case Medium =>
      m := GreedyMove(s, moves, p);
    case Hard =>
      m := MinimaxMove(s, moves, p);
  }
}
