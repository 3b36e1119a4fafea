/** Alpha-beta search as alphabeta_max_node and alphabeta_min_node compute it
    (with caching off), and its correctness against the minimax value. */
module AlphaBeta {
  import opened Othello
  import opened Ordering
  import opened Minimax

  /** The immediate utility, for colour c, of the board mover's move m produces:
      the key of the ordering block. */
  function ImmediateUtility(r: Rules, b: Board, mover: Color, c: Color): Move -> int
  {
    m => Utility(r, r.play(b, mover, m), c)
  }

  /** The moves a max node explores: c's legal moves, reordered when the
      ordering flag reaches this node. */
  function MaxExplored(r: Rules, b: Board, c: Color, ordering: bool): (ms: seq<Move>)
    ensures Legal(r, b, c, ms)
  {
    var moves := r.moves(b, c);
    if ordering then OrderedMoves(moves, ImmediateUtility(r, b, c, c)) else moves
  }

  /** The moves a min node explores: the opponent's legal moves, reordered
      (also in descending utility for c) when the ordering flag reaches it. */
  function MinExplored(r: Rules, b: Board, c: Color, ordering: bool): (ms: seq<Move>)
    ensures Legal(r, b, Opponent(c), ms)
  {
    var moves := r.moves(b, Opponent(c));
    if ordering then OrderedMoves(moves, ImmediateUtility(r, b, Opponent(c), c)) else moves
  }

  /** The pair alphabeta_max_node returns. Children are searched with
      ordering off, since the recursive calls drop the flag. */
  function ABMax(r: Rules, b: Board, c: Color, alpha: int, beta: int, limit: int, ordering: bool): (Move, int)
    requires ValidRules(r)
    decreases EmptySquares(b), 1, 0
  {
    if r.moves(b, c) == [] || limit == 0 then (NoMove, Utility(r, b, c))
    else ABMaxScan(r, b, c, alpha, beta, limit, MaxExplored(r, b, c, ordering), 0, NoMove)
  }

  /** The loop of alphabeta_max_node from position i of ms, with the current
      alpha and max_move: alpha becomes max(alpha, child value), max_move
      changes only when alpha changed, and the loop stops once beta <= alpha. */
  function ABMaxScan(r: Rules, b: Board, c: Color, alpha: int, beta: int, limit: int,
                     ms: seq<Move>, i: nat, best: Move): (Move, int)
    requires ValidRules(r) && Legal(r, b, c, ms) && i <= |ms|
    decreases EmptySquares(b), 0, |ms| - i
  {
    if i == |ms| then (best, alpha)
    else
      PlayDecreases(r, b, c, ms[i]);
      var v := ABMin(r, r.play(b, c, ms[i]), c, alpha, beta, limit - 1, false).1;
      var alpha' := Max(alpha, v);
      var best' := if alpha' != alpha then ms[i] else best;
      if beta <= alpha' then (best', alpha')
      else ABMaxScan(r, b, c, alpha', beta, limit, ms, i + 1, best')
  }

  /** The pair alphabeta_min_node returns. */
  function ABMin(r: Rules, b: Board, c: Color, alpha: int, beta: int, limit: int, ordering: bool): (Move, int)
    requires ValidRules(r)
    decreases EmptySquares(b), 1, 0
  {
    if r.moves(b, Opponent(c)) == [] || limit == 0 then (NoMove, Utility(r, b, c))
    else ABMinScan(r, b, c, alpha, beta, limit, MinExplored(r, b, c, ordering), 0, NoMove)
  }

  /** The loop of alphabeta_min_node: symmetric, on beta. */
  function ABMinScan(r: Rules, b: Board, c: Color, alpha: int, beta: int, limit: int,
                     ms: seq<Move>, i: nat, best: Move): (Move, int)
    requires ValidRules(r) && Legal(r, b, Opponent(c), ms) && i <= |ms|
    decreases EmptySquares(b), 0, |ms| - i
  {
    if i == |ms| then (best, beta)
    else
      PlayDecreases(r, b, Opponent(c), ms[i]);
      var v := ABMax(r, r.play(b, Opponent(c), ms[i]), c, alpha, beta, limit - 1, false).1;
      var beta' := Min(beta, v);
      var best' := if beta' != beta then ms[i] else best;
      if beta' <= alpha then (best', beta')
      else ABMinScan(r, b, c, alpha, beta', limit, ms, i + 1, best')
  }

  // ---------------------------------------------------------------------
  // Loop invariants of the two scans

  /** alpha never decreases in the loop of alphabeta_max_node, and max_move
      changes only when alpha strictly increases: if the returned alpha is the
      starting one the starting move is returned, otherwise one of the moves
      explored from position i. */
  lemma {:induction false} ABMaxScanMonotone(r: Rules, b: Board, c: Color, alpha: int, beta: int, limit: int,
                                             ms: seq<Move>, i: nat, best: Move)
    requires ValidRules(r) && Legal(r, b, c, ms) && i <= |ms|
    ensures ABMaxScan(r, b, c, alpha, beta, limit, ms, i, best).1 >= alpha
    ensures ABMaxScan(r, b, c, alpha, beta, limit, ms, i, best).1 == alpha ==>
      ABMaxScan(r, b, c, alpha, beta, limit, ms, i, best).0 == best
    ensures ABMaxScan(r, b, c, alpha, beta, limit, ms, i, best).1 != alpha ==>
      ABMaxScan(r, b, c, alpha, beta, limit, ms, i, best).0 in ms[i..]
    decreases |ms| - i
  {
    if i < |ms| {
      var v := ABMin(r, r.play(b, c, ms[i]), c, alpha, beta, limit - 1, false).1;
      var alpha' := Max(alpha, v);
      var best' := if alpha' != alpha then ms[i] else best;
      if beta > alpha' {
        ABMaxScanMonotone(r, b, c, alpha', beta, limit, ms, i + 1, best');
        assert ms[i..] == [ms[i]] + ms[i + 1..];
      }
    }
  }

  /** beta never increases in the loop of alphabeta_min_node, and min_move
      changes only when beta strictly decreases. */
  lemma {:induction false} ABMinScanMonotone(r: Rules, b: Board, c: Color, alpha: int, beta: int, limit: int,
                                             ms: seq<Move>, i: nat, best: Move)
    requires ValidRules(r) && Legal(r, b, Opponent(c), ms) && i <= |ms|
    ensures ABMinScan(r, b, c, alpha, beta, limit, ms, i, best).1 <= beta
    ensures ABMinScan(r, b, c, alpha, beta, limit, ms, i, best).1 == beta ==>
      ABMinScan(r, b, c, alpha, beta, limit, ms, i, best).0 == best
    ensures ABMinScan(r, b, c, alpha, beta, limit, ms, i, best).1 != beta ==>
      ABMinScan(r, b, c, alpha, beta, limit, ms, i, best).0 in ms[i..]
    decreases |ms| - i
  {
    if i < |ms| {
      var v := ABMax(r, r.play(b, Opponent(c), ms[i]), c, alpha, beta, limit - 1, false).1;
      var beta' := Min(beta, v);
      var best' := if beta' != beta then ms[i] else best;
      if beta' > alpha {
        ABMinScanMonotone(r, b, c, alpha, beta', limit, ms, i + 1, best');
        assert ms[i..] == [ms[i]] + ms[i + 1..];
      }
    }
  }

  // ---------------------------------------------------------------------
  // Correctness: inside the window, alpha-beta returns the minimax value

  lemma {:induction false} ABMaxScanCorrect(r: Rules, b: Board, c: Color, alpha: int, beta: int, limit: int,
                                            ms: seq<Move>, i: nat, best: Move)
    requires ValidRules(r) && Legal(r, b, c, ms) && i < |ms| && alpha < beta
    ensures Legal(r, b, c, ms[i..])
    ensures Clamp(ABMaxScan(r, b, c, alpha, beta, limit, ms, i, best).1, alpha, beta)
         == Clamp(BestMax(r, b, c, limit, ms[i..]), alpha, beta)
    decreases EmptySquares(b), 0, |ms| - i
  {
    assert Legal(r, b, c, ms[i..]) by {
      forall k | 0 <= k < |ms[i..]| ensures ms[i..][k] in r.moves(b, c) {
        assert ms[i..][k] == ms[i + k];
      }
    }
    var child := r.play(b, c, ms[i]);
    PlayDecreases(r, b, c, ms[i]);
    var v := ABMin(r, child, c, alpha, beta, limit - 1, false).1;
    var g := GameMin(r, child, c, limit - 1);
    ABMinCorrect(r, child, c, alpha, beta, limit - 1, false);
    var alpha' := Max(alpha, v);
    var best' := if alpha' != alpha then ms[i] else best;
    assert ms[i..][0] == ms[i];
    if |ms[i..]| > 1 {
      assert ms[i..][1..] == ms[i + 1..];
    }
    if beta > alpha' && i + 1 < |ms| {
      ABMaxScanCorrect(r, b, c, alpha', beta, limit, ms, i + 1, best');
      ABMaxScanMonotone(r, b, c, alpha', beta, limit, ms, i + 1, best');
    }
  }

  lemma {:induction false} ABMinScanCorrect(r: Rules, b: Board, c: Color, alpha: int, beta: int, limit: int,
                                            ms: seq<Move>, i: nat, best: Move)
    requires ValidRules(r) && Legal(r, b, Opponent(c), ms) && i < |ms| && alpha < beta
    ensures Legal(r, b, Opponent(c), ms[i..])
    ensures Clamp(ABMinScan(r, b, c, alpha, beta, limit, ms, i, best).1, alpha, beta)
         == Clamp(BestMin(r, b, c, limit, ms[i..]), alpha, beta)
    decreases EmptySquares(b), 0, |ms| - i
  {
    assert Legal(r, b, Opponent(c), ms[i..]) by {
      forall k | 0 <= k < |ms[i..]| ensures ms[i..][k] in r.moves(b, Opponent(c)) {
        assert ms[i..][k] == ms[i + k];
      }
    }
    var child := r.play(b, Opponent(c), ms[i]);
    PlayDecreases(r, b, Opponent(c), ms[i]);
    var v := ABMax(r, child, c, alpha, beta, limit - 1, false).1;
    var g := GameMax(r, child, c, limit - 1);
    ABMaxCorrect(r, child, c, alpha, beta, limit - 1, false);
    var beta' := Min(beta, v);
    var best' := if beta' != beta then ms[i] else best;
    assert ms[i..][0] == ms[i];
    if |ms[i..]| > 1 {
      assert ms[i..][1..] == ms[i + 1..];
    }
    if beta' > alpha && i + 1 < |ms| {
      ABMinScanCorrect(r, b, c, alpha, beta', limit, ms, i + 1, best');
      ABMinScanMonotone(r, b, c, alpha, beta', limit, ms, i + 1, best');
    }
  }

  /** Alpha-beta correctness (fail-hard form, caching off): for any window
      alpha < beta, the value alphabeta_max_node returns and the minimax value
      agree once both are clamped to the window, whether or not the node
      reorders its moves. So a minimax value inside the window is returned
      exactly, one at or below alpha yields a value at or below alpha, and one
      at or above beta yields a value at or above beta. */
  lemma {:induction false} ABMaxCorrect(r: Rules, b: Board, c: Color, alpha: int, beta: int, limit: int, ordering: bool)
    requires ValidRules(r) && alpha < beta
    ensures Clamp(ABMax(r, b, c, alpha, beta, limit, ordering).1, alpha, beta)
         == Clamp(GameMax(r, b, c, limit), alpha, beta)
    decreases EmptySquares(b), 1, 0
  {
    var moves := r.moves(b, c);
    if moves != [] && limit != 0 {
      var ms := MaxExplored(r, b, c, ordering);
      if ordering {
        forall m ensures m in ms <==> m in moves {
          OrderedMovesMultiplicity(moves, ImmediateUtility(r, b, c, c), m);
        }
      }
      assert ms != [] by {
        assert moves[0] in ms;
      }
      ABMaxScanCorrect(r, b, c, alpha, beta, limit, ms, 0, NoMove);
      assert ms[0..] == ms;
      BestMaxSameMoves(r, b, c, limit, ms, moves);
    }
  }

  /** The same for alphabeta_min_node and the minimax value of a min node. */
  lemma {:induction false} ABMinCorrect(r: Rules, b: Board, c: Color, alpha: int, beta: int, limit: int, ordering: bool)
    requires ValidRules(r) && alpha < beta
    ensures Clamp(ABMin(r, b, c, alpha, beta, limit, ordering).1, alpha, beta)
         == Clamp(GameMin(r, b, c, limit), alpha, beta)
    decreases EmptySquares(b), 1, 0
  {
    var moves := r.moves(b, Opponent(c));
    if moves != [] && limit != 0 {
      var ms := MinExplored(r, b, c, ordering);
      if ordering {
        forall m ensures m in ms <==> m in moves {
          OrderedMovesMultiplicity(moves, ImmediateUtility(r, b, Opponent(c), c), m);
        }
      }
      assert ms != [] by {
        assert moves[0] in ms;
      }
      ABMinScanCorrect(r, b, c, alpha, beta, limit, ms, 0, NoMove);
      assert ms[0..] == ms;
      BestMinSameMoves(r, b, c, limit, ms, moves);
    }
  }

  /** The window select_move_alphabeta starts from. */
  const RootAlpha: int := -100000
  const RootBeta: int := 100000

  /** With utilities inside (-1000, 1000), the root value of alpha-beta from
      the window (-100000, 100000), with or without move ordering, is the value
      minimax_max_node returns. */
  lemma AlphaBetaRootIsMinimax(r: Rules, b: Board, c: Color, limit: int, ordering: bool)
    requires ValidRules(r) && InRange(r)
    ensures ABMax(r, b, c, RootAlpha, RootBeta, limit, ordering).1 == MinimaxMax(r, b, c, limit).1
  {
    ABMaxCorrect(r, b, c, RootAlpha, RootBeta, limit, ordering);
    GameMaxInRange(r, b, c, limit);
    MinimaxMaxIsGameValue(r, b, c, limit);
  }

  /** From step i >= 1 on, the root loop of alphabeta_max_node (window
      (alpha, 100000), alpha the best child value so far) and the loop of
      minimax_max_node hold the same pair: every child value lies inside the
      window, so alpha-beta sees it exactly, and alpha rises exactly when
      max_value would, replacing the move at the same steps. */
  lemma {:induction false} RootScanFollowsMaxPrefix(r: Rules, b: Board, c: Color, limit: int, ms: seq<Move>, i: nat)
    requires ValidRules(r) && Legal(r, b, c, ms) && 1 <= i <= |ms|
    requires forall k :: 0 <= k < |ms| ==>
      MaxChild(r, b, c, limit, ms, k) == GameMin(r, r.play(b, c, ms[k]), c, limit - 1)
    requires forall k :: 0 <= k < |ms| ==> -1000 < MaxChild(r, b, c, limit, ms, k) < 1000
    ensures ABMaxScan(r, b, c, MaxPrefix(r, b, c, limit, ms, i).1, RootBeta, limit, ms, i,
                      MaxPrefix(r, b, c, limit, ms, i).0)
         == MaxPrefix(r, b, c, limit, ms, |ms|)
    decreases |ms| - i
  {
    var (best, alpha) := MaxPrefix(r, b, c, limit, ms, i);
    var j := MaxPrefixFirstBest(r, b, c, limit, ms, i);
    assert -1000 < alpha < 1000;
    if i < |ms| {
      var child := r.play(b, c, ms[i]);
      PlayDecreases(r, b, c, ms[i]);
      ABMinCorrect(r, child, c, alpha, RootBeta, limit - 1, false);
      var g := MaxChild(r, b, c, limit, ms, i);
      var v := ABMin(r, child, c, alpha, RootBeta, limit - 1, false).1;
      if g > alpha {
        assert v == g;
        assert MaxPrefix(r, b, c, limit, ms, i + 1) == (ms[i], g);
      } else {
        assert v <= alpha;
        assert MaxPrefix(r, b, c, limit, ms, i + 1) == (best, alpha);
      }
      RootScanFollowsMaxPrefix(r, b, c, limit, ms, i + 1);
    }
  }

  /** With utilities inside (-1000, 1000), alphabeta_max_node from the window
      (-100000, 100000) returns the very pair minimax_max_node returns, move
      included: select_move_alphabeta and select_move_minimax choose the same
      move. */
  lemma AlphaBetaRootMatchesMinimax(r: Rules, b: Board, c: Color, limit: int)
    requires ValidRules(r) && InRange(r)
    ensures ABMax(r, b, c, RootAlpha, RootBeta, limit, false) == MinimaxMax(r, b, c, limit)
  {
    var ms := r.moves(b, c);
    if ms != [] && limit != 0 {
      forall k | 0 <= k < |ms|
        ensures MaxChild(r, b, c, limit, ms, k) == GameMin(r, r.play(b, c, ms[k]), c, limit - 1)
        ensures -1000 < MaxChild(r, b, c, limit, ms, k) < 1000
      {
        PlayDecreases(r, b, c, ms[k]);
        MinimaxMinIsGameValue(r, r.play(b, c, ms[k]), c, limit - 1);
        GameMinInRange(r, r.play(b, c, ms[k]), c, limit - 1);
      }
      // The first child lies inside the root window, so it becomes alpha and
      // max_move, as it becomes max_value and max_move in minimax.
      var child := r.play(b, c, ms[0]);
      PlayDecreases(r, b, c, ms[0]);
      ABMinCorrect(r, child, c, RootAlpha, RootBeta, limit - 1, false);
      var g := MaxChild(r, b, c, limit, ms, 0);
      assert ABMin(r, child, c, RootAlpha, RootBeta, limit - 1, false).1 == g;
      assert MaxPrefix(r, b, c, limit, ms, 1) == (ms[0], g);
      RootScanFollowsMaxPrefix(r, b, c, limit, ms, 1);
    }
  }

  /** With utilities inside (-1000, 1000), the move select_move_alphabeta
      returns at a position where color has a legal move is one of them.
      A corollary: that move is minimax_max_node's, which is a legal move. */
  lemma AlphaBetaRootMoveIsLegal(r: Rules, b: Board, c: Color, limit: int)
    requires ValidRules(r) && InRange(r) && r.moves(b, c) != [] && limit != 0
    ensures ABMax(r, b, c, RootAlpha, RootBeta, limit, false).0 in r.moves(b, c)
  {
    AlphaBetaRootMatchesMinimax(r, b, c, limit);
    var j := MinimaxMaxMove(r, b, c, limit);
  }

  /** Move ordering only expedites pruning: for any window it does not change
      the clamped value of a node. */
  lemma OrderingKeepsValue(r: Rules, b: Board, c: Color, alpha: int, beta: int, limit: int)
    requires ValidRules(r) && alpha < beta
    ensures Clamp(ABMax(r, b, c, alpha, beta, limit, true).1, alpha, beta)
         == Clamp(ABMax(r, b, c, alpha, beta, limit, false).1, alpha, beta)
    ensures Clamp(ABMin(r, b, c, alpha, beta, limit, true).1, alpha, beta)
         == Clamp(ABMin(r, b, c, alpha, beta, limit, false).1, alpha, beta)
  {
    ABMaxCorrect(r, b, c, alpha, beta, limit, true);
    ABMaxCorrect(r, b, c, alpha, beta, limit, false);
    ABMinCorrect(r, b, c, alpha, beta, limit, true);
    ABMinCorrect(r, b, c, alpha, beta, limit, false);
  }

  /** A cutoff node (depth limit 0, or no legal move for the side to move: c
      at a max node, the opponent at a min node) returns (0, 0) and the static
      utility for c, in both searches, whatever the window and flags. */
  lemma CutoffNodes(r: Rules, b: Board, c: Color, alpha: int, beta: int, limit: int, ordering: bool)
    requires ValidRules(r)
    ensures r.moves(b, c) == [] || limit == 0 ==>
      MinimaxMax(r, b, c, limit) == (NoMove, Utility(r, b, c)) &&
      ABMax(r, b, c, alpha, beta, limit, ordering) == (NoMove, Utility(r, b, c)) &&
      GameMax(r, b, c, limit) == Utility(r, b, c)
    ensures r.moves(b, Opponent(c)) == [] || limit == 0 ==>
      MinimaxMin(r, b, c, limit) == (NoMove, Utility(r, b, c)) &&
      ABMin(r, b, c, alpha, beta, limit, ordering) == (NoMove, Utility(r, b, c)) &&
      GameMin(r, b, c, limit) == Utility(r, b, c)
  {
  }
}
