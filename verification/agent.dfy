/** The move selector of the Othello agent: the four search nodes, the two
    top-level entries and the process-wide transposition dictionary
    state_dictionary, which the nodes read and write when their caching flag
    is on. */
module Agent {
  import opened Othello
  import opened Ordering
  import opened Minimax
  import opened AlphaBeta

  /** A cache key: the board and the colour the search maximises for (no depth, no window). */
  type CacheKey = (Board, Color)

  /** A cache entry: the best move found at the node and its backed-up value. */
  type CacheEntry = (Move, int)

  class Player {
    /** The board primitives the agent calls. */
    const rules: Rules

    /** state_dictionary: shared by min and max nodes and by both searches;
        entries are never removed. */
    var cache: map<CacheKey, CacheEntry>

    constructor (rules: Rules)
      ensures this.rules == rules && cache == map[]
    {
      this.rules := rules;
      cache := map[];
    }

    /** minimax_min_node. With caching on, a stored pair for (board, color) is
        returned unchanged; otherwise the opponent's moves are scanned and,
        with caching on, the result is stored. The children are searched with
        caching off. */
    method MinimaxMinNode(board: Board, color: Color, limit: int, caching: bool := false)
      returns (move: Move, value: int)
      requires ValidRules(rules)
      modifies this
      ensures caching && (board, color) in old(cache) ==>
        (move, value) == old(cache)[(board, color)] && cache == old(cache)
      ensures !(caching && (board, color) in old(cache)) ==>
        (move, value) == MinimaxMin(rules, board, color, limit)
      ensures caching && (board, color) !in old(cache) ==>
        cache == old(cache)[(board, color) := (move, value)]
      ensures !caching ==> cache == old(cache)
      decreases EmptySquares(board), 1
    {
      var opponent := Opponent(color);
      if caching && (board, color) in cache {
        move, value := cache[(board, color)].0, cache[(board, color)].1;
        return;
      }
      var moves := rules.moves(board, opponent);
      if moves == [] || limit == 0 {
        var utility := Utility(rules, board, color);
        if caching {
          cache := cache[(board, color) := (NoMove, utility)];
        }
        return NoMove, utility;
      }
      move, value := NoMove, 1000;
      for i := 0 to |moves|
        invariant (move, value) == MinPrefix(rules, board, color, limit, moves, i)
        invariant cache == old(cache)
      {
        var next := rules.play(board, opponent, moves[i]);
        PlayDecreases(rules, board, opponent, moves[i]);
        var nextMove, v := MinimaxMaxNode(next, color, limit - 1);
        if v < value {
          value := v;
          move := moves[i];
        }
      }
      if caching {
        cache := cache[(board, color) := (move, value)];
      }
    }

    /** minimax_max_node: the same on color's own moves, keeping the first
        move with the strictly largest value. */
    method MinimaxMaxNode(board: Board, color: Color, limit: int, caching: bool := false)
      returns (move: Move, value: int)
      requires ValidRules(rules)
      modifies this
      ensures caching && (board, color) in old(cache) ==>
        (move, value) == old(cache)[(board, color)] && cache == old(cache)
      ensures !(caching && (board, color) in old(cache)) ==>
        (move, value) == MinimaxMax(rules, board, color, limit)
      ensures caching && (board, color) !in old(cache) ==>
        cache == old(cache)[(board, color) := (move, value)]
      ensures !caching ==> cache == old(cache)
      decreases EmptySquares(board), 1
    {
      if caching && (board, color) in cache {
        move, value := cache[(board, color)].0, cache[(board, color)].1;
        return;
      }
      var moves := rules.moves(board, color);
      if moves == [] || limit == 0 {
        var utility := Utility(rules, board, color);
        if caching {
          cache := cache[(board, color) := (NoMove, utility)];
        }
        return NoMove, utility;
      }
      move, value := NoMove, -1000;
      for i := 0 to |moves|
        invariant (move, value) == MaxPrefix(rules, board, color, limit, moves, i)
        invariant cache == old(cache)
      {
        var next := rules.play(board, color, moves[i]);
        PlayDecreases(rules, board, color, moves[i]);
        var nextMove, v := MinimaxMinNode(next, color, limit - 1);
        if v > value {
          move := moves[i];
          value := v;
        }
      }
      if caching {
        cache := cache[(board, color) := (move, value)];
      }
    }

    /** select_move_minimax: the move of the max node, searched with caching
        off whatever the caching argument says (the flag is not passed on). */
    method SelectMoveMinimax(board: Board, color: Color, limit: int, caching: bool) returns (move: Move)
      requires ValidRules(rules)
      modifies this
      ensures move == MinimaxMax(rules, board, color, limit).0
      ensures cache == old(cache)
    {
      var utility;
      move, utility := MinimaxMaxNode(board, color, limit);
    }

    /** alphabeta_min_node: optional move ordering, then beta := min(beta, child)
        over the opponent's moves, min_move replaced only when beta changed,
        stopping as soon as beta <= alpha. */
    method AlphabetaMinNode(board: Board, color: Color, alpha: int, beta: int, limit: int,
                            caching: bool := false, ordering: bool := false)
      returns (move: Move, value: int)
      requires ValidRules(rules)
      modifies this
      ensures caching && (board, color) in old(cache) ==>
        (move, value) == old(cache)[(board, color)] && cache == old(cache)
      ensures !(caching && (board, color) in old(cache)) ==>
        (move, value) == ABMin(rules, board, color, alpha, beta, limit, ordering)
      ensures caching && (board, color) !in old(cache) ==>
        cache == old(cache)[(board, color) := (move, value)]
      ensures !caching ==> cache == old(cache)
      decreases EmptySquares(board), 1
    {
      var opponent := Opponent(color);
      if caching && (board, color) in cache {
        move, value := cache[(board, color)].0, cache[(board, color)].1;
        return;
      }
      var moves := rules.moves(board, opponent);
      if moves == [] || limit == 0 {
        var utility := Utility(rules, board, color);
        if caching {
          cache := cache[(board, color) := (NoMove, utility)];
        }
        return NoMove, utility;
      }
      if ordering {
        moves := OrderMoves(moves, ImmediateUtility(rules, board, opponent, color));
      }
      assert moves == MinExplored(rules, board, color, ordering);
      move, value := AlphabetaMinLoop(board, color, alpha, beta, limit, moves);
      if caching {
        cache := cache[(board, color) := (move, value)];
      }
    }

    /** alphabeta_max_node: symmetric, alpha := max(alpha, child) over color's
        moves, max_move replaced only when alpha changed. */
    method AlphabetaMaxNode(board: Board, color: Color, alpha: int, beta: int, limit: int,
                            caching: bool := false, ordering: bool := false)
      returns (move: Move, value: int)
      requires ValidRules(rules)
      modifies this
      ensures caching && (board, color) in old(cache) ==>
        (move, value) == old(cache)[(board, color)] && cache == old(cache)
      ensures !(caching && (board, color) in old(cache)) ==>
        (move, value) == ABMax(rules, board, color, alpha, beta, limit, ordering)
      ensures caching && (board, color) !in old(cache) ==>
        cache == old(cache)[(board, color) := (move, value)]
      ensures !caching ==> cache == old(cache)
      decreases EmptySquares(board), 1
    {
      if caching && (board, color) in cache {
        move, value := cache[(board, color)].0, cache[(board, color)].1;
        return;
      }
      var moves := rules.moves(board, color);
      if moves == [] || limit == 0 {
        var utility := Utility(rules, board, color);
        if caching {
          cache := cache[(board, color) := (NoMove, utility)];
        }
        return NoMove, utility;
      }
      if ordering {
        moves := OrderMoves(moves, ImmediateUtility(rules, board, color, color));
      }
      assert moves == MaxExplored(rules, board, color, ordering);
      move, value := AlphabetaMaxLoop(board, color, alpha, beta, limit, moves);
      if caching {
        cache := cache[(board, color) := (move, value)];
      }
    }

    /** The loop of alphabeta_min_node over the explored moves. */
    method AlphabetaMinLoop(board: Board, color: Color, alpha: int, beta: int, limit: int, moves: seq<Move>)
      returns (move: Move, value: int)
      requires ValidRules(rules) && Legal(rules, board, Opponent(color), moves)
      modifies this
      ensures (move, value) == ABMinScan(rules, board, color, alpha, beta, limit, moves, 0, NoMove)
      ensures cache == old(cache)
      decreases EmptySquares(board), 0
    {
      var opponent := Opponent(color);
      move := NoMove;
      var betaNow := beta;
      var i := 0;
      while i < |moves|
        invariant 0 <= i <= |moves|
        invariant ABMinScan(rules, board, color, alpha, betaNow, limit, moves, i, move)
               == ABMinScan(rules, board, color, alpha, beta, limit, moves, 0, NoMove)
        invariant cache == old(cache)
        decreases |moves| - i
      {
        var next := rules.play(board, opponent, moves[i]);
        PlayDecreases(rules, board, opponent, moves[i]);
        var nextMove, v := AlphabetaMaxNode(next, color, alpha, betaNow, limit - 1);
        var oldBeta := betaNow;
        betaNow := Min(betaNow, v);
        if betaNow != oldBeta {
          move := moves[i];
        }
        if betaNow <= alpha {
          break;
        }
        i := i + 1;
      }
      value := betaNow;
    }

    /** The loop of alphabeta_max_node over the explored moves. */
    method AlphabetaMaxLoop(board: Board, color: Color, alpha: int, beta: int, limit: int, moves: seq<Move>)
      returns (move: Move, value: int)
      requires ValidRules(rules) && Legal(rules, board, color, moves)
      modifies this
      ensures (move, value) == ABMaxScan(rules, board, color, alpha, beta, limit, moves, 0, NoMove)
      ensures cache == old(cache)
      decreases EmptySquares(board), 0
    {
      move := NoMove;
      var alphaNow := alpha;
      var i := 0;
      while i < |moves|
        invariant 0 <= i <= |moves|
        invariant ABMaxScan(rules, board, color, alphaNow, beta, limit, moves, i, move)
               == ABMaxScan(rules, board, color, alpha, beta, limit, moves, 0, NoMove)
        invariant cache == old(cache)
        decreases |moves| - i
      {
        var next := rules.play(board, color, moves[i]);
        PlayDecreases(rules, board, color, moves[i]);
        var nextMove, v := AlphabetaMinNode(next, color, alphaNow, beta, limit - 1);
        var oldAlpha := alphaNow;
        alphaNow := Max(alphaNow, v);
        if alphaNow != oldAlpha {
          move := moves[i];
        }
        if beta <= alphaNow {
          break;
        }
        i := i + 1;
      }
      value := alphaNow;
    }

    /** select_move_alphabeta: the move of the max node from the window
        (-100000, 100000), with caching and ordering off whatever the
        arguments say (neither flag is passed on). With utilities inside
        (-1000, 1000) it is the move select_move_minimax chooses. */
    method SelectMoveAlphabeta(board: Board, color: Color, limit: int, caching: bool, ordering: bool)
      returns (move: Move)
      requires ValidRules(rules)
      modifies this
      ensures move == ABMax(rules, board, color, RootAlpha, RootBeta, limit, false).0
      ensures InRange(rules) ==> move == MinimaxMax(rules, board, color, limit).0
      ensures cache == old(cache)
    {
      var utility;
      move, utility := AlphabetaMaxNode(board, color, RootAlpha, RootBeta, limit);
      if InRange(rules) {
        AlphaBetaRootMatchesMinimax(rules, board, color, limit);
      }
    }
  }

  /** The cache key ignores the depth, the window and the kind of node: once a
      max node has stored its pair for (board, color), a min node of the other
      search, at another depth and window, returns that same pair. */
  method CacheIgnoresDepthAndNodeKind(p: Player, board: Board, color: Color, limit: int, alpha: int, beta: int)
    returns (stored: CacheEntry, reused: CacheEntry)
    requires ValidRules(p.rules) && (board, color) !in p.cache
    modifies p
    ensures stored == MinimaxMax(p.rules, board, color, limit)
    ensures reused == stored
    ensures p.cache == old(p.cache)[(board, color) := stored]
  {
    var move, value := p.MinimaxMaxNode(board, color, limit, true);
    stored := (move, value);
    move, value := p.AlphabetaMinNode(board, color, alpha, beta, limit + 1, true, true);
    reused := (move, value);
  }
}
