/** Depth-limited minimax as minimax_max_node and minimax_min_node compute it
    (with caching off), and the true minimax value of the game tree it is
    meant to compute. */
module Minimax {
  import opened Othello

  /** The pair minimax_max_node returns: a cutoff node (no legal move for c,
      or limit 0) gives (0, 0) and the static utility; otherwise the scan of
      all of c's moves from the sentinel -1000. */
  function MinimaxMax(r: Rules, b: Board, c: Color, limit: int): (Move, int)
    requires ValidRules(r)
    decreases EmptySquares(b), 1, 0
  {
    var ms := r.moves(b, c);
    if ms == [] || limit == 0 then (NoMove, Utility(r, b, c))
    else MaxPrefix(r, b, c, limit, ms, |ms|)
  }

  /** (max_move, max_value) after the loop of minimax_max_node has seen the
      first i moves of ms: a strictly larger child value replaces the best. */
  function MaxPrefix(r: Rules, b: Board, c: Color, limit: int, ms: seq<Move>, i: nat): (Move, int)
    requires ValidRules(r) && Legal(r, b, c, ms) && i <= |ms|
    decreases EmptySquares(b), 0, i
  {
    if i == 0 then (NoMove, -1000)
    else
      var best := MaxPrefix(r, b, c, limit, ms, i - 1);
      PlayDecreases(r, b, c, ms[i - 1]);
      var v := MinimaxMin(r, r.play(b, c, ms[i - 1]), c, limit - 1).1;
      if v > best.1 then (ms[i - 1], v) else best
  }

  /** The pair minimax_min_node returns: the opponent of c moves; a strictly
      smaller child value replaces the best, from the sentinel 1000. */
  function MinimaxMin(r: Rules, b: Board, c: Color, limit: int): (Move, int)
    requires ValidRules(r)
    decreases EmptySquares(b), 1, 0
  {
    var ms := r.moves(b, Opponent(c));
    if ms == [] || limit == 0 then (NoMove, Utility(r, b, c))
    else MinPrefix(r, b, c, limit, ms, |ms|)
  }

  function MinPrefix(r: Rules, b: Board, c: Color, limit: int, ms: seq<Move>, i: nat): (Move, int)
    requires ValidRules(r) && Legal(r, b, Opponent(c), ms) && i <= |ms|
    decreases EmptySquares(b), 0, i
  {
    if i == 0 then (NoMove, 1000)
    else
      var best := MinPrefix(r, b, c, limit, ms, i - 1);
      PlayDecreases(r, b, Opponent(c), ms[i - 1]);
      var v := MinimaxMax(r, r.play(b, Opponent(c), ms[i - 1]), c, limit - 1).1;
      if v < best.1 then (ms[i - 1], v) else best
  }

  /** Value the min node backs up from the k-th move of ms at a max node. */
  function MaxChild(r: Rules, b: Board, c: Color, limit: int, ms: seq<Move>, k: nat): int
    requires ValidRules(r) && Legal(r, b, c, ms) && k < |ms|
  {
    MinimaxMin(r, r.play(b, c, ms[k]), c, limit - 1).1
  }

  /** Value the max node backs up from the k-th opponent move of ms at a min node. */
  function MinChild(r: Rules, b: Board, c: Color, limit: int, ms: seq<Move>, k: nat): int
    requires ValidRules(r) && Legal(r, b, Opponent(c), ms) && k < |ms|
  {
    MinimaxMax(r, r.play(b, Opponent(c), ms[k]), c, limit - 1).1
  }

  /** The minimax value of a node where c is to move, to the given depth:
      the maximum over c's moves, with no sentinel. */
  function GameMax(r: Rules, b: Board, c: Color, limit: int): int
    requires ValidRules(r)
    decreases EmptySquares(b), 1, 0
  {
    var ms := r.moves(b, c);
    if ms == [] || limit == 0 then Utility(r, b, c) else BestMax(r, b, c, limit, ms)
  }

  /** Maximum of the game values of the boards that the moves of ms produce. */
  function BestMax(r: Rules, b: Board, c: Color, limit: int, ms: seq<Move>): int
    requires ValidRules(r) && Legal(r, b, c, ms) && ms != []
    decreases EmptySquares(b), 0, |ms|
  {
    PlayDecreases(r, b, c, ms[0]);
    var v := GameMin(r, r.play(b, c, ms[0]), c, limit - 1);
    if |ms| == 1 then v else Max(v, BestMax(r, b, c, limit, ms[1..]))
  }

  /** The minimax value of a node where the opponent of c is to move. */
  function GameMin(r: Rules, b: Board, c: Color, limit: int): int
    requires ValidRules(r)
    decreases EmptySquares(b), 1, 0
  {
    var ms := r.moves(b, Opponent(c));
    if ms == [] || limit == 0 then Utility(r, b, c) else BestMin(r, b, c, limit, ms)
  }

  function BestMin(r: Rules, b: Board, c: Color, limit: int, ms: seq<Move>): int
    requires ValidRules(r) && Legal(r, b, Opponent(c), ms) && ms != []
    decreases EmptySquares(b), 0, |ms|
  {
    PlayDecreases(r, b, Opponent(c), ms[0]);
    var v := GameMax(r, r.play(b, Opponent(c), ms[0]), c, limit - 1);
    if |ms| == 1 then v else Min(v, BestMin(r, b, c, limit, ms[1..]))
  }

  // ---------------------------------------------------------------------
  // The game value is a maximum (minimum) over the children

  lemma {:induction false} BestMaxIsMax(r: Rules, b: Board, c: Color, limit: int, ms: seq<Move>)
    returns (j: nat)
    requires ValidRules(r) && Legal(r, b, c, ms) && ms != []
    ensures j < |ms| && BestMax(r, b, c, limit, ms) == GameMin(r, r.play(b, c, ms[j]), c, limit - 1)
    ensures forall k :: 0 <= k < |ms| ==>
      GameMin(r, r.play(b, c, ms[k]), c, limit - 1) <= BestMax(r, b, c, limit, ms)
    decreases |ms|
  {
    if |ms| == 1 {
      j := 0;
    } else {
      var j' := BestMaxIsMax(r, b, c, limit, ms[1..]);
      var v := GameMin(r, r.play(b, c, ms[0]), c, limit - 1);
      j := if v >= BestMax(r, b, c, limit, ms[1..]) then 0 else j' + 1;
      forall k | 1 <= k < |ms|
        ensures GameMin(r, r.play(b, c, ms[k]), c, limit - 1) <= BestMax(r, b, c, limit, ms)
      {
        assert ms[k] == ms[1..][k - 1];
      }
    }
  }

  lemma {:induction false} BestMinIsMin(r: Rules, b: Board, c: Color, limit: int, ms: seq<Move>)
    returns (j: nat)
    requires ValidRules(r) && Legal(r, b, Opponent(c), ms) && ms != []
    ensures j < |ms| && BestMin(r, b, c, limit, ms) == GameMax(r, r.play(b, Opponent(c), ms[j]), c, limit - 1)
    ensures forall k :: 0 <= k < |ms| ==>
      BestMin(r, b, c, limit, ms) <= GameMax(r, r.play(b, Opponent(c), ms[k]), c, limit - 1)
    decreases |ms|
  {
    if |ms| == 1 {
      j := 0;
    } else {
      var j' := BestMinIsMin(r, b, c, limit, ms[1..]);
      var v := GameMax(r, r.play(b, Opponent(c), ms[0]), c, limit - 1);
      j := if v <= BestMin(r, b, c, limit, ms[1..]) then 0 else j' + 1;
      forall k | 1 <= k < |ms|
        ensures BestMin(r, b, c, limit, ms) <= GameMax(r, r.play(b, Opponent(c), ms[k]), c, limit - 1)
      {
        assert ms[k] == ms[1..][k - 1];
      }
    }
  }

  /** The best child value depends only on which moves are explored, not on
      their order or repetitions (so move ordering cannot change it). */
  lemma BestMaxSameMoves(r: Rules, b: Board, c: Color, limit: int, ms: seq<Move>, ns: seq<Move>)
    requires ValidRules(r) && Legal(r, b, c, ms) && Legal(r, b, c, ns) && ms != [] && ns != []
    requires forall m :: m in ms <==> m in ns
    ensures BestMax(r, b, c, limit, ms) == BestMax(r, b, c, limit, ns)
  {
    var j := BestMaxIsMax(r, b, c, limit, ms);
    var k := BestMaxIsMax(r, b, c, limit, ns);
    assert ms[j] in ns;
    assert ns[k] in ms;
  }

  lemma BestMinSameMoves(r: Rules, b: Board, c: Color, limit: int, ms: seq<Move>, ns: seq<Move>)
    requires ValidRules(r) && Legal(r, b, Opponent(c), ms) && Legal(r, b, Opponent(c), ns)
    requires ms != [] && ns != []
    requires forall m :: m in ms <==> m in ns
    ensures BestMin(r, b, c, limit, ms) == BestMin(r, b, c, limit, ns)
  {
    var j := BestMinIsMin(r, b, c, limit, ms);
    var k := BestMinIsMin(r, b, c, limit, ns);
    assert ms[j] in ns;
    assert ns[k] in ms;
  }

  /** With utilities inside (-1000, 1000), so is every game value. */
  lemma {:induction false} GameMaxInRange(r: Rules, b: Board, c: Color, limit: int)
    requires ValidRules(r) && InRange(r)
    ensures -1000 < GameMax(r, b, c, limit) < 1000
    decreases EmptySquares(b)
  {
    var ms := r.moves(b, c);
    if ms != [] && limit != 0 {
      var j := BestMaxIsMax(r, b, c, limit, ms);
      PlayDecreases(r, b, c, ms[j]);
      GameMinInRange(r, r.play(b, c, ms[j]), c, limit - 1);
    }
  }

  lemma {:induction false} GameMinInRange(r: Rules, b: Board, c: Color, limit: int)
    requires ValidRules(r) && InRange(r)
    ensures -1000 < GameMin(r, b, c, limit) < 1000
    decreases EmptySquares(b)
  {
    var ms := r.moves(b, Opponent(c));
    if ms != [] && limit != 0 {
      var j := BestMinIsMin(r, b, c, limit, ms);
      PlayDecreases(r, b, Opponent(c), ms[j]);
      GameMaxInRange(r, r.play(b, Opponent(c), ms[j]), c, limit - 1);
    }
  }

  // ---------------------------------------------------------------------
  // The loops of minimax_max_node and minimax_min_node

  /** When every child value exceeds the sentinel -1000, the scan of the first
      i moves ends on the first move j whose child value is the largest: every
      child value is at most that of j, and every earlier one is strictly
      smaller (the comparison is a strict >). */
  lemma {:induction false} MaxPrefixFirstBest(r: Rules, b: Board, c: Color, limit: int, ms: seq<Move>, i: nat)
    returns (j: nat)
    requires ValidRules(r) && Legal(r, b, c, ms) && 1 <= i <= |ms|
    requires forall k :: 0 <= k < |ms| ==> MaxChild(r, b, c, limit, ms, k) > -1000
    ensures j < i
    ensures MaxPrefix(r, b, c, limit, ms, i) == (ms[j], MaxChild(r, b, c, limit, ms, j))
    ensures forall k :: 0 <= k < i ==> MaxChild(r, b, c, limit, ms, k) <= MaxChild(r, b, c, limit, ms, j)
    ensures forall k :: 0 <= k < j ==> MaxChild(r, b, c, limit, ms, k) < MaxChild(r, b, c, limit, ms, j)
  {
    if i == 1 {
      j := 0;
    } else {
      var j' := MaxPrefixFirstBest(r, b, c, limit, ms, i - 1);
      if MaxChild(r, b, c, limit, ms, i - 1) > MaxChild(r, b, c, limit, ms, j') {
        j := i - 1;
      } else {
        j := j';
      }
    }
  }

  lemma {:induction false} MinPrefixFirstBest(r: Rules, b: Board, c: Color, limit: int, ms: seq<Move>, i: nat)
    returns (j: nat)
    requires ValidRules(r) && Legal(r, b, Opponent(c), ms) && 1 <= i <= |ms|
    requires forall k :: 0 <= k < |ms| ==> MinChild(r, b, c, limit, ms, k) < 1000
    ensures j < i
    ensures MinPrefix(r, b, c, limit, ms, i) == (ms[j], MinChild(r, b, c, limit, ms, j))
    ensures forall k :: 0 <= k < i ==> MinChild(r, b, c, limit, ms, j) <= MinChild(r, b, c, limit, ms, k)
    ensures forall k :: 0 <= k < j ==> MinChild(r, b, c, limit, ms, j) < MinChild(r, b, c, limit, ms, k)
  {
    if i == 1 {
      j := 0;
    } else {
      var j' := MinPrefixFirstBest(r, b, c, limit, ms, i - 1);
      if MinChild(r, b, c, limit, ms, i - 1) < MinChild(r, b, c, limit, ms, j') {
        j := i - 1;
      } else {
        j := j';
      }
    }
  }

  /** With utilities inside (-1000, 1000) the sentinels never win: the value
      minimax_max_node and minimax_min_node back up is the minimax value. */
  lemma {:induction false} MinimaxMaxIsGameValue(r: Rules, b: Board, c: Color, limit: int)
    requires ValidRules(r) && InRange(r)
    ensures MinimaxMax(r, b, c, limit).1 == GameMax(r, b, c, limit)
    decreases EmptySquares(b)
  {
    var ms := r.moves(b, c);
    if ms != [] && limit != 0 {
      forall k | 0 <= k < |ms|
        ensures MaxChild(r, b, c, limit, ms, k) == GameMin(r, r.play(b, c, ms[k]), c, limit - 1)
        ensures MaxChild(r, b, c, limit, ms, k) > -1000
      {
        PlayDecreases(r, b, c, ms[k]);
        MinimaxMinIsGameValue(r, r.play(b, c, ms[k]), c, limit - 1);
        GameMinInRange(r, r.play(b, c, ms[k]), c, limit - 1);
      }
      var j := MaxPrefixFirstBest(r, b, c, limit, ms, |ms|);
      var k := BestMaxIsMax(r, b, c, limit, ms);
    }
  }

  lemma {:induction false} MinimaxMinIsGameValue(r: Rules, b: Board, c: Color, limit: int)
    requires ValidRules(r) && InRange(r)
    ensures MinimaxMin(r, b, c, limit).1 == GameMin(r, b, c, limit)
    decreases EmptySquares(b)
  {
    var ms := r.moves(b, Opponent(c));
    if ms != [] && limit != 0 {
      forall k | 0 <= k < |ms|
        ensures MinChild(r, b, c, limit, ms, k) == GameMax(r, r.play(b, Opponent(c), ms[k]), c, limit - 1)
        ensures MinChild(r, b, c, limit, ms, k) < 1000
      {
        PlayDecreases(r, b, Opponent(c), ms[k]);
        MinimaxMaxIsGameValue(r, r.play(b, Opponent(c), ms[k]), c, limit - 1);
        GameMaxInRange(r, r.play(b, Opponent(c), ms[k]), c, limit - 1);
      }
      var j := MinPrefixFirstBest(r, b, c, limit, ms, |ms|);
      var k := BestMinIsMin(r, b, c, limit, ms);
    }
  }

  /** At a max node that is not a cutoff, minimax_max_node returns the first
      legal move whose min-node value is the maximum, together with that value. */
  lemma MinimaxMaxMove(r: Rules, b: Board, c: Color, limit: int) returns (j: nat)
    requires ValidRules(r) && InRange(r)
    requires r.moves(b, c) != [] && limit != 0
    ensures j < |r.moves(b, c)|
    ensures MinimaxMax(r, b, c, limit) == (r.moves(b, c)[j], MaxChild(r, b, c, limit, r.moves(b, c), j))
    ensures forall k :: 0 <= k < |r.moves(b, c)| ==>
      MaxChild(r, b, c, limit, r.moves(b, c), k) <= MinimaxMax(r, b, c, limit).1
    ensures forall k :: 0 <= k < j ==>
      MaxChild(r, b, c, limit, r.moves(b, c), k) < MinimaxMax(r, b, c, limit).1
  {
    var ms := r.moves(b, c);
    forall k | 0 <= k < |ms|
      ensures MaxChild(r, b, c, limit, ms, k) > -1000
    {
      PlayDecreases(r, b, c, ms[k]);
      MinimaxMinIsGameValue(r, r.play(b, c, ms[k]), c, limit - 1);
      GameMinInRange(r, r.play(b, c, ms[k]), c, limit - 1);
    }
    j := MaxPrefixFirstBest(r, b, c, limit, ms, |ms|);
  }

  /** At a min node that is not a cutoff, minimax_min_node returns the first
      opponent move whose max-node value is the minimum, together with that value. */
  lemma MinimaxMinMove(r: Rules, b: Board, c: Color, limit: int) returns (j: nat)
    requires ValidRules(r) && InRange(r)
    requires r.moves(b, Opponent(c)) != [] && limit != 0
    ensures j < |r.moves(b, Opponent(c))|
    ensures MinimaxMin(r, b, c, limit)
         == (r.moves(b, Opponent(c))[j], MinChild(r, b, c, limit, r.moves(b, Opponent(c)), j))
    ensures forall k :: 0 <= k < |r.moves(b, Opponent(c))| ==>
      MinimaxMin(r, b, c, limit).1 <= MinChild(r, b, c, limit, r.moves(b, Opponent(c)), k)
    ensures forall k :: 0 <= k < j ==>
      MinimaxMin(r, b, c, limit).1 < MinChild(r, b, c, limit, r.moves(b, Opponent(c)), k)
  {
    var ms := r.moves(b, Opponent(c));
    forall k | 0 <= k < |ms|
      ensures MinChild(r, b, c, limit, ms, k) < 1000
    {
      PlayDecreases(r, b, Opponent(c), ms[k]);
      MinimaxMaxIsGameValue(r, r.play(b, Opponent(c), ms[k]), c, limit - 1);
      GameMaxInRange(r, r.play(b, Opponent(c), ms[k]), c, limit - 1);
    }
    j := MinPrefixFirstBest(r, b, c, limit, ms, |ms|);
  }

  /** With depth limit 1 every child is a cutoff node, so the max node picks
      the first move whose resulting board has the largest immediate utility,
      and returns that utility. */
  lemma MinimaxDepthOne(r: Rules, b: Board, c: Color) returns (j: nat)
    requires ValidRules(r) && InRange(r) && r.moves(b, c) != []
    ensures j < |r.moves(b, c)|
    ensures MinimaxMax(r, b, c, 1)
         == (r.moves(b, c)[j], Utility(r, r.play(b, c, r.moves(b, c)[j]), c))
    ensures forall k :: 0 <= k < |r.moves(b, c)| ==>
      Utility(r, r.play(b, c, r.moves(b, c)[k]), c) <= MinimaxMax(r, b, c, 1).1
    ensures forall k :: 0 <= k < j ==>
      Utility(r, r.play(b, c, r.moves(b, c)[k]), c) < MinimaxMax(r, b, c, 1).1
  {
    j := MinimaxMaxMove(r, b, c, 1);
    var ms := r.moves(b, c);
    forall k | 0 <= k < |ms|
      ensures MaxChild(r, b, c, 1, ms, k) == Utility(r, r.play(b, c, ms[k]), c)
    {
    }
  }

  // ---------------------------------------------------------------------
  // The depth limit is only compared with 0

  /** A limit that can never reach 0 before the game ends: negative (the
      driver's -1), or larger than the number of empty squares left. */
  predicate Unbounded(b: Board, limit: int)
  {
    limit < 0 || limit > EmptySquares(b)
  }

  lemma {:induction false} MaxPrefixCongruent(r: Rules, b: Board, c: Color, limit: int, limit': int, ms: seq<Move>, i: nat)
    requires ValidRules(r) && Legal(r, b, c, ms) && i <= |ms|
    requires forall k :: 0 <= k < |ms| ==> MaxChild(r, b, c, limit, ms, k) == MaxChild(r, b, c, limit', ms, k)
    ensures MaxPrefix(r, b, c, limit, ms, i) == MaxPrefix(r, b, c, limit', ms, i)
  {
    if i > 0 {
      MaxPrefixCongruent(r, b, c, limit, limit', ms, i - 1);
      assert MaxChild(r, b, c, limit, ms, i - 1) == MaxChild(r, b, c, limit', ms, i - 1);
    }
  }

  lemma {:induction false} MinPrefixCongruent(r: Rules, b: Board, c: Color, limit: int, limit': int, ms: seq<Move>, i: nat)
    requires ValidRules(r) && Legal(r, b, Opponent(c), ms) && i <= |ms|
    requires forall k :: 0 <= k < |ms| ==> MinChild(r, b, c, limit, ms, k) == MinChild(r, b, c, limit', ms, k)
    ensures MinPrefix(r, b, c, limit, ms, i) == MinPrefix(r, b, c, limit', ms, i)
  {
    if i > 0 {
      MinPrefixCongruent(r, b, c, limit, limit', ms, i - 1);
      assert MinChild(r, b, c, limit, ms, i - 1) == MinChild(r, b, c, limit', ms, i - 1);
    }
  }

  /** Any two limits that cannot reach 0 give the same search: with limit -1
      the search stops only where the side to move has no legal move, exactly
      as a search deeper than the number of empty squares does. */
  lemma {:induction false} MinimaxMaxUnbounded(r: Rules, b: Board, c: Color, limit: int, limit': int)
    requires ValidRules(r) && Unbounded(b, limit) && Unbounded(b, limit')
    ensures MinimaxMax(r, b, c, limit) == MinimaxMax(r, b, c, limit')
    decreases EmptySquares(b)
  {
    var ms := r.moves(b, c);
    if ms != [] {
      forall k | 0 <= k < |ms|
        ensures MaxChild(r, b, c, limit, ms, k) == MaxChild(r, b, c, limit', ms, k)
      {
        PlayDecreases(r, b, c, ms[k]);
        MinimaxMinUnbounded(r, r.play(b, c, ms[k]), c, limit - 1, limit' - 1);
      }
      MaxPrefixCongruent(r, b, c, limit, limit', ms, |ms|);
    }
  }

  lemma {:induction false} MinimaxMinUnbounded(r: Rules, b: Board, c: Color, limit: int, limit': int)
    requires ValidRules(r) && Unbounded(b, limit) && Unbounded(b, limit')
    ensures MinimaxMin(r, b, c, limit) == MinimaxMin(r, b, c, limit')
    decreases EmptySquares(b)
  {
    var ms := r.moves(b, Opponent(c));
    if ms != [] {
      forall k | 0 <= k < |ms|
        ensures MinChild(r, b, c, limit, ms, k) == MinChild(r, b, c, limit', ms, k)
      {
        PlayDecreases(r, b, Opponent(c), ms[k]);
        MinimaxMaxUnbounded(r, r.play(b, Opponent(c), ms[k]), c, limit - 1, limit' - 1);
      }
      MinPrefixCongruent(r, b, c, limit, limit', ms, |ms|);
    }
  }
}
