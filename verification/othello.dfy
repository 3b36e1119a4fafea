/** The board vocabulary the agent works with: boards, colours, moves, the
    board primitives it consumes (legal moves, move application, score tally)
    and the utility evaluator compute_utility. */
module Othello {

  /** One square of the grid: empty, a dark disk (player 1) or a light disk (player 2). */
  datatype Cell = Empty | Dark | Light

  /** A board is a grid of rows; boards are values and are compared structurally. */
  type Board = seq<seq<Cell>>

  /** The two playing identities: P1 is dark (legend value 1), P2 is light (legend value 2). */
  datatype Color = P1 | P2

  /** A move is a (column, row) pair. */
  type Move = (int, int)

  /** The pair (0, 0) that the agent returns when a node is a cutoff node. */
  const NoMove: Move := (0, 0)

  /** The opponent of a colour, as the min nodes compute it. */
  function Opponent(c: Color): (o: Color)
    ensures o != c
  {
    if c == P1 then P2 else P1
  }

  /** The board primitives the agent imports and does not define:
      moves(b, c) is get_possible_moves, play(b, c, m) is play_move and
      score(b) is get_score, which yields (score of player 1, score of player 2). */
  datatype Rules = Rules(
    moves: (Board, Color) -> seq<Move>,
    play: (Board, Color, Move) -> Board,
    score: Board -> (int, int))

  /** Number of empty squares in one row. */
  function EmptyInRow(row: seq<Cell>): nat
  {
    if row == [] then 0
    else EmptyInRow(row[..|row| - 1]) + (if row[|row| - 1] == Empty then 1 else 0)
  }

  /** Number of empty squares on a board: the measure every legal move decreases. */
  function EmptySquares(b: Board): nat
  {
    if b == [] then 0 else EmptySquares(b[..|b| - 1]) + EmptyInRow(b[|b| - 1])
  }

  /** The one assumption made about the board primitives: playing a legal move
      places a disk on an empty square, so fewer empty squares remain. This is
      what makes the depth-unlimited search terminate. */
  ghost predicate ValidRules(r: Rules)
  {
    forall b: Board, c: Color, m: Move ::
      m in r.moves(b, c) ==> EmptySquares(r.play(b, c, m)) < EmptySquares(b)
  }

  lemma PlayDecreases(r: Rules, b: Board, c: Color, m: Move)
    requires ValidRules(r) && m in r.moves(b, c)
    ensures EmptySquares(r.play(b, c, m)) < EmptySquares(b)
  {
  }

  /** Every move of ms is legal for colour c on board b. */
  predicate Legal(r: Rules, b: Board, c: Color, ms: seq<Move>)
  {
    forall k :: 0 <= k < |ms| ==> ms[k] in r.moves(b, c)
  }

  /** The score of one colour, read from the (player 1, player 2) tally. */
  function ScoreOf(r: Rules, b: Board, c: Color): int
  {
    if c == P1 then r.score(b).0 else r.score(b).1
  }

  /** compute_utility: the score difference from the point of view of colour c. */
  function Utility(r: Rules, b: Board, c: Color): (u: int)
    ensures u == ScoreOf(r, b, c) - ScoreOf(r, b, Opponent(c))
  {
    var (score1, score2) := r.score(b);
    match c
    case P1 => score1 - score2
    case P2 => score2 - score1
  }

  /** Utility is zero-sum: the two colours see opposite values. */
  lemma UtilityAntisymmetric(r: Rules, b: Board)
    ensures Utility(r, b, P1) == -Utility(r, b, P2)
    ensures Utility(r, b, P1) == r.score(b).0 - r.score(b).1
    ensures Utility(r, b, P2) == r.score(b).1 - r.score(b).0
  {
  }

  /** Every utility lies strictly between the minimax sentinels -1000 and 1000. */
  ghost predicate InRange(r: Rules)
  {
    forall b: Board, c: Color :: -1000 < Utility(r, b, c) < 1000
  }

  function Max(x: int, y: int): int { if x >= y then x else y }

  function Min(x: int, y: int): int { if x <= y then x else y }

  /** x forced into the window [lo, hi]. */
  function Clamp(x: int, lo: int, hi: int): int
  {
    if x < lo then lo else if x > hi then hi else x
  }
}
