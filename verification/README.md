# Othello agent move selection in Dafny

This project models the move selector of an Othello-playing agent (`agent.py`). The model has five parts:

- **Evaluator.** `compute_utility` is the score difference from the maximising colour's point of view.
- **Minimax.** There are two mutually recursive minimax nodes and their entry `select_move_minimax`.
- **Alpha-beta.** There are two mutually recursive alpha-beta nodes. They apply fail-hard window updates, stop early on `beta <= alpha`, and can reorder moves by descending immediate utility. Their entry is `select_move_alphabeta`.
- **Cache.** `state_dictionary` is the process-wide transposition dictionary. All four nodes share it, and it is keyed on `(board, color)` only.
- **Board primitives.** The agent calls three primitives that are not part of this model: `get_possible_moves`, `play_move` and `get_score`. They are the three function fields of the datatype `Othello.Rules`. The search members assume only `Othello.ValidRules`: playing a legal move leaves strictly fewer empty squares. That assumption is what makes a depth-unlimited search (limit `-1`) terminate. The lemmas that relate the sentinel-based minimax scan to the game value also assume `Othello.InRange`: every utility lies strictly between -1000 and 1000 (see "## Left out").

The model has five modules:

- `Othello` (othello.dfy): the vocabulary and `compute_utility`.
- `Ordering` (ordering.dfy): the move-ordering block.
- `Minimax` (minimax.dfy): specification functions for the minimax nodes and the true game value.
- `AlphaBeta` (alphabeta.dfy): specification functions for the alpha-beta nodes and the window-correctness theorem.
- `Agent` (agent.dfy): the class `Player`. It holds the cache as a mutable field `cache: map<(Board, Color), (Move, int)>`. The four node functions are methods with loops proved against the specification functions.

Facts of the code that the model keeps:

- The maximising `color` is passed unchanged down the tree, and a min node enumerates the opponent's moves.
- `limit` is only compared with `0`.
- `(0, 0)` is the "no move" answer.
- Minimax keeps the first strictly better move, starting from the sentinels `-1000` and `1000`.
- Alpha-beta replaces the best move only when alpha (or beta) changes.
- The root window is `(-100000, 100000)`.
- The `caching` and `ordering` flags are not passed on. Every recursive call and both `select_move_*` entries use the defaults (both off). So a flag only affects the one node it is given to. From the entries, caching and ordering never take effect, whatever arguments the entries receive.
- The min node's ordering block sorts in descending order of the utility for `color`, exactly like the max node's. The best replies for the minimiser therefore come last.
- The ordering block appends, for each entry of the sorted utility list, every move with that utility. A utility shared by `n` moves therefore makes each of those moves appear `n` times.

## Model

| member | source | states |
|---|---|---|
| Othello.Utility | agent.py:18-23 | the utility for a colour is that colour's score minus the other colour's score |
| Othello.UtilityAntisymmetric | agent.py:18-23 | utility for colour 1 is score1 - score2, for colour 2 is score2 - score1, and the two are opposite |
| Othello.Opponent | agent.py:34-38 | the opponent colour of a min node differs from the maximising colour |
| Ordering.SortDescending | agent.py:137 | the sorted utility list is a permutation of the input and is non-increasing |
| Ordering.UtilityList | agent.py:132-136 | util_list has one entry per move, the entry at k being that move's immediate utility |
| Ordering.Tier | agent.py:140-142 | one pass of the inner loop collects exactly the moves whose utility equals the given value |
| Ordering.Reorder | agent.py:139-143 | every move of the reordered list is an original move whose utility occurs in the utility list |
| Ordering.OrderedMoves | agent.py:128-143 | every move of the ordered list is one of the original moves |
| Ordering.TabulateUtilities | agent.py:129-136 | board_util_dict maps exactly the original moves to their utilities and util_list lists them in move order |
| Ordering.CollectTiers | agent.py:139-143 | the nested loops produce, tier by tier in sorted-utility order, the moves of each tier |
| Ordering.AppendTier | agent.py:140-142 | the inner loop appends, in original order, the moves whose tabulated utility is the current one |
| Ordering.OrderMoves | agent.py:128-143 | the ordering block yields the reordered list of the specification |
| Ordering.TierMultiplicity | agent.py:140-142 | a tier holds each move of the tier's utility as often as the original list does, and no other move |
| Ordering.ReorderMultiplicity | agent.py:139-143 | a move occurs (occurrences of its utility in the list) times (its occurrences in the original) times |
| Ordering.OrderedMovesMultiplicity | agent.py:128-143 | each move appears once per move sharing its utility (ties duplicate), and a move is in the result iff it is an original move |
| Ordering.ReorderDescending | agent.py:139-143 | collecting tiers along a non-increasing utility list yields a list non-increasing in utility |
| Ordering.OrderedMovesDescending | agent.py:128-143 | the reordered moves are non-increasing in immediate utility |
| Ordering.TierAppend | agent.py:140-142 | filtering a concatenation filters each part |
| Ordering.TierOfTier | agent.py:140-142 | filtering a tier again keeps it whole for its own utility and empties it for any other |
| Ordering.ReorderTiers | agent.py:139-143 | the moves of one utility in the reordered list are that tier of the original, repeated once per occurrence of the utility |
| Ordering.OrderedMovesTiers | agent.py:128-143 | within one utility tier the original relative order of the moves is kept (repeated per tie) |
| Ordering.TierIsSubsequence | agent.py:140-142 | a tier is a subsequence of the original moves, at strictly increasing positions |
| Minimax.MinimaxMax | agent.py:66-90 | the pair minimax_max_node returns with caching off: (0, 0) and the utility at a cutoff, otherwise the scan of color's moves. It has no ensures of its own; its properties are Minimax.MinimaxMaxIsGameValue, Minimax.MinimaxMaxMove, Minimax.MinimaxDepthOne, Minimax.MinimaxMaxUnbounded and AlphaBeta.CutoffNodes |
| Minimax.MaxPrefix | agent.py:78-85 | (max_move, max_value) after the first i iterations: starts at ((0, 0), -1000), and a strictly larger child value replaces both. It has no ensures; its properties are Minimax.MaxPrefixFirstBest and Minimax.MaxPrefixCongruent |
| Minimax.MinimaxMin | agent.py:33-63 | the pair minimax_min_node returns with caching off, scanning the opponent's moves. It has no ensures; its properties are Minimax.MinimaxMinIsGameValue, Minimax.MinimaxMinMove, Minimax.MinimaxMinUnbounded and AlphaBeta.CutoffNodes |
| Minimax.MinPrefix | agent.py:51-58 | (min_move, min_value) after the first i iterations: starts at ((0, 0), 1000), and a strictly smaller child value replaces both. It has no ensures; its properties are Minimax.MinPrefixFirstBest and Minimax.MinPrefixCongruent |
| Minimax.BestMaxIsMax | agent.py:78-85 | the game value of a max node over a non-empty move list is attained by some move and bounds every move's value |
| Minimax.BestMinIsMin | agent.py:51-58 | the game value of a min node over a non-empty move list is attained by some move and is below every move's value |
| Minimax.BestMaxSameMoves | agent.py:173-188 | the max of child values depends only on the set of moves, not their order or repetition |
| Minimax.BestMinSameMoves | agent.py:128-143 | the min of child values depends only on the set of moves, not their order or repetition |
| Minimax.GameMaxInRange | agent.py:66-90 | with utilities in (-1000, 1000) every max-node game value is in (-1000, 1000) |
| Minimax.GameMinInRange | agent.py:33-63 | with utilities in (-1000, 1000) every min-node game value is in (-1000, 1000) |
| Minimax.MaxPrefixFirstBest | agent.py:78-85 | after i steps of the strict-greater scan, the pair held is the first move of maximal value among the first i |
| Minimax.MinPrefixFirstBest | agent.py:51-58 | after i steps of the strict-less scan, the pair held is the first move of minimal value among the first i |
| Minimax.MinimaxMaxIsGameValue | agent.py:66-90 | with utilities in range, the value minimax_max_node returns is the max over legal moves of the min-node value at limit-1 (the utility at a cutoff) |
| Minimax.MinimaxMinIsGameValue | agent.py:33-63 | with utilities in range, the value minimax_min_node returns is the min over the opponent's moves of the max-node value at limit-1 |
| Minimax.MinimaxMaxMove | agent.py:78-90 | a non-cutoff max node returns the first legal move attaining the maximum, with its value |
| Minimax.MinimaxMinMove | agent.py:51-63 | a non-cutoff min node returns the first opponent move attaining the minimum, with its value |
| Minimax.MinimaxDepthOne | agent.py:72-85 | at limit 1 the max node returns the first move with the largest immediate utility |
| Minimax.MaxPrefixCongruent | agent.py:78-85 | the max scan depends only on the child values |
| Minimax.MinPrefixCongruent | agent.py:51-58 | the min scan depends only on the child values |
| Minimax.MinimaxMaxUnbounded | agent.py:72-82 | a negative limit (or one above the empty-square count) never reaches 0: all such limits give the same max-node result |
| Minimax.MinimaxMinUnbounded | agent.py:45-55 | a negative limit (or one above the empty-square count) never reaches 0: all such limits give the same min-node result |
| AlphaBeta.MaxExplored | agent.py:166-188 | the moves a max node explores, ordered or not, are legal for color |
| AlphaBeta.MinExplored | agent.py:121-143 | the moves a min node explores, ordered or not, are legal for the opponent |
| AlphaBeta.ABMax | agent.py:161-204 | the pair alphabeta_max_node returns with caching off: (0, 0) and the utility at a cutoff, otherwise the loop over the explored moves, the children searched with ordering off. It has no ensures; its properties are AlphaBeta.ABMaxCorrect, AlphaBeta.OrderingKeepsValue, AlphaBeta.AlphaBetaRootMatchesMinimax and AlphaBeta.CutoffNodes |
| AlphaBeta.ABMaxScan | agent.py:190-199 | the loop from step i: alpha := max(alpha, child), max_move replaced only when alpha changed, stopping after the update once beta <= alpha. It has no ensures; its properties are AlphaBeta.ABMaxScanMonotone, AlphaBeta.ABMaxScanCorrect and AlphaBeta.RootScanFollowsMaxPrefix |
| AlphaBeta.ABMin | agent.py:110-158 | the pair alphabeta_min_node returns with caching off, over the opponent's explored moves. It has no ensures; its properties are AlphaBeta.ABMinCorrect, AlphaBeta.OrderingKeepsValue and AlphaBeta.CutoffNodes |
| AlphaBeta.ABMinScan | agent.py:145-154 | the loop from step i: beta := min(beta, child), min_move replaced only when beta changed, stopping after the update once beta <= alpha. It has no ensures; its properties are AlphaBeta.ABMinScanMonotone and AlphaBeta.ABMinScanCorrect |
| AlphaBeta.ABMaxScanMonotone | agent.py:190-199 | the max loop's final alpha is at least the alpha it starts from; if alpha never rises max_move is the initial one, otherwise it is an explored move |
| AlphaBeta.ABMinScanMonotone | agent.py:145-154 | the min loop's final beta is at most the beta it starts from; if beta never falls min_move is the initial one, otherwise it is an explored move |
| AlphaBeta.ABMaxScanCorrect | agent.py:190-199 | for alpha < beta, the rest of the max loop from step i yields the game value of the remaining moves, clamped to the window |
| AlphaBeta.ABMinScanCorrect | agent.py:145-154 | for alpha < beta, the rest of the min loop from step i yields the game value of the remaining moves, clamped to the window |
| AlphaBeta.ABMaxCorrect | agent.py:161-204 | for any window alpha < beta, clamp(alphabeta_max_node value) equals clamp(minimax max value), with or without ordering |
| AlphaBeta.ABMinCorrect | agent.py:110-158 | for any window alpha < beta, clamp(alphabeta_min_node value) equals clamp(minimax min value), with or without ordering |
| AlphaBeta.AlphaBetaRootIsMinimax | agent.py:222 | with utilities in range, the root value from the window (-100000, 100000) equals minimax_max_node's value, ordering on or off |
| AlphaBeta.RootScanFollowsMaxPrefix | agent.py:190-199 | from step 1 on, with every child value inside (-1000, 1000), the root loop from the window (-100000, 100000) holds the same (move, value) pair as the minimax max loop after the same steps |
| AlphaBeta.AlphaBetaRootMatchesMinimax | agent.py:222 | with utilities in range, alphabeta_max_node from the window (-100000, 100000) returns the same pair as minimax_max_node, move included |
| AlphaBeta.AlphaBetaRootMoveIsLegal | agent.py:190-199 | with utilities in range, a non-cutoff root returns one of color's legal moves |
| AlphaBeta.OrderingKeepsValue | agent.py:128-143 | move ordering does not change the clamped value of a max or a min node for any window |
| AlphaBeta.CutoffNodes | agent.py:44-49 | a cutoff node of any of the four kinds returns ((0, 0), utility for color), and its game value is that utility |
| Agent.Player.constructor | agent.py:12 | the dictionary starts empty |
| Agent.Player.MinimaxMinNode | agent.py:33-63 | a cache hit returns the stored pair unchanged; otherwise the result is the min-node specification, stored on a miss with caching on; with caching off the cache is unchanged |
| Agent.Player.MinimaxMaxNode | agent.py:66-90 | the same for the max node |
| Agent.Player.SelectMoveMinimax | agent.py:93-107 | the chosen move is the max node's move with caching off, and the cache is unchanged |
| Agent.Player.AlphabetaMinNode | agent.py:110-158 | a cache hit returns the stored pair; otherwise the result is the alpha-beta min specification (ordering applied when on), stored on a miss with caching on |
| Agent.Player.AlphabetaMaxNode | agent.py:161-204 | the same for the alpha-beta max node |
| Agent.Player.AlphabetaMinLoop | agent.py:145-154 | the loop with its beta <= alpha break computes the min scan from the start, leaving the cache unchanged |
| Agent.Player.AlphabetaMaxLoop | agent.py:190-199 | the loop with its beta <= alpha break computes the max scan from the start, leaving the cache unchanged |
| Agent.Player.SelectMoveAlphabeta | agent.py:207-223 | the chosen move is the max node's from the window (-100000, 100000) with caching and ordering off; with utilities in range it is the move minimax_max_node chooses; the cache is unchanged |
| Agent.CacheIgnoresDepthAndNodeKind | agent.py:117-119 | a pair stored by a max node is returned unchanged by a min node of the other search, at another depth and window |

## Left out

- `run_ai` (agent.py:226-281) is not modelled. It is the stdin/stdout protocol with the game manager: reading the configuration and the scores, the `eprint` diagnostics, and printing the move. Its `FINAL` branch prints nothing and does not leave the loop, which is I/O behaviour.
- Board decoding by `eval` (agent.py:268) is not modelled: it evaluates arbitrary Python input.
- The board primitives of `othello_shared` (`get_possible_moves`, `play_move`, `get_score`, `find_lines`) are not part of this model. The first three are parameters, the fields of `Othello.Rules`. Every search member requires `Othello.ValidRules`. `find_lines` is imported but never used.
- `compute_heuristic` (agent.py:26-28) is not modelled. It is a stub that returns 0 and is never called.
- `eprint` (agent.py:14-15) and the unused imports `random` and `time` (agent.py:5, 7) are not modelled.
- `compute_utility` returns `None` for a colour outside {1, 2} (agent.py:20-23). `Othello.Color` has only the two colours, so that case cannot arise in the model.
- `Othello.InRange` bounds the utility on every value of `Board`, which is any grid of any size (`seq<seq<Cell>>`), not only on the boards a game reaches. So the `score` field must be bounded even on boards the game never produces. A plain disk count on a board of more than 2000 squares breaks it. The members that assume it are Minimax.MinimaxMaxIsGameValue, Minimax.MinimaxMinIsGameValue, Minimax.MinimaxMaxMove, Minimax.MinimaxMinMove, Minimax.MinimaxDepthOne, Minimax.GameMaxInRange, Minimax.GameMinInRange, AlphaBeta.AlphaBetaRootIsMinimax, AlphaBeta.AlphaBetaRootMatchesMinimax, AlphaBeta.AlphaBetaRootMoveIsLegal, and the second ensures of Agent.Player.SelectMoveAlphabeta.
- Minimax.MinimaxMaxIsGameValue: holds only when every utility lies in (-1000, 1000), as `Othello.InRange`. Outside that range the sentinels `-1000` and `1000` can win and the node returns them.
- Minimax.MinimaxMinIsGameValue: the same range hypothesis.
- AlphaBeta.AlphaBetaRootIsMinimax: the same range hypothesis, since the result relates alpha-beta to minimax_max_node.
- AlphaBeta.AlphaBetaRootMatchesMinimax: the same range hypothesis. It is stated for ordering off, which is how select_move_alphabeta calls the root. With ordering on, the moves are explored in another order, so only the value is proved equal (AlphaBeta.AlphaBetaRootIsMinimax).
- AlphaBeta.ABMaxCorrect: states the value only up to clamping into the window. That is exactly what fail-hard alpha-beta guarantees.
- AlphaBeta.ABMinCorrect: likewise.
- Python integers are unbounded, as Dafny's `int` is, so there is no overflow to model.
- Python's `list.sort(reverse=True)` is represented by an insertion sort with the same result on integers, a non-increasing permutation.
- Aliasing of boards is not modelled. Boards are values compared structurally, which is how the dictionary keys compare them.
