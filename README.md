# Isolation competition agent: verified model of its search

This project models the search engine of the Isolation competition agent in
`competition_agent.py`. The model covers:

- the mobility heuristic `custom_score`;
- depth-limited minimax with alpha-beta pruning, meaning `alphabeta` with its
  inner `terminal_test`, `max_value` and `min_value`;
- the iterative-deepening driver `CustomPlayer.get_move`, which searches at
  depths 2, 3, 4, … until a time check aborts the search.

The Isolation board is not part of this model. The agent only calls the board
through a few operations. Here these operations are the fields of the datatype
`Isolation.Board<S, P>`, with an opaque state type `S` and an opaque player type
`P`. Every result holds for every board.

How the source's run-time machinery is modelled:

- **Scores.** Python floats that are finite or ±inf become
  `Scores.Score = NegInf | Fin(real) | PosInf`. The heuristic's
  `own - 2.5 * opp` is computed exactly as a real number.
- **The clock.** The callable `time_left` is modelled by a count of time checks
  `ticks`. It says how many more checks of `time_left() < TIMER_THRESHOLD`
  will still find enough time. A check made when `ticks` is 0 raises the
  timeout. Any other check uses up one tick. Every node does two checks: one
  on entry and one in `terminal_test`. `alphabeta` does one more.
- **The timeout exception.** `SearchTimeout` unwinds every pending call and is
  caught only in `get_move`. It becomes `Search.Timed<T> = Completed(result,
  ticks) | Cancelled`, passed explicitly through every return.

The pure functions in `Search` and `Deepening` state what the search computes.
The class `Agent.CustomPlayer` holds the agent's fields: `searchDepth` and the
clock. Its methods run the source's loops step by step, and each method is
proved to return exactly what the corresponding function specifies. The
properties are proved about those functions, against two references:

- a plain, unpruned minimax (`PlainMinimax.Minimax`);
- the last completed depth of the deepening loop (`Deepening.CompletedMoves`).

Where the code and `alphabeta`'s docstring ("(-1, -1) if there are no legal
moves", competition_agent.py:152-153) differ, or where the code does something
its comments do not mention, the model follows the code:

- The clock is checked only on entry to a node and in `terminal_test`. It is
  not checked before each sibling in the move loop. A sibling's own entry check
  comes first anyway.
- `alphabeta` answers `(-1, -1)` in three cases. The first is a stuck root.
  The second is a root with legal moves searched at `depth <= 0`: `max_value`
  treats it as a leaf and answers `(-1, -1)` with its score. `get_move` never
  asks for such a depth, since it starts at 2. The third is when every child
  of the root scores -inf: the strict comparison then never records a move.
  `get_move` then stops deepening and keeps the move it recorded before, even
  though legal moves exist.

## Model

| member | source | states |
|---|---|---|
| Heuristic.CustomScore | competition_agent.py:36-44 | the score is -inf exactly when the player has lost; it is +inf exactly when the player has not lost but has won; the loss check comes first |
| Heuristic.CustomScoreMonotone | competition_agent.py:42-44 | between undecided states, more own moves and fewer opponent moves never lower the score, and a strict improvement in either raises it |
| Heuristic.OpponentMobilityWeighsMore | competition_agent.py:44 | one more move for each side lowers the score: the opponent's mobility weighs 2.5 against 1 |
| Scores.Max | competition_agent.py:210 | Python's `max(alpha, max_val)` is an upper bound of both arguments and is one of them |
| Scores.Min | competition_agent.py:186 | Python's `min(beta, min_val)` is a lower bound of both arguments and is one of them |
| Scores.Less | competition_agent.py:205 | Python's float `<` on scores: `OrderFacts` proves it a strict total order (irreflexive, asymmetric, transitive, total) |
| Scores.LessEq | competition_agent.py:184 | the `<=` and `>=` comparisons of the cutoffs: exactly `Less` or equality |
| Scores.OrderFacts | competition_agent.py:181-208 | the comparisons at lines 181, 184, 205 and 208 form a total order on scores, with `LessEq` its reflexive closure |
| Search.TerminalTest | competition_agent.py:158-164 | completes exactly when a check is left, then uses one tick and says whether the player to move has no legal move |
| Search.MaxValue | competition_agent.py:190-211 | `max_value`: the time check, the leaf answer, then the move loop; no contract of its own. `MaxValueBounds`, `LeafNode`, `ExpandedNode`, `Pruning.MaxValueFailSoft` and `Cancellation.MaxValueMoreTicks` state its properties |
| Search.MaxLoop | competition_agent.py:202-211 | the `for` loop of `max_value` with its beta cutoff and alpha update; no contract of its own. `MaxLoopBounds`, `MaxLoopStep`, `Pruning.MaxLoopFailSoft` and `Cancellation.MaxLoopMoreTicks` state its properties |
| Search.MinValue | competition_agent.py:166-187 | `min_value`: the mirror of `MaxValue`; no contract of its own. `MinValueBounds`, `LeafNode`, `ExpandedNode`, `Pruning.MinValueFailSoft` and `Cancellation.MinValueMoreTicks` state its properties |
| Search.MinLoop | competition_agent.py:178-187 | the `for` loop of `min_value` with its alpha cutoff and beta update; no contract of its own. `MinLoopBounds`, `MinLoopStep`, `Pruning.MinLoopFailSoft` and `Cancellation.MinLoopMoreTicks` state its properties |
| Search.MaxValueBounds | competition_agent.py:190-211 | a completed node has spent at least its two time checks; the move it returns is `(-1, -1)` or a legal move of the node |
| Search.MaxLoopBounds | competition_agent.py:202-211 | the loop never gains ticks; it returns the best it started with, or a strictly greater value with one of the moves it expanded (strict `>` update) |
| Search.MinValueBounds | competition_agent.py:166-187 | a completed node has spent at least its two time checks; the move it returns is `(-1, -1)` or a legal move of the node |
| Search.MinLoopBounds | competition_agent.py:178-187 | the loop never gains ticks; it returns the best it started with, or a strictly smaller value with one of the moves it expanded (strict `<` update) |
| Search.AlphaBeta | competition_agent.py:155-216 | a completed call uses at least one tick; its move is `(-1, -1)` or a legal move of the root |
| Search.LeafNode | competition_agent.py:171-201 | a stuck node, or one at `depth <= 0`, answers `(score(game, self), (-1, -1))` after exactly its two checks and expands no child; it is cancelled when fewer than two checks remain |
| Search.StuckRoot | competition_agent.py:213-214 | a root with no legal move answers `(-1, -1)` after `alphabeta`'s single check, without entering `max_value` |
| Search.ShallowRoot | competition_agent.py:195-215 | a root with legal moves searched at `depth <= 0` answers `(-1, -1)` after three checks: `max_value` treats it as a leaf |
| Search.MaxLoopStep | competition_agent.py:203-211 | one iteration of the `max_value` loop: a cancelled child cancels the node; otherwise the strict `>` update, then the cutoff at `best >= beta` or the next move with `max(alpha, best)` |
| Search.MinLoopStep | competition_agent.py:179-187 | one iteration of the `min_value` loop: a cancelled child cancels the node; otherwise the strict `<` update, then the cutoff at `best <= alpha` or the next move with `min(beta, best)` |
| Search.ExpandedNode | competition_agent.py:166-211 | a node with legal moves and `depth > 0` spends its two checks and runs its loop from the first move, with `(-inf, (-1, -1))` or `(+inf, (-1, -1))` as its starting best |
| Pruning.MaxValueFailSoft | competition_agent.py:190-211 | for any window with alpha < beta, a completed `max_value` returns a fail-soft bound on the unpruned minimax value: an upper bound when at or below alpha, a lower bound when at or above beta, and the exact value in between; above alpha, the move is the first move whose child reaches the value |
| Pruning.MaxLoopFailSoft | competition_agent.py:203-211 | the `max_value` loop keeps the alpha-beta invariants: alpha is the larger of the original alpha and the best so far, and the best is an upper bound of all earlier children, equal to the first child that reached it; the beta cutoff preserves the fail-soft result |
| Pruning.MinValueFailSoft | competition_agent.py:166-187 | for any window with alpha < beta, a completed `min_value` returns a fail-soft bound on the unpruned minimax value; below beta, the move is the first move whose child falls to the value |
| Pruning.MinLoopFailSoft | competition_agent.py:179-187 | the `min_value` loop keeps the mirror-image invariants, through the alpha cutoff |
| Pruning.FullWindowIsMinimax | competition_agent.py:202-215 | over the root window (-inf, +inf), a completed `max_value` equals unpruned minimax to the same depth; its move is `(-1, -1)` when that value is -inf, and otherwise the first legal move whose child attains it |
| Cancellation.MaxValueMoreTicks | competition_agent.py:195-196 | a completed `max_value` gives the same result on any longer clock and leaves exactly the extra ticks unused: time checks never influence a value |
| Cancellation.MaxLoopMoreTicks | competition_agent.py:203-211 | the same for the `max_value` loop |
| Cancellation.MinValueMoreTicks | competition_agent.py:171-172 | the same for `min_value` |
| Cancellation.MinLoopMoreTicks | competition_agent.py:179-187 | the same for the `min_value` loop |
| Cancellation.AlphaBetaMoreTicks | competition_agent.py:155-156 | a completed `alphabeta` answers the same move on any longer clock |
| Deepening.HalfTowardZero | competition_agent.py:108 | `int(x / 2)` truncates toward zero: the remainder is 0 or 1 in the direction of `x` |
| Deepening.Center | competition_agent.py:108 | the opening cell is the middle of the board: twice each coordinate is the dimension or one less |
| Deepening.Fallback | competition_agent.py:110-114 | the fallback is a legal move of the agent when it has one, and `(-1, -1)` otherwise |
| Deepening.Deepen | competition_agent.py:116-126 | the deepening loop answers the recorded move or a legal move of the root |
| Deepening.CompletedMoves | competition_agent.py:118-124 | every answer recorded by a completed depth is a real legal move of the root, and at most one depth completes per tick |
| Deepening.ChooseMove | competition_agent.py:105-126 | `get_move`: the centre on the first move of the game, and otherwise the fallback or a legal move of the root; `DeepenReturnsLastCompleted`, `AnswerIsLegal`, `NoLegalMoveAnswersNoMove` and `SingleLegalMove` say which |
| Deepening.DeepenReturnsLastCompleted | competition_agent.py:116-129 | `get_move` returns the move of the last depth that completed, and the initial fallback when none did; a depth the clock cut short contributes nothing |
| Deepening.MoreTimeCompletesMore | competition_agent.py:116-126 | the depths completed within a budget are a prefix of those completed within any longer budget |
| Deepening.AlphaBetaChoosesFirstBest | competition_agent.py:202-216 | at a root with legal moves, a completed `alphabeta` answers `(-1, -1)` exactly when the minimax value is -inf, and otherwise the first legal move whose child attains the minimax value |
| Deepening.LostRootKeepsRecordedMove | competition_agent.py:118-123 | when every line from the root loses, no depth completes with a move, so `get_move` keeps the previously recorded move although legal moves exist |
| Deepening.OpeningMove | competition_agent.py:107-108 | with `move_count == 0` the answer is `(int(height/2), int(width/2))`, whatever the clock |
| Deepening.NoLegalMoveAnswersNoMove | competition_agent.py:110-121 | when the agent is to move and has no legal move, the answer is `(-1, -1)` |
| Deepening.AnswerIsLegal | competition_agent.py:110-126 | when the agent is to move and has a legal move, the answer is one of its legal moves: the last completed depth's answer, or the fallback |
| Deepening.SingleLegalMove | competition_agent.py:110-126 | with a single legal move the agent plays it on any clock |
| Deepening.GetMoveAsWritten | competition_agent.py:105-126 | `get_move` exactly as written: the opening still answers, and any move it returns after the opening is `(-1, -1)` or a legal move |
| Deepening.AsWrittenRaisesWhenMovesExist | competition_agent.py:112 | as written, `get_move` raises `NameError` whenever the game is under way and the agent has a legal move |
| Agent.CustomPlayer.constructor | competition_agent.py:72-76 | a new agent has `search_depth` 3 and no clock attached |
| Agent.CustomPlayer.TimeIsUp | competition_agent.py:155-156 | the check reports an expired clock exactly when no tick is left, and otherwise uses up one |
| Agent.CustomPlayer.TerminalTest | competition_agent.py:158-164 | computes `Search.TerminalTest` and leaves the clock at what it says |
| Agent.CustomPlayer.MaxValue | competition_agent.py:190-211 | the step-by-step `for` loop, with its cutoff and its alpha update, computes `Search.MaxValue` and leaves the clock at what it says |
| Agent.CustomPlayer.MinValue | competition_agent.py:166-187 | the step-by-step `for` loop, with its cutoff and its beta update, computes `Search.MinValue` and leaves the clock at what it says |
| Agent.CustomPlayer.AlphaBeta | competition_agent.py:131-216 | computes `Search.AlphaBeta` and leaves the clock at what it says |
| Agent.CustomPlayer.GetMove | competition_agent.py:105-129 | the `while True` loop returns `Deepening.ChooseMove`; it leaves `search_depth` at 2 plus the number of completed depths, and it never gains ticks |

## Left out

- The Isolation board (`isolation.Board`): legal-move generation, `forecast_move`, the win and loss tests, `move_count`, `height` and `width`. `isolation.py` is not part of this model. These operations are arbitrary functions here.
- Wall-clock time and `TIMER_THRESHOLD`. A clock reading below the threshold is modelled as running out of ticks. The actual milliseconds, and the threshold's value, do not appear.
- `random.randint`. The random index of the fallback move is a parameter `pick`, required to be a valid index as `randint(0, len(legal_moves) - 1)` guarantees. Uniformity of the choice is not modelled.
- IEEE floating point. Scores are exact extended reals; no score of this agent is ever NaN or rounded.
- Python's exception machinery. Only its effect is modelled: the whole in-flight search is abandoned, and control returns to `get_move`.
- The optional `alpha` and `beta` parameters of `alphabeta` (competition_agent.py:131). `Search.AlphaBeta` and `Agent.CustomPlayer.AlphaBeta` always search the default window (-inf, +inf), which is what `get_move`, the only caller, passes. `Pruning.MaxValueFailSoft` covers `max_value` under any other window.
- The unused `data` argument and `self.score`, which always holds `custom_score`.

## Findings

| source | as written | input that shows it | evidently intended | confidence | as-written member | corrected member |
|---|---|---|---|---|---|---|
| competition_agent.py:112 | `randint(0, len(legal_moves)-1)` is called unqualified, but only the module `random` is imported (line 7), so the name is unbound and `NameError` is raised | any state with `move_count != 0` in which the agent has at least one legal move | `random.randint(...)`: a random legal move as the fallback, after which the search runs | high; not executed | Deepening.AsWrittenRaisesWhenMovesExist | Deepening.AnswerIsLegal |
