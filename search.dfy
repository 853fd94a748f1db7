/** `CustomPlayer.alphabeta` with its inner `terminal_test`, `max_value` and
    `min_value`, as pure functions of the board, the window and the clock.

    The clock: `ticks` is the number of `time_left() < TIMER_THRESHOLD`
    checks that still find enough time.  A check made with `ticks == 0`
    raises `SearchTimeout`; any other check uses up one tick.  The exception
    unwinds every pending call, so a search either completes, together with
    the ticks it left over, or is `Cancelled` with no result at all. */
module Search {
  import opened Isolation
  import opened Scores
  import opened Heuristic

  datatype Timed<T> = Completed(result: T, ticks: nat) | Cancelled

  /** The `(score, move)` pair every node returns. */
  datatype SearchResult = SearchResult(score: Score, move: Move)

  /** The ticks left on the clock after a step: none once it was cancelled. */
  function Remaining<T>(r: Timed<T>): nat
  {
    if r.Completed? then r.ticks else 0
  }

  /** `terminal_test`: a time check, then whether the player to move is stuck. */
  function TerminalTest<S, P>(b: Board<S, P>, s: S, ticks: nat): (r: Timed<bool>)
    ensures r.Completed? <==> ticks > 0
    ensures r.Completed? ==> r.ticks == ticks - 1 && (r.result <==> Moves(b, s) == [])
  {
    if ticks == 0 then Cancelled else Completed(Moves(b, s) == [], ticks - 1)
  }

  /** `max_value`: the agent's ply.  A node costs two checks (on entry and in
      `terminal_test`); a stuck node or one at `depth <= 0` is scored without
      expanding it. */
  function MaxValue<S, P>(b: Board<S, P>, me: P, s: S, depth: int, alpha: Score, beta: Score, ticks: nat)
    : (r: Timed<SearchResult>)
    decreases Plies(depth), 1, 0
  {
    if ticks == 0 then Cancelled
    else match TerminalTest(b, s, ticks - 1)
      case Cancelled => Cancelled
      case Completed(terminal, t) =>
        if terminal || depth <= 0 then Completed(SearchResult(CustomScore(b, s, me), NoMove), t)
        else MaxLoop(b, me, s, depth, 0, alpha, beta, SearchResult(NegInf, NoMove), t)
  }

  /** The `for` loop of `max_value` from the `i`-th legal move on, with the
      loop's current `alpha` and best `(max_val, best_move)` so far.  A child
      replaces the best only when strictly greater; the loop stops as soon as
      the best reaches `beta`. */
  function MaxLoop<S, P>(b: Board<S, P>, me: P, s: S, depth: int, i: nat,
                         alpha: Score, beta: Score, best: SearchResult, ticks: nat)
    : (r: Timed<SearchResult>)
    requires depth > 0 && i <= |Moves(b, s)|
    decreases Plies(depth), 0, |Moves(b, s)| - i
  {
    var moves := Moves(b, s);
    if i == |moves| then Completed(best, ticks)
    else match MinValue(b, me, b.forecastMove(s, moves[i]), depth - 1, alpha, beta, ticks)
      case Cancelled => Cancelled
      case Completed(out, t) =>
        var best' := if Less(best.score, out.score) then SearchResult(out.score, moves[i]) else best;
        if LessEq(beta, best'.score) then Completed(best', t)
        else MaxLoop(b, me, s, depth, i + 1, Max(alpha, best'.score), beta, best', t)
  }

  /** `min_value`: the opponent's ply, symmetric to `MaxValue`. */
  function MinValue<S, P>(b: Board<S, P>, me: P, s: S, depth: int, alpha: Score, beta: Score, ticks: nat)
    : (r: Timed<SearchResult>)
    decreases Plies(depth), 1, 0
  {
    if ticks == 0 then Cancelled
    else match TerminalTest(b, s, ticks - 1)
      case Cancelled => Cancelled
      case Completed(terminal, t) =>
        if terminal || depth <= 0 then Completed(SearchResult(CustomScore(b, s, me), NoMove), t)
        else MinLoop(b, me, s, depth, 0, alpha, beta, SearchResult(PosInf, NoMove), t)
  }

  /** The `for` loop of `min_value`: a child replaces the best only when
      strictly smaller; the loop stops as soon as the best falls to `alpha`. */
  function MinLoop<S, P>(b: Board<S, P>, me: P, s: S, depth: int, i: nat,
                         alpha: Score, beta: Score, best: SearchResult, ticks: nat)
    : (r: Timed<SearchResult>)
    requires depth > 0 && i <= |Moves(b, s)|
    decreases Plies(depth), 0, |Moves(b, s)| - i
  {
    var moves := Moves(b, s);
    if i == |moves| then Completed(best, ticks)
    else match MaxValue(b, me, b.forecastMove(s, moves[i]), depth - 1, alpha, beta, ticks)
      case Cancelled => Cancelled
      case Completed(out, t) =>
        var best' := if Less(out.score, best.score) then SearchResult(out.score, moves[i]) else best;
        if LessEq(best'.score, alpha) then Completed(best', t)
        else MinLoop(b, me, s, depth, i + 1, alpha, Min(beta, best'.score), best', t)
  }

  /** `alphabeta`: a time check, the `(-1, -1)` answer for a stuck root, and
      otherwise the move of `max_value` over the full window. */
  function AlphaBeta<S, P>(b: Board<S, P>, me: P, s: S, depth: int, ticks: nat): (r: Timed<Move>)
    ensures r.Completed? ==> r.ticks < ticks
    ensures r.Completed? ==> r.result == NoMove || r.result in Moves(b, s)
  {
    if ticks == 0 then Cancelled
    else if Moves(b, s) == [] then Completed(NoMove, ticks - 1)
    else
      MaxValueBounds(b, me, s, depth, NegInf, PosInf, ticks - 1);
      match MaxValue(b, me, s, depth, NegInf, PosInf, ticks - 1)
      case Cancelled => Cancelled
      case Completed(out, t) => Completed(out.move, t)
  }

  /** A completed `max_value` has spent at least its own two checks, and
      its move is `(-1, -1)` or a legal move of the node. */
  lemma {:induction false} MaxValueBounds<S, P>(b: Board<S, P>, me: P, s: S, depth: int,
                                                alpha: Score, beta: Score, ticks: nat)
    ensures var r := MaxValue(b, me, s, depth, alpha, beta, ticks);
      r.Completed? ==> r.ticks + 2 <= ticks && (r.result.move == NoMove || r.result.move in Moves(b, s))
    decreases Plies(depth), 1, 0
  {
    if ticks >= 2 && Moves(b, s) != [] && depth > 0 {
      MaxLoopBounds(b, me, s, depth, 0, alpha, beta, SearchResult(NegInf, NoMove), ticks - 2);
    }
  }

  /** The loop of `max_value` never gains ticks, and it ends with the best it
      started from or with a strictly greater value and one of the moves it
      expanded. */
  lemma {:induction false} MaxLoopBounds<S, P>(b: Board<S, P>, me: P, s: S, depth: int, i: nat,
                                               alpha: Score, beta: Score, best: SearchResult, ticks: nat)
    requires depth > 0 && i <= |Moves(b, s)|
    ensures var r := MaxLoop(b, me, s, depth, i, alpha, beta, best, ticks);
      r.Completed? ==>
        && r.ticks <= ticks
        && (r.result == best || (Less(best.score, r.result.score) && r.result.move in Moves(b, s)[i..]))
    decreases Plies(depth), 0, |Moves(b, s)| - i
  {
    var moves := Moves(b, s);
    if i < |moves| {
      var child := b.forecastMove(s, moves[i]);
      MinValueBounds(b, me, child, depth - 1, alpha, beta, ticks);
      match MinValue(b, me, child, depth - 1, alpha, beta, ticks)
      case Cancelled =>
      case Completed(out, t) =>
        var best' := if Less(best.score, out.score) then SearchResult(out.score, moves[i]) else best;
        if !LessEq(beta, best'.score) {
          MaxLoopBounds(b, me, s, depth, i + 1, Max(alpha, best'.score), beta, best', t);
          var r := MaxLoop(b, me, s, depth, i + 1, Max(alpha, best'.score), beta, best', t);
          if r.Completed? {
            OrderFacts(best.score, best'.score, r.result.score);
          }
        }
    }
  }

  /** A completed `min_value` has spent at least its own two checks, and
      its move is `(-1, -1)` or a legal move of the node. */
  lemma {:induction false} MinValueBounds<S, P>(b: Board<S, P>, me: P, s: S, depth: int,
                                                alpha: Score, beta: Score, ticks: nat)
    ensures var r := MinValue(b, me, s, depth, alpha, beta, ticks);
      r.Completed? ==> r.ticks + 2 <= ticks && (r.result.move == NoMove || r.result.move in Moves(b, s))
    decreases Plies(depth), 1, 0
  {
    if ticks >= 2 && Moves(b, s) != [] && depth > 0 {
      MinLoopBounds(b, me, s, depth, 0, alpha, beta, SearchResult(PosInf, NoMove), ticks - 2);
    }
  }

  /** The loop of `min_value` never gains ticks, and it ends with the best it
      started from or with a strictly smaller value and one of the moves it
      expanded. */
  lemma {:induction false} MinLoopBounds<S, P>(b: Board<S, P>, me: P, s: S, depth: int, i: nat,
                                               alpha: Score, beta: Score, best: SearchResult, ticks: nat)
    requires depth > 0 && i <= |Moves(b, s)|
    ensures var r := MinLoop(b, me, s, depth, i, alpha, beta, best, ticks);
      r.Completed? ==>
        && r.ticks <= ticks
        && (r.result == best || (Less(r.result.score, best.score) && r.result.move in Moves(b, s)[i..]))
    decreases Plies(depth), 0, |Moves(b, s)| - i
  {
    var moves := Moves(b, s);
    if i < |moves| {
      var child := b.forecastMove(s, moves[i]);
      MaxValueBounds(b, me, child, depth - 1, alpha, beta, ticks);
      match MaxValue(b, me, child, depth - 1, alpha, beta, ticks)
      case Cancelled =>
      case Completed(out, t) =>
        var best' := if Less(out.score, best.score) then SearchResult(out.score, moves[i]) else best;
        if !LessEq(best'.score, alpha) {
          MinLoopBounds(b, me, s, depth, i + 1, alpha, Min(beta, best'.score), best', t);
          var r := MinLoop(b, me, s, depth, i + 1, alpha, Min(beta, best'.score), best', t);
          if r.Completed? {
            OrderFacts(r.result.score, best'.score, best.score);
          }
        }
    }
  }

  /** A node whose player to move is stuck, or whose `depth <= 0`, is never
      expanded: after its two time checks it answers the agent's score and
      `(-1, -1)`, and it is cancelled when fewer than two checks are left. */
  lemma LeafNode<S, P>(b: Board<S, P>, me: P, s: S, depth: int, alpha: Score, beta: Score, ticks: nat)
    requires Moves(b, s) == [] || depth <= 0
    ensures MaxValue(b, me, s, depth, alpha, beta, ticks)
         == if ticks < 2 then Cancelled else Completed(SearchResult(CustomScore(b, s, me), NoMove), ticks - 2)
    ensures MinValue(b, me, s, depth, alpha, beta, ticks)
         == if ticks < 2 then Cancelled else Completed(SearchResult(CustomScore(b, s, me), NoMove), ticks - 2)
  {
  }

  /** A stuck root is answered with `(-1, -1)` after the one time check of
      `alphabeta`, without entering `max_value`. */
  lemma StuckRoot<S, P>(b: Board<S, P>, me: P, s: S, depth: int, ticks: nat)
    requires Moves(b, s) == []
    ensures AlphaBeta(b, me, s, depth, ticks) == if ticks == 0 then Cancelled else Completed(NoMove, ticks - 1)
  {
  }

  /** A root with legal moves searched at `depth <= 0` is a leaf of
      `max_value`: `alphabeta` answers `(-1, -1)` after its own check and the
      leaf's two, although legal moves exist. */
  lemma ShallowRoot<S, P>(b: Board<S, P>, me: P, s: S, depth: int, ticks: nat)
    requires Moves(b, s) != [] && depth <= 0
    ensures AlphaBeta(b, me, s, depth, ticks) == if ticks < 3 then Cancelled else Completed(NoMove, ticks - 3)
  {
    if ticks > 0 {
      LeafNode(b, me, s, depth, NegInf, PosInf, ticks - 1);
    }
  }

  /** One iteration of the `min_value` loop, given the child's outcome `out`. */
  lemma MinLoopStep<S, P>(b: Board<S, P>, me: P, s: S, depth: int, i: nat,
                          alpha: Score, beta: Score, best: SearchResult, ticks: nat, out: Timed<SearchResult>)
    requires depth > 0 && i < |Moves(b, s)|
    requires out == MaxValue(b, me, b.forecastMove(s, Moves(b, s)[i]), depth - 1, alpha, beta, ticks)
    ensures out.Cancelled? ==> MinLoop(b, me, s, depth, i, alpha, beta, best, ticks) == Cancelled
    ensures out.Completed? ==>
      var best' := if Less(out.result.score, best.score) then SearchResult(out.result.score, Moves(b, s)[i]) else best;
      MinLoop(b, me, s, depth, i, alpha, beta, best, ticks)
        == if LessEq(best'.score, alpha) then Completed(best', out.ticks)
           else MinLoop(b, me, s, depth, i + 1, alpha, Min(beta, best'.score), best', out.ticks)
  {
  }

  /** One iteration of the `max_value` loop, given the child's outcome `out`. */
  lemma MaxLoopStep<S, P>(b: Board<S, P>, me: P, s: S, depth: int, i: nat,
                          alpha: Score, beta: Score, best: SearchResult, ticks: nat, out: Timed<SearchResult>)
    requires depth > 0 && i < |Moves(b, s)|
    requires out == MinValue(b, me, b.forecastMove(s, Moves(b, s)[i]), depth - 1, alpha, beta, ticks)
    ensures out.Cancelled? ==> MaxLoop(b, me, s, depth, i, alpha, beta, best, ticks) == Cancelled
    ensures out.Completed? ==>
      var best' := if Less(best.score, out.result.score) then SearchResult(out.result.score, Moves(b, s)[i]) else best;
      MaxLoop(b, me, s, depth, i, alpha, beta, best, ticks)
        == if LessEq(beta, best'.score) then Completed(best', out.ticks)
           else MaxLoop(b, me, s, depth, i + 1, Max(alpha, best'.score), beta, best', out.ticks)
  {
  }

  /** A node that is expanded spends its two checks and then runs its loop
      from the first move with the window it was given. */
  lemma ExpandedNode<S, P>(b: Board<S, P>, me: P, s: S, depth: int, alpha: Score, beta: Score, ticks: nat)
    requires Moves(b, s) != [] && depth > 0
    ensures MaxValue(b, me, s, depth, alpha, beta, ticks)
         == if ticks < 2 then Cancelled else MaxLoop(b, me, s, depth, 0, alpha, beta, SearchResult(NegInf, NoMove), ticks - 2)
    ensures MinValue(b, me, s, depth, alpha, beta, ticks)
         == if ticks < 2 then Cancelled else MinLoop(b, me, s, depth, 0, alpha, beta, SearchResult(PosInf, NoMove), ticks - 2)
  {
  }
}
