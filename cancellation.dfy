/** What the clock can and cannot change.  A time check only decides whether
    the search goes on; it never influences a value.  So a search that
    completes does so with the same result under any longer budget, which is
    why discarding a cancelled depth loses nothing a completed depth found. */
module Cancellation {
  import opened Isolation
  import opened Scores
  import opened Search

  /** A completed `max_value` completes identically with `extra` more checks
      available, and leaves exactly those `extra` checks over. */
  lemma {:induction false} MaxValueMoreTicks<S, P>(b: Board<S, P>, me: P, s: S, depth: int,
                                                   alpha: Score, beta: Score, ticks: nat, extra: nat)
    ensures var r := MaxValue(b, me, s, depth, alpha, beta, ticks);
      r.Completed? ==> MaxValue(b, me, s, depth, alpha, beta, ticks + extra) == Completed(r.result, r.ticks + extra)
    decreases Plies(depth), 1, 0
  {
    if ticks >= 2 && Moves(b, s) != [] && depth > 0 {
      MaxLoopMoreTicks(b, me, s, depth, 0, alpha, beta, SearchResult(NegInf, NoMove), ticks - 2, extra);
    }
  }

  /** The loop of `max_value` is unaffected by a longer budget. */
  lemma {:induction false} MaxLoopMoreTicks<S, P>(b: Board<S, P>, me: P, s: S, depth: int, i: nat,
                                                  alpha: Score, beta: Score, best: SearchResult,
                                                  ticks: nat, extra: nat)
    requires depth > 0 && i <= |Moves(b, s)|
    ensures var r := MaxLoop(b, me, s, depth, i, alpha, beta, best, ticks);
      r.Completed? ==> MaxLoop(b, me, s, depth, i, alpha, beta, best, ticks + extra) == Completed(r.result, r.ticks + extra)
    decreases Plies(depth), 0, |Moves(b, s)| - i
  {
    var moves := Moves(b, s);
    if i < |moves| {
      var child := b.forecastMove(s, moves[i]);
      MinValueMoreTicks(b, me, child, depth - 1, alpha, beta, ticks, extra);
      match MinValue(b, me, child, depth - 1, alpha, beta, ticks)
      case Cancelled =>
      case Completed(out, t) =>
        var best' := if Less(best.score, out.score) then SearchResult(out.score, moves[i]) else best;
        if !LessEq(beta, best'.score) {
          MaxLoopMoreTicks(b, me, s, depth, i + 1, Max(alpha, best'.score), beta, best', t, extra);
        }
    }
  }

  /** A completed `min_value` completes identically with a longer budget. */
  lemma {:induction false} MinValueMoreTicks<S, P>(b: Board<S, P>, me: P, s: S, depth: int,
                                                   alpha: Score, beta: Score, ticks: nat, extra: nat)
    ensures var r := MinValue(b, me, s, depth, alpha, beta, ticks);
      r.Completed? ==> MinValue(b, me, s, depth, alpha, beta, ticks + extra) == Completed(r.result, r.ticks + extra)
    decreases Plies(depth), 1, 0
  {
    if ticks >= 2 && Moves(b, s) != [] && depth > 0 {
      MinLoopMoreTicks(b, me, s, depth, 0, alpha, beta, SearchResult(PosInf, NoMove), ticks - 2, extra);
    }
  }

  /** The loop of `min_value` is unaffected by a longer budget. */
  lemma {:induction false} MinLoopMoreTicks<S, P>(b: Board<S, P>, me: P, s: S, depth: int, i: nat,
                                                  alpha: Score, beta: Score, best: SearchResult,
                                                  ticks: nat, extra: nat)
    requires depth > 0 && i <= |Moves(b, s)|
    ensures var r := MinLoop(b, me, s, depth, i, alpha, beta, best, ticks);
      r.Completed? ==> MinLoop(b, me, s, depth, i, alpha, beta, best, ticks + extra) == Completed(r.result, r.ticks + extra)
    decreases Plies(depth), 0, |Moves(b, s)| - i
  {
    var moves := Moves(b, s);
    if i < |moves| {
      var child := b.forecastMove(s, moves[i]);
      MaxValueMoreTicks(b, me, child, depth - 1, alpha, beta, ticks, extra);
      match MaxValue(b, me, child, depth - 1, alpha, beta, ticks)
      case Cancelled =>
      case Completed(out, t) =>
        var best' := if Less(out.score, best.score) then SearchResult(out.score, moves[i]) else best;
        if !LessEq(best'.score, alpha) {
          MinLoopMoreTicks(b, me, s, depth, i + 1, alpha, Min(beta, best'.score), best', t, extra);
        }
    }
  }

  /** A completed `alphabeta` returns the same move under a longer budget. */
  lemma {:induction false} AlphaBetaMoreTicks<S, P>(b: Board<S, P>, me: P, s: S, depth: int, ticks: nat, extra: nat)
    ensures var r := AlphaBeta(b, me, s, depth, ticks);
      r.Completed? ==> AlphaBeta(b, me, s, depth, ticks + extra) == Completed(r.result, r.ticks + extra)
  {
    if ticks > 0 && Moves(b, s) != [] {
      MaxValueMoreTicks(b, me, s, depth, NegInf, PosInf, ticks - 1, extra);
    }
  }
}
