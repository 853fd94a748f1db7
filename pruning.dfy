/** Correctness of the pruning in `max_value`/`min_value`: whatever window
    they are given, a completed search returns a fail-soft bound on the plain
    minimax value, and the exact value when it lies strictly inside the
    window.  Over the full window at the root it is exactly minimax, and the
    move is the first legal move that attains it. */
module Pruning {
  import opened Isolation
  import opened Scores
  import opened PlainMinimax
  import opened Search

  /** `v` is what a search with window `(alpha, beta)` may return when the
      true value is `m`: an upper bound when it fails low, a lower bound when
      it fails high, and `m` itself in between. */
  predicate FailSoft(v: Score, m: Score, alpha: Score, beta: Score)
  {
    && (LessEq(v, alpha) ==> LessEq(m, v))
    && (LessEq(beta, v) ==> LessEq(v, m))
    && (Less(alpha, v) && Less(v, beta) ==> v == m)
  }

  /** At the agent's ply, the `k`-th move is the first whose child value
      reaches `v`, and its child value is exactly `v` when `v` is below
      `beta`. */
  predicate FirstMaxAt<S, P>(b: Board<S, P>, me: P, s: S, depth: int, k: nat, v: Score, beta: Score, move: Move)
    requires depth > 0
  {
    && k < |Moves(b, s)| && Moves(b, s)[k] == move
    && LessEq(v, ChildValue(b, me, s, depth, true, k))
    && (Less(v, beta) ==> ChildValue(b, me, s, depth, true, k) == v)
    && forall j :: 0 <= j < k ==> Less(ChildValue(b, me, s, depth, true, j), v)
  }

  /** At the opponent's ply, the `k`-th move is the first whose child value
      falls to `v`, and its child value is exactly `v` when `v` is above
      `alpha`. */
  predicate FirstMinAt<S, P>(b: Board<S, P>, me: P, s: S, depth: int, k: nat, v: Score, alpha: Score, move: Move)
    requires depth > 0
  {
    && k < |Moves(b, s)| && Moves(b, s)[k] == move
    && LessEq(ChildValue(b, me, s, depth, false, k), v)
    && (Less(alpha, v) ==> ChildValue(b, me, s, depth, false, k) == v)
    && forall j :: 0 <= j < k ==> Less(v, ChildValue(b, me, s, depth, false, j))
  }

  /** `max_value` is fail-soft for every window, and when its value rises
      above `alpha` the move it returns is the first that attains it. */
  lemma {:induction false} MaxValueFailSoft<S, P>(b: Board<S, P>, me: P, s: S, depth: int,
                                                  alpha: Score, beta: Score, ticks: nat)
    returns (k: nat)
    requires Less(alpha, beta)
    ensures var r := MaxValue(b, me, s, depth, alpha, beta, ticks);
      r.Completed? ==> FailSoft(r.result.score, Minimax(b, me, s, depth, true), alpha, beta)
    ensures var r := MaxValue(b, me, s, depth, alpha, beta, ticks);
      r.Completed? && depth > 0 && Moves(b, s) != [] && Less(alpha, r.result.score) ==>
        FirstMaxAt(b, me, s, depth, k, r.result.score, beta, r.result.move)
    decreases Plies(depth), 1, 0
  {
    k := 0;
    if ticks >= 2 && Moves(b, s) != [] && depth > 0 {
      k := MaxLoopFailSoft(b, me, s, depth, 0, alpha, beta, SearchResult(NegInf, NoMove), ticks - 2, alpha, 0);
    }
  }

  /** The state the loop of `max_value` keeps before expanding the `i`-th
      move: `alpha` is the larger of the original `alpha0` and the best so
      far, no cutoff has happened yet, every earlier child's value is at most
      the best so far, and once the best exceeds `alpha0` it is the exact
      value of the `k`-th child, the first to reach it. */
  predicate MaxLoopInv<S, P>(b: Board<S, P>, me: P, s: S, depth: int, i: nat,
                             alpha: Score, beta: Score, best: SearchResult, alpha0: Score, k: nat)
    requires depth > 0 && i <= |Moves(b, s)|
  {
    && Less(alpha0, beta) && Less(best.score, beta)
    && alpha == Max(alpha0, best.score)
    && (forall j :: 0 <= j < i ==> LessEq(ChildValue(b, me, s, depth, true, j), best.score))
    && (Less(alpha0, best.score) ==> k < i && FirstMaxAt(b, me, s, depth, k, best.score, beta, best.move))
  }

  /** After the last move the loop's best is a fail-soft bound on the
      maximum of all children. */
  lemma MaxLoopEnd<S, P>(b: Board<S, P>, me: P, s: S, depth: int,
                         alpha: Score, beta: Score, best: SearchResult, alpha0: Score, k: nat)
    requires depth > 0 && 0 < |Moves(b, s)|
    requires MaxLoopInv(b, me, s, depth, |Moves(b, s)|, alpha, beta, best, alpha0, k)
    ensures FailSoft(best.score, BestFrom(b, me, s, depth, true, 0), alpha0, beta)
  {
    MaxBestFromIsLeast(b, me, s, depth, 0, best.score);
    if Less(alpha0, best.score) {
      MaxBestFromIsUpperBound(b, me, s, depth, 0, k);
    }
  }

  /** A child searched with the loop's window whose value `v` raises the
      best to `beta` or above ends the loop with a fail-soft bound, and its
      move is the first to reach `v`. */
  lemma MaxLoopCutoff<S, P>(b: Board<S, P>, me: P, s: S, depth: int, i: nat,
                            alpha: Score, beta: Score, best: SearchResult, alpha0: Score, k: nat, v: Score)
    requires depth > 0 && i < |Moves(b, s)|
    requires MaxLoopInv(b, me, s, depth, i, alpha, beta, best, alpha0, k)
    requires FailSoft(v, ChildValue(b, me, s, depth, true, i), alpha, beta)
    requires LessEq(beta, v)
    ensures Less(best.score, v)
    ensures FailSoft(v, BestFrom(b, me, s, depth, true, 0), alpha0, beta)
    ensures FirstMaxAt(b, me, s, depth, i, v, beta, Moves(b, s)[i])
  {
    var m := ChildValue(b, me, s, depth, true, i);
    OrderFacts(best.score, beta, v);
    OrderFacts(alpha0, beta, v);
    OrderFacts(alpha0, best.score, beta);
    MaxBestFromIsUpperBound(b, me, s, depth, 0, i);
    OrderFacts(v, m, BestFrom(b, me, s, depth, true, 0));
    forall j | 0 <= j < i
      ensures Less(ChildValue(b, me, s, depth, true, j), v)
    {
      OrderFacts(ChildValue(b, me, s, depth, true, j), best.score, v);
    }
  }

  /** A child whose value `v` keeps the best below `beta` leaves the loop's
      state intact for the next move. */
  lemma MaxLoopContinue<S, P>(b: Board<S, P>, me: P, s: S, depth: int, i: nat,
                              alpha: Score, beta: Score, best: SearchResult, alpha0: Score, k: nat, v: Score)
    requires depth > 0 && i < |Moves(b, s)|
    requires MaxLoopInv(b, me, s, depth, i, alpha, beta, best, alpha0, k)
    requires FailSoft(v, ChildValue(b, me, s, depth, true, i), alpha, beta)
    requires Less(v, beta)
    ensures var best' := if Less(best.score, v) then SearchResult(v, Moves(b, s)[i]) else best;
      MaxLoopInv(b, me, s, depth, i + 1, Max(alpha, best'.score), beta, best', alpha0,
                 if Less(best.score, v) then i else k)
  {
    var m := ChildValue(b, me, s, depth, true, i);
    var best' := if Less(best.score, v) then SearchResult(v, Moves(b, s)[i]) else best;
    OrderFacts(alpha0, best.score, best'.score);
    OrderFacts(alpha0, best.score, v);
    OrderFacts(m, v, best'.score);
    OrderFacts(alpha, v, best'.score);
    OrderFacts(best.score, v, best'.score);
    forall j | 0 <= j < i + 1
      ensures LessEq(ChildValue(b, me, s, depth, true, j), best'.score)
    {
      if j < i {
        OrderFacts(ChildValue(b, me, s, depth, true, j), best.score, best'.score);
      }
    }
    if Less(best.score, v) {
      forall j | 0 <= j < i
        ensures Less(ChildValue(b, me, s, depth, true, j), v)
      {
        OrderFacts(ChildValue(b, me, s, depth, true, j), best.score, v);
      }
    }
  }

  /** The loop of `max_value`, from the `i`-th move on, completes with a
      fail-soft bound on the maximum of all children, and with the first move
      that attains its value once that value exceeds `alpha0`. */
  lemma {:induction false} MaxLoopFailSoft<S, P>(b: Board<S, P>, me: P, s: S, depth: int, i: nat,
                                                 alpha: Score, beta: Score, best: SearchResult, ticks: nat,
                                                 alpha0: Score, k: nat)
    returns (kr: nat)
    requires depth > 0 && 0 < |Moves(b, s)| && i <= |Moves(b, s)|
    requires MaxLoopInv(b, me, s, depth, i, alpha, beta, best, alpha0, k)
    ensures var r := MaxLoop(b, me, s, depth, i, alpha, beta, best, ticks);
      r.Completed? ==> FailSoft(r.result.score, BestFrom(b, me, s, depth, true, 0), alpha0, beta)
    ensures var r := MaxLoop(b, me, s, depth, i, alpha, beta, best, ticks);
      r.Completed? && Less(alpha0, r.result.score) ==>
        FirstMaxAt(b, me, s, depth, kr, r.result.score, beta, r.result.move)
    decreases Plies(depth), 0, |Moves(b, s)| - i
  {
    var moves := Moves(b, s);
    kr := k;
    if i == |moves| {
      MaxLoopEnd(b, me, s, depth, alpha, beta, best, alpha0, k);
    } else {
      var child := b.forecastMove(s, moves[i]);
      OrderFacts(alpha0, best.score, beta);
      var _ := MinValueFailSoft(b, me, child, depth - 1, alpha, beta, ticks);
      assert ChildValue(b, me, s, depth, true, i) == Minimax(b, me, child, depth - 1, false);
      match MinValue(b, me, child, depth - 1, alpha, beta, ticks)
      case Cancelled =>
      case Completed(out, t) =>
        var v := out.score;
        if LessEq(beta, v) {
          MaxLoopCutoff(b, me, s, depth, i, alpha, beta, best, alpha0, k, v);
          kr := i;
        } else {
          MaxLoopContinue(b, me, s, depth, i, alpha, beta, best, alpha0, k, v);
          var best' := if Less(best.score, v) then SearchResult(v, moves[i]) else best;
          OrderFacts(v, best'.score, beta);
          kr := MaxLoopFailSoft(b, me, s, depth, i + 1, Max(alpha, best'.score), beta, best', t, alpha0,
                                if Less(best.score, v) then i else k);
        }
    }
  }

  /** `min_value` is fail-soft for every window, and when its value falls
      below `beta` the move it returns is the first that attains it. */
  lemma {:induction false} MinValueFailSoft<S, P>(b: Board<S, P>, me: P, s: S, depth: int,
                                                  alpha: Score, beta: Score, ticks: nat)
    returns (k: nat)
    requires Less(alpha, beta)
    ensures var r := MinValue(b, me, s, depth, alpha, beta, ticks);
      r.Completed? ==> FailSoft(r.result.score, Minimax(b, me, s, depth, false), alpha, beta)
    ensures var r := MinValue(b, me, s, depth, alpha, beta, ticks);
      r.Completed? && depth > 0 && Moves(b, s) != [] && Less(r.result.score, beta) ==>
        FirstMinAt(b, me, s, depth, k, r.result.score, alpha, r.result.move)
    decreases Plies(depth), 1, 0
  {
    k := 0;
    if ticks >= 2 && Moves(b, s) != [] && depth > 0 {
      k := MinLoopFailSoft(b, me, s, depth, 0, alpha, beta, SearchResult(PosInf, NoMove), ticks - 2, beta, 0);
    }
  }

  /** The state the loop of `min_value` keeps, symmetric to `MaxLoopInv`. */
  predicate MinLoopInv<S, P>(b: Board<S, P>, me: P, s: S, depth: int, i: nat,
                             alpha: Score, beta: Score, best: SearchResult, beta0: Score, k: nat)
    requires depth > 0 && i <= |Moves(b, s)|
  {
    && Less(alpha, beta0) && Less(alpha, best.score)
    && beta == Min(beta0, best.score)
    && (forall j :: 0 <= j < i ==> LessEq(best.score, ChildValue(b, me, s, depth, false, j)))
    && (Less(best.score, beta0) ==> k < i && FirstMinAt(b, me, s, depth, k, best.score, alpha, best.move))
  }

  /** After the last move the loop's best is a fail-soft bound on the
      minimum of all children. */
  lemma MinLoopEnd<S, P>(b: Board<S, P>, me: P, s: S, depth: int,
                         alpha: Score, beta: Score, best: SearchResult, beta0: Score, k: nat)
    requires depth > 0 && 0 < |Moves(b, s)|
    requires MinLoopInv(b, me, s, depth, |Moves(b, s)|, alpha, beta, best, beta0, k)
    ensures FailSoft(best.score, BestFrom(b, me, s, depth, false, 0), alpha, beta0)
  {
    MinBestFromIsGreatest(b, me, s, depth, 0, best.score);
    if Less(best.score, beta0) {
      MinBestFromIsLowerBound(b, me, s, depth, 0, k);
    }
  }

  /** A child whose value `v` lowers the best to `alpha` or below ends the
      loop with a fail-soft bound, and its move is the first to reach `v`. */
  lemma MinLoopCutoff<S, P>(b: Board<S, P>, me: P, s: S, depth: int, i: nat,
                            alpha: Score, beta: Score, best: SearchResult, beta0: Score, k: nat, v: Score)
    requires depth > 0 && i < |Moves(b, s)|
    requires MinLoopInv(b, me, s, depth, i, alpha, beta, best, beta0, k)
    requires FailSoft(v, ChildValue(b, me, s, depth, false, i), alpha, beta)
    requires LessEq(v, alpha)
    ensures Less(v, best.score)
    ensures FailSoft(v, BestFrom(b, me, s, depth, false, 0), alpha, beta0)
    ensures FirstMinAt(b, me, s, depth, i, v, alpha, Moves(b, s)[i])
  {
    var m := ChildValue(b, me, s, depth, false, i);
    OrderFacts(v, alpha, best.score);
    OrderFacts(v, alpha, beta0);
    OrderFacts(alpha, best.score, beta0);
    MinBestFromIsLowerBound(b, me, s, depth, 0, i);
    OrderFacts(BestFrom(b, me, s, depth, false, 0), m, v);
    forall j | 0 <= j < i
      ensures Less(v, ChildValue(b, me, s, depth, false, j))
    {
      OrderFacts(v, best.score, ChildValue(b, me, s, depth, false, j));
    }
  }

  /** A child whose value `v` keeps the best above `alpha` leaves the loop's
      state intact for the next move. */
  lemma MinLoopContinue<S, P>(b: Board<S, P>, me: P, s: S, depth: int, i: nat,
                              alpha: Score, beta: Score, best: SearchResult, beta0: Score, k: nat, v: Score)
    requires depth > 0 && i < |Moves(b, s)|
    requires MinLoopInv(b, me, s, depth, i, alpha, beta, best, beta0, k)
    requires FailSoft(v, ChildValue(b, me, s, depth, false, i), alpha, beta)
    requires Less(alpha, v)
    ensures var best' := if Less(v, best.score) then SearchResult(v, Moves(b, s)[i]) else best;
      MinLoopInv(b, me, s, depth, i + 1, alpha, Min(beta, best'.score), best', beta0,
                 if Less(v, best.score) then i else k)
  {
    var m := ChildValue(b, me, s, depth, false, i);
    var best' := if Less(v, best.score) then SearchResult(v, Moves(b, s)[i]) else best;
    OrderFacts(best'.score, best.score, beta0);
    OrderFacts(v, best.score, beta0);
    OrderFacts(best'.score, v, m);
    OrderFacts(best'.score, v, beta);
    OrderFacts(best'.score, v, best.score);
    forall j | 0 <= j < i + 1
      ensures LessEq(best'.score, ChildValue(b, me, s, depth, false, j))
    {
      if j < i {
        OrderFacts(best'.score, best.score, ChildValue(b, me, s, depth, false, j));
      }
    }
    if Less(v, best.score) {
      forall j | 0 <= j < i
        ensures Less(v, ChildValue(b, me, s, depth, false, j))
      {
        OrderFacts(v, best.score, ChildValue(b, me, s, depth, false, j));
      }
    }
  }

  /** The loop of `min_value`, symmetric to `MaxLoopFailSoft`. */
  lemma {:induction false} MinLoopFailSoft<S, P>(b: Board<S, P>, me: P, s: S, depth: int, i: nat,
                                                 alpha: Score, beta: Score, best: SearchResult, ticks: nat,
                                                 beta0: Score, k: nat)
    returns (kr: nat)
    requires depth > 0 && 0 < |Moves(b, s)| && i <= |Moves(b, s)|
    requires MinLoopInv(b, me, s, depth, i, alpha, beta, best, beta0, k)
    ensures var r := MinLoop(b, me, s, depth, i, alpha, beta, best, ticks);
      r.Completed? ==> FailSoft(r.result.score, BestFrom(b, me, s, depth, false, 0), alpha, beta0)
    ensures var r := MinLoop(b, me, s, depth, i, alpha, beta, best, ticks);
      r.Completed? && Less(r.result.score, beta0) ==>
        FirstMinAt(b, me, s, depth, kr, r.result.score, alpha, r.result.move)
    decreases Plies(depth), 0, |Moves(b, s)| - i
  {
    var moves := Moves(b, s);
    kr := k;
    if i == |moves| {
      MinLoopEnd(b, me, s, depth, alpha, beta, best, beta0, k);
    } else {
      var child := b.forecastMove(s, moves[i]);
      OrderFacts(alpha, best.score, beta0);
      var _ := MaxValueFailSoft(b, me, child, depth - 1, alpha, beta, ticks);
      assert ChildValue(b, me, s, depth, false, i) == Minimax(b, me, child, depth - 1, true);
      match MaxValue(b, me, child, depth - 1, alpha, beta, ticks)
      case Cancelled =>
      case Completed(out, t) =>
        var v := out.score;
        if LessEq(v, alpha) {
          MinLoopCutoff(b, me, s, depth, i, alpha, beta, best, beta0, k, v);
          kr := i;
        } else {
          MinLoopContinue(b, me, s, depth, i, alpha, beta, best, beta0, k, v);
          var best' := if Less(v, best.score) then SearchResult(v, moves[i]) else best;
          OrderFacts(alpha, best'.score, v);
          kr := MinLoopFailSoft(b, me, s, depth, i + 1, alpha, Min(beta, best'.score), best', t, beta0,
                                if Less(v, best.score) then i else k);
        }
    }
  }

  /** Over the full window `(-inf, +inf)`, as `alphabeta` calls it at the
      root, a completed `max_value` returns exactly the minimax value.  Its
      move is `(-1, -1)` when that value is -inf, and otherwise the first
      legal move whose child has that value. */
  lemma {:induction false} FullWindowIsMinimax<S, P>(b: Board<S, P>, me: P, s: S, depth: int, ticks: nat)
    returns (k: nat)
    ensures var r := MaxValue(b, me, s, depth, NegInf, PosInf, ticks);
      r.Completed? ==> r.result.score == Minimax(b, me, s, depth, true)
    ensures var r := MaxValue(b, me, s, depth, NegInf, PosInf, ticks);
      r.Completed? && depth > 0 && Moves(b, s) != [] ==>
        if r.result.score == NegInf then r.result.move == NoMove
        else
          && k < |Moves(b, s)| && Moves(b, s)[k] == r.result.move
          && ChildValue(b, me, s, depth, true, k) == r.result.score
          && forall j :: 0 <= j < k ==> Less(ChildValue(b, me, s, depth, true, j), r.result.score)
  {
    k := MaxValueFailSoft(b, me, s, depth, NegInf, PosInf, ticks);
    if ticks >= 2 && depth > 0 && Moves(b, s) != [] {
      MaxLoopBounds(b, me, s, depth, 0, NegInf, PosInf, SearchResult(NegInf, NoMove), ticks - 2);
    }
  }
}
