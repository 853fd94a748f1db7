/** Plain depth-limited minimax without pruning: the reference value that the
    pruned search is proved against.  Values are always taken from the agent's
    (`me`'s) point of view, as the agent's search does. */
module PlainMinimax {
  import opened Isolation
  import opened Scores
  import opened Heuristic

  /** The minimax value of `s` searched `depth` plies deep; `maximizing` says
      whether the agent or its opponent chooses at `s`. */
  function Minimax<S, P>(b: Board<S, P>, me: P, s: S, depth: int, maximizing: bool): Score
    decreases Plies(depth), 1, 0
  {
    if Moves(b, s) == [] || depth <= 0 then CustomScore(b, s, me)
    else BestFrom(b, me, s, depth, maximizing, 0)
  }

  /** The best of the values of the children reached by `Moves(b, s)[i..]`:
      their maximum at the agent's ply and their minimum at the opponent's. */
  function BestFrom<S, P>(b: Board<S, P>, me: P, s: S, depth: int, maximizing: bool, i: nat): Score
    requires depth > 0 && i <= |Moves(b, s)|
    decreases Plies(depth), 0, |Moves(b, s)| - i
  {
    if i == |Moves(b, s)| then (if maximizing then NegInf else PosInf)
    else
      var v := ChildValue(b, me, s, depth, maximizing, i);
      var rest := BestFrom(b, me, s, depth, maximizing, i + 1);
      if maximizing then Max(v, rest) else Min(v, rest)
  }

  /** The minimax value of the child reached by the `i`-th legal move. */
  function ChildValue<S, P>(b: Board<S, P>, me: P, s: S, depth: int, maximizing: bool, i: nat): Score
    requires depth > 0 && i < |Moves(b, s)|
    decreases Plies(depth), 0, |Moves(b, s)| - i - 1
  {
    Minimax(b, me, b.forecastMove(s, Moves(b, s)[i]), depth - 1, !maximizing)
  }

  /** At the agent's ply, `BestFrom` is at least every child value it covers. */
  lemma {:induction false} MaxBestFromIsUpperBound<S, P>(b: Board<S, P>, me: P, s: S, depth: int, i: nat, k: nat)
    requires depth > 0 && i <= k < |Moves(b, s)|
    ensures LessEq(ChildValue(b, me, s, depth, true, k), BestFrom(b, me, s, depth, true, i))
    decreases k - i
  {
    if i < k {
      MaxBestFromIsUpperBound(b, me, s, depth, i + 1, k);
      OrderFacts(ChildValue(b, me, s, depth, true, k), BestFrom(b, me, s, depth, true, i + 1),
                 BestFrom(b, me, s, depth, true, i));
    }
  }

  /** At the agent's ply, `BestFrom` is at most any common upper bound of the
      child values it covers: it is their least upper bound. */
  lemma {:induction false} MaxBestFromIsLeast<S, P>(b: Board<S, P>, me: P, s: S, depth: int, i: nat, x: Score)
    requires depth > 0 && i <= |Moves(b, s)|
    requires forall j :: i <= j < |Moves(b, s)| ==> LessEq(ChildValue(b, me, s, depth, true, j), x)
    ensures LessEq(BestFrom(b, me, s, depth, true, i), x)
    decreases |Moves(b, s)| - i
  {
    if i < |Moves(b, s)| {
      MaxBestFromIsLeast(b, me, s, depth, i + 1, x);
    }
  }

  /** At the opponent's ply, `BestFrom` is at most every child value it covers. */
  lemma {:induction false} MinBestFromIsLowerBound<S, P>(b: Board<S, P>, me: P, s: S, depth: int, i: nat, k: nat)
    requires depth > 0 && i <= k < |Moves(b, s)|
    ensures LessEq(BestFrom(b, me, s, depth, false, i), ChildValue(b, me, s, depth, false, k))
    decreases k - i
  {
    if i < k {
      MinBestFromIsLowerBound(b, me, s, depth, i + 1, k);
      OrderFacts(BestFrom(b, me, s, depth, false, i), BestFrom(b, me, s, depth, false, i + 1),
                 ChildValue(b, me, s, depth, false, k));
    }
  }

  /** At the opponent's ply, `BestFrom` is at least any common lower bound of
      the child values it covers: it is their greatest lower bound. */
  lemma {:induction false} MinBestFromIsGreatest<S, P>(b: Board<S, P>, me: P, s: S, depth: int, i: nat, x: Score)
    requires depth > 0 && i <= |Moves(b, s)|
    requires forall j :: i <= j < |Moves(b, s)| ==> LessEq(x, ChildValue(b, me, s, depth, false, j))
    ensures LessEq(x, BestFrom(b, me, s, depth, false, i))
    decreases |Moves(b, s)| - i
  {
    if i < |Moves(b, s)| {
      MinBestFromIsGreatest(b, me, s, depth, i + 1, x);
    }
  }
}
