/** `custom_score`: the evaluation of a state from one player's point of view. */
module Heuristic {
  import opened Isolation
  import opened Scores

  /** A lost state is worth -inf and a won state +inf; otherwise the score is
      the player's mobility minus two and a half times the opponent's. */
  function CustomScore<S, P>(b: Board<S, P>, s: S, p: P): (r: Score)
    ensures r == NegInf <==> b.isLoser(s, p)
    ensures r == PosInf <==> !b.isLoser(s, p) && b.isWinner(s, p)
  {
    if b.isLoser(s, p) then NegInf
    else if b.isWinner(s, p) then PosInf
    else
      var ownMoves := |b.legalMoves(s, p)|;
      var oppMoves := |b.legalMoves(s, b.opponent(s, p))|;
      Fin(ownMoves as real - 2.5 * oppMoves as real)
  }

  /** Neither side has won or lost. */
  predicate Undecided<S, P>(b: Board<S, P>, s: S, p: P)
  {
    !b.isLoser(s, p) && !b.isWinner(s, p)
  }

  /** Between two undecided states, more own moves and fewer opponent moves
      never lower the score, and a strict improvement in either raises it. */
  lemma CustomScoreMonotone<S, P>(b: Board<S, P>, s1: S, s2: S, p: P)
    requires Undecided(b, s1, p) && Undecided(b, s2, p)
    requires |b.legalMoves(s1, p)| <= |b.legalMoves(s2, p)|
    requires |b.legalMoves(s2, b.opponent(s2, p))| <= |b.legalMoves(s1, b.opponent(s1, p))|
    ensures LessEq(CustomScore(b, s1, p), CustomScore(b, s2, p))
    ensures (|b.legalMoves(s1, p)| < |b.legalMoves(s2, p)|
             || |b.legalMoves(s2, b.opponent(s2, p))| < |b.legalMoves(s1, b.opponent(s1, p))|)
            ==> Less(CustomScore(b, s1, p), CustomScore(b, s2, p))
  {
  }

  /** An opponent move weighs more than an own move: gaining one move each
      lowers the score. */
  lemma OpponentMobilityWeighsMore<S, P>(b: Board<S, P>, s1: S, s2: S, p: P)
    requires Undecided(b, s1, p) && Undecided(b, s2, p)
    requires |b.legalMoves(s2, p)| == |b.legalMoves(s1, p)| + 1
    requires |b.legalMoves(s2, b.opponent(s2, p))| == |b.legalMoves(s1, b.opponent(s1, p))| + 1
    ensures Less(CustomScore(b, s2, p), CustomScore(b, s1, p))
  {
  }
}
