/** Scores are Python floats that are either finite or one of the two
    infinities; no score is ever NaN.  They are modelled exactly, with the
    comparisons and the built-in `max`/`min` the search uses. */
module Scores {

  datatype Score = NegInf | Fin(v: real) | PosInf

  /** `a < b` on the extended reals. */
  predicate Less(a: Score, b: Score)
  {
    match a
    case NegInf => !b.NegInf?
    case Fin(x) => b.PosInf? || (b.Fin? && x < b.v)
    case PosInf => false
  }

  /** `a <= b`, which for scores that are never NaN is `not (b < a)`. */
  predicate LessEq(a: Score, b: Score)
    ensures LessEq(a, b) <==> Less(a, b) || a == b
  {
    !Less(b, a)
  }

  /** Python's `max(a, b)`: `b` only when it is strictly greater. */
  function Max(a: Score, b: Score): (r: Score)
    ensures LessEq(a, r) && LessEq(b, r)
    ensures r == a || r == b
  {
    if Less(a, b) then b else a
  }

  /** Python's `min(a, b)`: `b` only when it is strictly smaller. */
  function Min(a: Score, b: Score): (r: Score)
    ensures LessEq(r, a) && LessEq(r, b)
    ensures r == a || r == b
  {
    if Less(b, a) then b else a
  }

  /** `Less` is a strict total order and `LessEq` its reflexive closure. */
  lemma OrderFacts(a: Score, b: Score, c: Score)
    ensures !Less(a, a)
    ensures Less(a, b) ==> !Less(b, a)
    ensures Less(a, b) && Less(b, c) ==> Less(a, c)
    ensures LessEq(a, b) && LessEq(b, c) ==> LessEq(a, c)
    ensures LessEq(a, b) && LessEq(b, a) ==> a == b
    ensures Less(a, b) || a == b || Less(b, a)
  {
  }
}
