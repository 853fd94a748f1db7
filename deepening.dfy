/** `CustomPlayer.get_move` as functions: the opening shortcut, the fallback
    move, and iterative deepening from depth 2 until a search is cancelled or
    answers `(-1, -1)`. */
module Deepening {
  import opened Isolation
  import opened Scores
  import opened Search
  import opened PlainMinimax
  import opened Pruning
  import opened Cancellation

  /** The depth the first search of every turn uses. */
  const InitialDepth: int := 2

  /** `int(x / 2)`: true division, then truncation toward zero. */
  function HalfTowardZero(x: int): (r: int)
    ensures x >= 0 ==> 0 <= x - 2 * r <= 1
    ensures x < 0 ==> 0 <= 2 * r - x <= 1
  {
    if x >= 0 then x / 2 else -((-x) / 2)
  }

  /** The centre cell `(int(height / 2), int(width / 2))`, played as the first
      move of a game. */
  function Center<S, P>(b: Board<S, P>, s: S): (m: Move)
    ensures b.height(s) >= 0 ==> 0 <= b.height(s) - 2 * m.row <= 1
    ensures b.width(s) >= 0 ==> 0 <= b.width(s) - 2 * m.col <= 1
  {
    Move(HalfTowardZero(b.height(s)), HalfTowardZero(b.width(s)))
  }

  /** `randint(0, len(legal_moves) - 1)` always picks a valid index. */
  predicate ValidPick<S, P>(b: Board<S, P>, me: P, s: S, pick: nat)
  {
    b.legalMoves(s, me) != [] ==> pick < |b.legalMoves(s, me)|
  }

  /** The move `get_move` falls back on before any search completes: the
      picked legal move of the agent, or `(-1, -1)` when it has none. */
  function Fallback<S, P>(b: Board<S, P>, me: P, s: S, pick: nat): (m: Move)
    requires ValidPick(b, me, s, pick)
    ensures b.legalMoves(s, me) == [] ==> m == NoMove
    ensures b.legalMoves(s, me) != [] ==> m in b.legalMoves(s, me)
  {
    if |b.legalMoves(s, me)| > 0 then b.legalMoves(s, me)[pick] else NoMove
  }

  /** The `while True` loop of `get_move` from `depth` on, with `best` the move
      recorded so far.  It returns the recorded move when a search is
      cancelled or answers `(-1, -1)`, and otherwise records the answer and
      searches one ply deeper. */
  function Deepen<S, P>(b: Board<S, P>, me: P, s: S, depth: int, best: Move, ticks: nat): (m: Move)
    ensures m == best || m in Moves(b, s)
    decreases ticks
  {
    match AlphaBeta(b, me, s, depth, ticks)
    case Cancelled => best
    case Completed(current, t) =>
      if current == NoMove then best else Deepen(b, me, s, depth + 1, current, t)
  }

  /** The answers of the searches at `depth`, `depth + 1`, `depth + 2`, ...
      that complete with a real move, each run on the clock its predecessor
      left; the sequence ends at the first search that is cancelled or
      answers `(-1, -1)`. */
  function CompletedMoves<S, P>(b: Board<S, P>, me: P, s: S, depth: int, ticks: nat): (ms: seq<Move>)
    ensures forall m | m in ms :: m != NoMove && m in Moves(b, s)
    ensures |ms| <= ticks
    decreases ticks
  {
    match AlphaBeta(b, me, s, depth, ticks)
    case Cancelled => []
    case Completed(current, t) =>
      if current == NoMove then [] else [current] + CompletedMoves(b, me, s, depth + 1, t)
  }

  /** `get_move`: the centre on the first move of the game; otherwise the move
      of the last search that completed, or the fallback when none did. */
  function ChooseMove<S, P>(b: Board<S, P>, me: P, s: S, ticks: nat, pick: nat): (m: Move)
    requires ValidPick(b, me, s, pick)
    ensures b.moveCount(s) == 0 ==> m == Center(b, s)
    ensures b.moveCount(s) != 0 ==> m == Fallback(b, me, s, pick) || m in Moves(b, s)
  {
    if b.moveCount(s) == 0 then Center(b, s)
    else Deepen(b, me, s, InitialDepth, Fallback(b, me, s, pick), ticks)
  }

  /** The deepening loop returns the answer of the last depth that completed,
      never one from a depth the clock cut short, and the recorded move when
      no depth completed. */
  lemma {:induction false} DeepenReturnsLastCompleted<S, P>(b: Board<S, P>, me: P, s: S, depth: int, best: Move, ticks: nat)
    ensures var ms := CompletedMoves(b, me, s, depth, ticks);
      Deepen(b, me, s, depth, best, ticks) == if ms == [] then best else ms[|ms| - 1]
    decreases ticks
  {
    match AlphaBeta(b, me, s, depth, ticks)
    case Cancelled =>
    case Completed(current, t) =>
      if current != NoMove {
        DeepenReturnsLastCompleted(b, me, s, depth + 1, current, t);
      }
  }

  /** More time never loses a completed depth: the depths completed on a
      budget are a prefix of those completed on any longer budget. */
  lemma {:induction false} MoreTimeCompletesMore<S, P>(b: Board<S, P>, me: P, s: S, depth: int, ticks: nat, extra: nat)
    ensures CompletedMoves(b, me, s, depth, ticks) <= CompletedMoves(b, me, s, depth, ticks + extra)
    decreases ticks
  {
    AlphaBetaMoreTicks(b, me, s, depth, ticks, extra);
    match AlphaBeta(b, me, s, depth, ticks)
    case Cancelled =>
    case Completed(current, t) =>
      if current != NoMove {
        MoreTimeCompletesMore(b, me, s, depth + 1, t, extra);
      }
  }

  /** A completed `alphabeta` at a root with legal moves returns `(-1, -1)`
      exactly when every line loses (the minimax value is -inf), and
      otherwise the first legal move whose child attains the minimax value. */
  lemma {:induction false} AlphaBetaChoosesFirstBest<S, P>(b: Board<S, P>, me: P, s: S, depth: int, ticks: nat)
    returns (k: nat)
    requires Moves(b, s) != [] && depth > 0
    ensures var r := AlphaBeta(b, me, s, depth, ticks); var v := Minimax(b, me, s, depth, true);
      r.Completed? ==>
        if v == NegInf then r.result == NoMove
        else
          && k < |Moves(b, s)| && Moves(b, s)[k] == r.result
          && ChildValue(b, me, s, depth, true, k) == v
          && forall j :: 0 <= j < k ==> Less(ChildValue(b, me, s, depth, true, j), v)
  {
    k := 0;
    if ticks > 0 {
      k := FullWindowIsMinimax(b, me, s, depth, ticks - 1);
    }
  }

  /** When every line from a root with legal moves loses, each completed
      search answers `(-1, -1)`, so deepening stops and keeps the move it had
      recorded, although legal moves exist. */
  lemma {:induction false} LostRootKeepsRecordedMove<S, P>(b: Board<S, P>, me: P, s: S, depth: int, best: Move, ticks: nat)
    requires Moves(b, s) != [] && depth > 0
    requires Minimax(b, me, s, depth, true) == NegInf
    ensures Deepen(b, me, s, depth, best, ticks) == best
    ensures CompletedMoves(b, me, s, depth, ticks) == []
  {
    var _ := AlphaBetaChoosesFirstBest(b, me, s, depth, ticks);
  }

  /** On the first move of a game `get_move` answers the centre cell,
      whatever the clock says. */
  lemma OpeningMove<S, P>(b: Board<S, P>, me: P, s: S, ticks: nat, pick: nat)
    requires ValidPick(b, me, s, pick) && b.moveCount(s) == 0
    ensures ChooseMove(b, me, s, ticks, pick) == Center(b, s)
  {
  }

  /** When the agent, the player to move, has no legal move, `get_move`
      answers `(-1, -1)`. */
  lemma {:induction false} NoLegalMoveAnswersNoMove<S, P>(b: Board<S, P>, me: P, s: S, ticks: nat, pick: nat)
    requires ValidPick(b, me, s, pick) && b.moveCount(s) != 0
    requires b.activePlayer(s) == me && b.legalMoves(s, me) == []
    ensures ChooseMove(b, me, s, ticks, pick) == NoMove
  {
    DeepenReturnsLastCompleted(b, me, s, InitialDepth, NoMove, ticks);
  }

  /** When the agent is to move and has a legal move, `get_move` answers one
      of its legal moves: either the fallback or the answer of the last
      completed depth. */
  lemma {:induction false} AnswerIsLegal<S, P>(b: Board<S, P>, me: P, s: S, ticks: nat, pick: nat)
    requires ValidPick(b, me, s, pick) && b.moveCount(s) != 0
    requires b.activePlayer(s) == me && b.legalMoves(s, me) != []
    ensures ChooseMove(b, me, s, ticks, pick) in b.legalMoves(s, me)
    ensures var ms := CompletedMoves(b, me, s, InitialDepth, ticks);
      ChooseMove(b, me, s, ticks, pick) == if ms == [] then Fallback(b, me, s, pick) else ms[|ms| - 1]
  {
    DeepenReturnsLastCompleted(b, me, s, InitialDepth, Fallback(b, me, s, pick), ticks);
  }

  /** With a single legal move, `get_move` plays it, however much time it has. */
  lemma {:induction false} SingleLegalMove<S, P>(b: Board<S, P>, me: P, s: S, ticks: nat, pick: nat, m: Move)
    requires ValidPick(b, me, s, pick) && b.moveCount(s) != 0
    requires b.activePlayer(s) == me && b.legalMoves(s, me) == [m]
    ensures ChooseMove(b, me, s, ticks, pick) == m
  {
    AnswerIsLegal(b, me, s, ticks, pick);
  }

  /** What a call of `get_move` as written ends with. */
  datatype Outcome = Returned(move: Move) | RaisedNameError

  /** `get_move` as written: `randint` is called unqualified while only the
      module `random` is imported, so competition_agent.py:112 raises `NameError` whenever
      the agent has a legal move past the opening. */
  function GetMoveAsWritten<S, P>(b: Board<S, P>, me: P, s: S, ticks: nat): (r: Outcome)
    ensures r.Returned? && b.moveCount(s) != 0 ==> r.move == NoMove || r.move in Moves(b, s)
  {
    if b.moveCount(s) == 0 then Returned(Center(b, s))
    else if |b.legalMoves(s, me)| > 0 then RaisedNameError
    else Returned(Deepen(b, me, s, InitialDepth, NoMove, ticks))
  }

  /** As written, `get_move` never returns a move once the game is under way
      and the agent can move: it raises instead. */
  lemma AsWrittenRaisesWhenMovesExist<S, P>(b: Board<S, P>, me: P, s: S, ticks: nat)
    requires b.moveCount(s) != 0 && b.legalMoves(s, me) != []
    ensures GetMoveAsWritten(b, me, s, ticks) == RaisedNameError
  {
  }
}
