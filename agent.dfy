/** `CustomPlayer`: the agent object.  Its methods update its fields step by
    step as the source does, and each is proved to compute exactly what the
    corresponding function of `Search` or `Deepening` specifies. */
module Agent {
  import opened Isolation
  import opened Scores
  import opened Heuristic
  import Search
  import Deepening

  class CustomPlayer<P> {
    /** The player this agent is on the board (`self` in the board's calls). */
    const me: P
    /** `self.search_depth`. */
    var searchDepth: int
    /** `self.time_left`, seen through its checks: how many more checks of
        `time_left() < TIMER_THRESHOLD` find enough time left. */
    var ticks: nat

    /** `__init__` with its default `search_depth=3`; no clock is attached
        until `get_move` receives one. */
    constructor (me: P)
      ensures this.me == me && searchDepth == 3 && ticks == 0
    {
      this.me := me;
      searchDepth := 3;
      ticks := 0;
    }

    /** `self.time_left() < self.TIMER_THRESHOLD`: true once the clock has run
        out; otherwise the check uses up one tick. */
    method TimeIsUp() returns (expired: bool)
      modifies this`ticks
      ensures expired <==> old(ticks) == 0
      ensures ticks == if expired then 0 else old(ticks) - 1
    {
      expired := ticks == 0;
      if !expired {
        ticks := ticks - 1;
      }
    }

    /** `terminal_test`: a time check, then whether the player to move is stuck. */
    method TerminalTest<S>(game: Board<S, P>, s: S) returns (r: Search.Timed<bool>)
      modifies this`ticks
      ensures r == Search.TerminalTest(game, s, old(ticks))
      ensures ticks == Search.Remaining(r)
    {
      var expired := TimeIsUp();
      if expired {
        return Search.Cancelled;
      }
      var terminal := |Moves(game, s)| == 0;
      return Search.Completed(terminal, ticks);
    }

    /** `max_value`, with its `for` loop over the legal moves. */
    method MaxValue<S>(game: Board<S, P>, s: S, depth: int, alpha: Score, beta: Score)
      returns (r: Search.Timed<Search.SearchResult>)
      modifies this`ticks
      ensures r == Search.MaxValue(game, me, s, depth, alpha, beta, old(ticks))
      ensures ticks == Search.Remaining(r)
      decreases Plies(depth), 1
    {
      if Moves(game, s) == [] || depth <= 0 {
        Search.LeafNode(game, me, s, depth, alpha, beta, ticks);
      } else {
        Search.ExpandedNode(game, me, s, depth, alpha, beta, ticks);
      }
      var expired := TimeIsUp();
      if expired {
        return Search.Cancelled;
      }
      var terminal := TerminalTest(game, s);
      if terminal.Cancelled? {
        return Search.Cancelled;
      }
      if terminal.result || depth <= 0 {
        return Search.Completed(Search.SearchResult(CustomScore(game, s, me), NoMove), ticks);
      }
      var moves := Moves(game, s);
      var best := Search.SearchResult(NegInf, NoMove);
      var a := alpha;
      for i := 0 to |moves|
        invariant Search.MaxLoop(game, me, s, depth, i, a, beta, best, ticks)
               == Search.MaxValue(game, me, s, depth, alpha, beta, old(ticks))
      {
        ghost var before := ticks;
        var out := MinValue(game, game.forecastMove(s, moves[i]), depth - 1, a, beta);
        Search.MaxLoopStep(game, me, s, depth, i, a, beta, best, before, out);
        if out.Cancelled? {
          return Search.Cancelled;
        }
        if Less(best.score, out.result.score) {
          best := Search.SearchResult(out.result.score, moves[i]);
        }
        if LessEq(beta, best.score) {
          return Search.Completed(best, ticks);
        }
        a := Max(a, best.score);
      }
      return Search.Completed(best, ticks);
    }

    /** `min_value`, with its `for` loop over the legal moves. */
    method MinValue<S>(game: Board<S, P>, s: S, depth: int, alpha: Score, beta: Score)
      returns (r: Search.Timed<Search.SearchResult>)
      modifies this`ticks
      ensures r == Search.MinValue(game, me, s, depth, alpha, beta, old(ticks))
      ensures ticks == Search.Remaining(r)
      decreases Plies(depth), 1
    {
      if Moves(game, s) == [] || depth <= 0 {
        Search.LeafNode(game, me, s, depth, alpha, beta, ticks);
      } else {
        Search.ExpandedNode(game, me, s, depth, alpha, beta, ticks);
      }
      var expired := TimeIsUp();
      if expired {
        return Search.Cancelled;
      }
      var terminal := TerminalTest(game, s);
      if terminal.Cancelled? {
        return Search.Cancelled;
      }
      if terminal.result || depth <= 0 {
        return Search.Completed(Search.SearchResult(CustomScore(game, s, me), NoMove), ticks);
      }
      var moves := Moves(game, s);
      var best := Search.SearchResult(PosInf, NoMove);
      var b := beta;
      for i := 0 to |moves|
        invariant Search.MinLoop(game, me, s, depth, i, alpha, b, best, ticks)
               == Search.MinValue(game, me, s, depth, alpha, beta, old(ticks))
      {
        ghost var before := ticks;
        var out := MaxValue(game, game.forecastMove(s, moves[i]), depth - 1, alpha, b);
        Search.MinLoopStep(game, me, s, depth, i, alpha, b, best, before, out);
        if out.Cancelled? {
          return Search.Cancelled;
        }
        if Less(out.result.score, best.score) {
          best := Search.SearchResult(out.result.score, moves[i]);
        }
        if LessEq(best.score, alpha) {
          return Search.Completed(best, ticks);
        }
        b := Min(b, best.score);
      }
      return Search.Completed(best, ticks);
    }

    /** `alphabeta` over the full window `(-inf, +inf)`. */
    method AlphaBeta<S>(game: Board<S, P>, s: S, depth: int) returns (r: Search.Timed<Move>)
      modifies this`ticks
      ensures r == Search.AlphaBeta(game, me, s, depth, old(ticks))
      ensures ticks == Search.Remaining(r)
    {
      var expired := TimeIsUp();
      if expired {
        return Search.Cancelled;
      }
      if |Moves(game, s)| == 0 {
        return Search.Completed(NoMove, ticks);
      }
      var out := MaxValue(game, s, depth, NegInf, PosInf);
      if out.Cancelled? {
        return Search.Cancelled;
      }
      return Search.Completed(out.result.move, ticks);
    }

    /** `get_move`: attach the clock, answer the centre on the first move,
        otherwise record the fallback and deepen from depth 2 until a search
        is cancelled or answers `(-1, -1)`. */
    method GetMove<S>(game: Board<S, P>, s: S, timeLeft: nat, pick: nat) returns (m: Move)
      requires Deepening.ValidPick(game, me, s, pick)
      modifies this
      ensures m == Deepening.ChooseMove(game, me, s, timeLeft, pick)
      ensures game.moveCount(s) == 0 ==> searchDepth == old(searchDepth) && ticks == timeLeft
      ensures game.moveCount(s) != 0 ==>
        searchDepth == Deepening.InitialDepth + |Deepening.CompletedMoves(game, me, s, Deepening.InitialDepth, timeLeft)|
      ensures ticks <= timeLeft
    {
      ticks := timeLeft;
      if game.moveCount(s) == 0 {
        return Deepening.Center(game, s);
      }
      var legalMoves := game.legalMoves(s, me);
      var best := if |legalMoves| > 0 then legalMoves[pick] else NoMove;
      searchDepth := Deepening.InitialDepth;
      while true
        invariant Deepening.Deepen(game, me, s, searchDepth, best, ticks)
               == Deepening.ChooseMove(game, me, s, timeLeft, pick)
        invariant searchDepth + |Deepening.CompletedMoves(game, me, s, searchDepth, ticks)|
               == Deepening.InitialDepth + |Deepening.CompletedMoves(game, me, s, Deepening.InitialDepth, timeLeft)|
        invariant ticks <= timeLeft
        decreases ticks
      {
        var current := AlphaBeta(game, s, searchDepth);
        if current.Cancelled? {
          return best;
        }
        if current.result == NoMove {
          return best;
        }
        best := current.result;
        searchDepth := searchDepth + 1;
      }
    }
  }
}
