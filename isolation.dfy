/** The Isolation board as the search engine sees it.
    The board itself is owned elsewhere; the search only consults it through
    the operations collected in `Board`, over an opaque state type `S` and an
    opaque player type `P`.  Every lemma of this project holds for every
    choice of these operations. */
module Isolation {

  /** A board coordinate `(row, column)`. */
  datatype Move = Move(row: int, col: int)

  /** The `(-1, -1)` value returned when there is no move to make. */
  const NoMove: Move := Move(-1, -1)

  /** The board operations the agent calls:
      `get_legal_moves(player)`, `active_player`, `forecast_move`,
      `is_winner`, `is_loser`, `get_opponent`, `move_count`, `height`, `width`. */
  datatype Board<!S, !P> = Board(
    legalMoves: (S, P) -> seq<Move>,
    activePlayer: S -> P,
    forecastMove: (S, Move) -> S,
    isWinner: (S, P) -> bool,
    isLoser: (S, P) -> bool,
    opponent: (S, P) -> P,
    moveCount: S -> int,
    height: S -> int,
    width: S -> int)

  /** `get_legal_moves()` without an argument: the moves of the player to move. */
  function Moves<S, P>(b: Board<S, P>, s: S): seq<Move>
  {
    b.legalMoves(s, b.activePlayer(s))
  }

  /** The number of plies a search of `depth` may still expand; a node at
      `depth <= 0` is never expanded. */
  function Plies(depth: int): nat
  {
    if depth > 0 then depth else 0
  }
}
