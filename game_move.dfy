/** The moves a player can ask for. `None`, like any value outside the four directions, is not a valid move. */
module GameMoves {

  datatype GameMove = None | Up | Right | Left | Down {
    predicate Valid() {
      !None?
    }
  }
}
