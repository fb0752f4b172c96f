/** The value types shared by every part of the game: players, moves and the
    errors a move can raise. */
module Values {

  /** A player is identified by its marker symbol. */
  datatype Player = Player(marker: string)

  const PlayerX: Player := Player("X")
  const PlayerO: Player := Player("O")

  /** The two players of a game, in the order the turn cycle visits them. */
  const Players: seq<Player> := [PlayerX, PlayerO]

  /** One attempt by `player` to take the cell at (`row`, `col`). */
  datatype Move = Move(player: Player, row: int, col: int)

  /** The game errors: the addressed cell is taken, or the game has ended.
      The occupied-cell error names the cell it was raised for. */
  datatype GameError = AlreadyOccupiedError(row: int, col: int) | GameOverError

  /** The opponent of one of the two players. */
  function Other(p: Player): (q: Player)
    requires p in Players
    ensures q in Players && q != p
  {
    if p == PlayerX then PlayerO else PlayerX
  }
}
