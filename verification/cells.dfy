/** One board slot, with its empty/occupied state machine. */
module Cells {
  import opened Wrappers
  import opened Values

  /** The occupancy state of a cell. `Occupied` is final: no operation leaves it. */
  datatype CellState = Empty | Occupied

  /** A cell knows its own position, its occupancy state and the player that
      took it (`None` until it is taken). */
  datatype Cell = Cell(row: int, col: int, state: CellState, player: Option<Player>)

  /** A cell as the board creates it: empty, with nobody recorded. */
  function NewCell(row: int, col: int): Cell
  {
    Cell(row, col, Empty, None)
  }

  predicate IsOccupied(c: Cell)
  {
    c.state == Occupied
  }

  /** The two fields agree: a player is recorded exactly when the cell is occupied. */
  predicate Consistent(c: Cell)
  {
    c.state.Occupied? <==> c.player.Some?
  }

  /** Takes the cell for the move's player. An empty cell becomes occupied by
      that player and keeps its position; an occupied cell refuses with an
      error naming the cell, and stays as it was. */
  function Occupy(c: Cell, m: Move): (r: Result<Cell, GameError>)
    ensures r.Ok? <==> !IsOccupied(c)
    ensures r.Ok? ==> r.value.row == c.row && r.value.col == c.col
    ensures r.Ok? ==> IsOccupied(r.value) && r.value.player == Some(m.player)
    ensures r.Ok? ==> Consistent(r.value)
    ensures r.Err? ==> r.error == AlreadyOccupiedError(c.row, c.col)
  {
    match c.state
    case Empty => Ok(c.(state := Occupied, player := Some(m.player)))
    case Occupied => Err(AlreadyOccupiedError(c.row, c.col))
  }

  /** A cell can be taken once: whatever move comes second is refused, and
      the player recorded by the first stays. */
  lemma OccupyOnce(c: Cell, m1: Move, m2: Move)
    requires !IsOccupied(c)
    ensures Occupy(c, m1).Ok?
    ensures Occupy(Occupy(c, m1).value, m2) == Err(AlreadyOccupiedError(c.row, c.col))
  {
  }
}
