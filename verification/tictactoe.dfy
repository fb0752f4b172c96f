/** The game: a board, the turn cursor over the two players, and the
    in-progress/over lifecycle. Every call reports exactly one event to the
    presenter; here the event is returned alongside the new game. */
module TicTacToe {
  import opened Wrappers
  import opened Values
  import opened Cells
  import opened Boards

  /** `Over` is final: only `EndGame` enters it and nothing leaves it. */
  datatype Lifecycle = InProgress | Over

  /** `turn` is the position in `Players` of the player whose turn it is. */
  datatype Game = Game(board: Board, turn: nat, lifecycle: Lifecycle)

  /** The presenter's notifications the core sends. */
  datatype Event = MoveMade(move: Move) | Error(error: GameError) | GameOver

  /** The game after one call, and the notification that call sent. */
  datatype Step = Step(game: Game, event: Event)

  predicate Valid(g: Game)
  {
    WellFormed(g.board) && g.turn < |Players|
  }

  function CurrentPlayer(g: Game): Player
    requires g.turn < |Players|
  {
    Players[g.turn]
  }

  /** One step of the turn cycle: the cursor moves to the other player, and
      two steps bring it back. */
  function NextTurn(t: nat): (r: nat)
    requires t < |Players|
    ensures r < |Players| && Players[r] == Other(Players[t])
    ensures r == (t + 1) % 2
  {
    if t + 1 == |Players| then 0 else t + 1
  }

  /** The cursor after `n` steps of the turn cycle from `t`. */
  function Advance(t: nat, n: nat): (r: nat)
    requires t < |Players|
    ensures r < |Players|
    decreases n
  {
    if n == 0 then t else Advance(NextTurn(t), n - 1)
  }

  /** The cycle has period two: `n` steps from `t` land on the parity of `t + n`. */
  lemma {:induction false} AdvanceParity(t: nat, n: nat)
    requires t < |Players|
    ensures Advance(t, n) == (t + n) % 2
    decreases n
  {
    if n > 0 {
      AdvanceParity(NextTurn(t), n - 1);
    }
  }

  /** A new game: X to play, in progress, every cell of the 3 x 3 board empty
      and at its own position. */
  function NewGame(): (g: Game)
    ensures Valid(g) && AllEmpty(g.board)
    ensures CurrentPlayer(g) == PlayerX && g.lifecycle == InProgress
  {
    InitialBoardIsTheEmptyBoard(InitialBoard());
    Game(InitialBoard(), 0, InProgress)
  }

  /** What the lifecycle state does with a move: an ended game refuses it
      without looking at the board, a game in progress hands it to the board. */
  function Dispatch(l: Lifecycle, b: Board, m: Move): (r: Result<Board, GameError>)
    requires WellFormed(b) && InBounds(m.row, m.col)
    ensures l == Over ==> r == Err(GameOverError)
    ensures l == InProgress ==> (r.Ok? <==> !IsOccupied(At(b, m.row, m.col)))
    ensures r.Ok? ==> l == InProgress && WellFormed(r.value) && SameExcept(b, r.value, m.row, m.col)
    ensures r.Ok? ==> IsOccupied(At(r.value, m.row, m.col)) && At(r.value, m.row, m.col).player == Some(m.player)
    ensures r.Err? && l == InProgress ==> r.error == AlreadyOccupiedError(m.row, m.col)
  {
    match l
    case Over => Err(GameOverError)
    case InProgress => MakeMove(b, m)
  }

  /** The current player's attempt at (`row`, `col`). It succeeds exactly
      when the game is in progress and the cell is empty: the cell then holds
      the current player, no other cell changes, the move is reported and the
      turn passes to the other player. Otherwise the game is left exactly as
      it was and the error is reported. Either way exactly one notification
      is sent, and it is never the game-over one. */
  function Move(g: Game, row: int, col: int): (r: Step)
    requires Valid(g) && InBounds(row, col)
    ensures Valid(r.game) && r.game.lifecycle == g.lifecycle
    ensures r.event.MoveMade? || r.event.Error?
    ensures r.event.MoveMade? <==> g.lifecycle == InProgress && !IsOccupied(At(g.board, row, col))
    ensures r.event.MoveMade? ==>
              && r.event.move == Values.Move(CurrentPlayer(g), row, col)
              && IsOccupied(At(r.game.board, row, col))
              && At(r.game.board, row, col).player == Some(CurrentPlayer(g))
              && SameExcept(g.board, r.game.board, row, col)
              && CurrentPlayer(r.game) == Other(CurrentPlayer(g))
    ensures r.event.Error? ==> r.game == g
    ensures r.event.Error? && g.lifecycle == Over ==> r.event.error == GameOverError
    ensures r.event.Error? && g.lifecycle == InProgress ==> r.event.error == AlreadyOccupiedError(row, col)
    ensures Grows(g.board, r.game.board)
    ensures OccupiedCount(r.game.board) == OccupiedCount(g.board) + (if r.event.MoveMade? then 1 else 0)
  {
    var m := Values.Move(CurrentPlayer(g), row, col);
    match Dispatch(g.lifecycle, g.board, m)
    case Ok(b) => Step(g.(board := b, turn := NextTurn(g.turn)), MoveMade(m))
    case Err(e) => Step(g, Error(e))
  }

  /** Ends the game from any state, never failing: the lifecycle becomes
      `Over`, board and turn are untouched, and one game-over notification is sent. */
  function EndGame(g: Game): (r: Step)
    ensures r.game.lifecycle == Over && r.event == GameOver
    ensures r.game.board == g.board && r.game.turn == g.turn
  {
    Step(g.(lifecycle := Over), GameOver)
  }

  /** Ending an ended game changes nothing but sends the notification again. */
  lemma EndGameIdempotent(g: Game)
    ensures EndGame(EndGame(g).game) == Step(EndGame(g).game, GameOver)
  {
  }
}
