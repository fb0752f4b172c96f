# Tic-tac-toe core, modelled in Dafny

This project models the game core of the Bored-Games tic-tac-toe module
(`src/boredgames/tictactoe.py`). The core has three parts:

- the game lifecycle, a two-state machine (in progress, over) that `end_game` forces to over;
- the turn cycle over the players X and O;
- a fixed 3 x 3 board of cells, each with an empty/occupied state machine.

`TicTacToe.move` ties these together. It builds a `Move` for the current player and lets the lifecycle state
dispatch it to the board. On success it notifies the presenter with `move_made` and advances the turn. On a
game error it notifies the presenter with `error` and keeps the turn.

The model is functional. A `Game` is an immutable value: a board (rows of `Cell` values), a turn cursor (the
index of the current player in `Players = [X, O]`) and a `Lifecycle`. `Move` and `EndGame` return the next game
together with the one presenter notification the call sends (`MoveMade(move)`, `Error(error)` or `GameOver`).
A `Run` executes a sequence of host calls and collects the notification log. The multi-call properties are
stated over runs: strict alternation, Over being terminal, monotone occupancy, and single occupancy.

Modules and files:

- `wrappers.dfy`, module `Wrappers`: `Option` (Python's `None`) and `Result` (a value or a raised game error).
- `values.dfy`, module `Values`: `Player`, `Move`, and the `GameError` kinds `AlreadyOccupiedError(row, col)` and `GameOverError`.
- `cells.dfy`, module `Cells`: `Cell` and the occupancy state machine.
- `boards.dfy`, module `Boards`: `Board`, routing of a move to its cell, construction, and counting of taken cells.
- `tictactoe.dfy`, module `TicTacToe`: the lifecycle, the turn cycle, `Move` and `EndGame`.
- `runs.dfy`, module `Runs`: sequences of calls and the properties that hold across them.

Two behaviours of the code are worth stating:

- The turn advances only after a successful move: `_next_player` runs after `move_made`, inside the `try`,
  so a rejected move leaves the same player to move.
- There is no out-of-bounds error kind: `Board.at` is plain list indexing. The model requires in-bounds
  coordinates (see Left out).

## Model

| member | source | states |
|---|---|---|
| Cells.Occupy | src/boredgames/tictactoe.py:114-125 | An empty cell becomes occupied by the move's player, keeps its position, and is consistent. An occupied cell refuses with the already-occupied error for its own coordinates. The move succeeds exactly when the cell was empty. |
| Cells.OccupyOnce | src/boredgames/tictactoe.py:117-125 | A cell transitions from empty to occupied at most once: after one successful occupy, any second occupy is refused. |
| Boards.At | src/boredgames/tictactoe.py:176-177 | The cell returned for an in-bounds (row, col) is a cell of the board's row `row` whose recorded position is (row, col); on a well-formed board that is exactly the board's cell there. |
| Boards.MakeMove | src/boredgames/tictactoe.py:179-180 | The move succeeds exactly when the addressed cell is empty. On success only that cell changes, and it becomes occupied by the move's player. Taken cells stay as they were, and the count of taken cells rises by one. Otherwise the cell's already-occupied error is passed through. |
| Boards.Build | src/boredgames/tictactoe.py:160-166 | The nested construction loop yields a 3 x 3 board. Every cell is empty and at its own position, and the result equals the reference `InitialBoard`. |
| Boards.InitialBoardIsTheEmptyBoard | src/boredgames/tictactoe.py:130-135 | The initial board is well formed and all empty. Any well-formed board with no cell taken equals it. |
| Boards.OccupiedCountBound | src/boredgames/tictactoe.py:168-174 | A 3 x 3 board has at most nine taken cells, and an empty board has none. |
| TicTacToe.NextTurn | src/boredgames/tictactoe.py:92-93 | One step of the two-player cycle moves the cursor to the other player, wrapping after the last player. |
| TicTacToe.AdvanceParity | src/boredgames/tictactoe.py:59-60 | The cycle over (X, O) has period two: n steps from position t land on position (t + n) mod 2. |
| TicTacToe.NewGame | src/boredgames/tictactoe.py:54-61 | A new game has X to move and is in progress. Its board is 3 x 3, every cell is empty, and each cell is at its own position. |
| TicTacToe.Dispatch | src/boredgames/tictactoe.py:37-49 | The over state refuses every move with the game-over error and never touches the board. In progress, the move succeeds exactly when the addressed cell is empty; success only ever happens in progress, changes only that cell and records the move's player there; an in-progress refusal is the already-occupied error for that cell. |
| TicTacToe.Move | src/boredgames/tictactoe.py:79-86 | A move succeeds exactly when the game is in progress and the cell is empty. Success does four things: the cell gets the current player, no other cell changes, `MoveMade` with that move is emitted, and the turn passes to the other player. A refused move leaves the game unchanged and emits one `Error`: game-over if ended, already-occupied otherwise. The lifecycle is never changed by a move. |
| TicTacToe.EndGame | src/boredgames/tictactoe.py:88-90 | From any state, the game becomes over and emits one `GameOver`, never failing. Board and turn are unchanged. |
| TicTacToe.EndGameIdempotent | src/boredgames/tictactoe.py:88-90 | Ending an ended game leaves it as it was and only re-sends the notification. |
| Runs.Run | src/boredgames/tictactoe.py:79-90 | Executing host calls in order keeps the game well formed and logs exactly one notification per call. |
| Runs.OneNotificationPerCall | src/boredgames/tictactoe.py:79-90 | The i-th notification in a log matches the i-th call. A move call emits `MoveMade` or `Error`, never both. An end call emits `GameOver`. |
| Runs.TurnCountsMoves | src/boredgames/tictactoe.py:82-86 | After any run, the turn cycle has taken exactly one step per successful move. Refused moves and game ends do not count. |
| Runs.MovesAlternate | src/boredgames/tictactoe.py:80-84 | The successful moves of any run are made by the two players strictly in turn, starting with the player to move. |
| Runs.Alternation | src/boredgames/tictactoe.py:59-61 | From a new game, X is to move after an even number of successful moves and O after an odd number. The k-th successful move is X's exactly when k is even. |
| Runs.OverIsTerminal | src/boredgames/tictactoe.py:88-89 | A run ends in the over state exactly when it started over or contains an end call. Once over, the game stays over. |
| Runs.MovesAfterEndFail | src/boredgames/tictactoe.py:37-39 | Once the game is over, every move in a run is refused with the game-over error. The board and the turn never change again. |
| Runs.RunOnlyGrows | src/boredgames/tictactoe.py:121-125 | Across any run, a cell taken at the start is still taken, by the same player, at the end. |
| Runs.FreshMovesSucceed | src/boredgames/tictactoe.py:79-84 | In a game in progress, moves to distinct empty cells all succeed. Their notifications carry the two players strictly alternating, starting with the player to move. |
| Runs.CountTracksMoves | src/boredgames/tictactoe.py:117-119 | Across any run, the number of taken cells grows by exactly the number of successful moves. |
| Runs.AtMostNineMoves | src/boredgames/tictactoe.py:159-174 | From a new game, the taken cells are exactly as many as the successful moves, and at most nine moves ever succeed. |
| Runs.RetryAfterOccupiedScenario | src/boredgames/tictactoe.py:79-86 | Concrete game from a new start. X takes (0,0). A second play at (0,0) is refused with the already-occupied error and O keeps the turn. O then takes (1,1), and it is X's turn again. |
| Runs.PlayAfterEndScenario | src/boredgames/tictactoe.py:82-90 | Concrete game from a new start. After the game is ended, a play at (0,0) is refused with the game-over error, and the cell stays empty. |

## Left out

- Out-of-range coordinates. `Board.at` is plain Python list indexing. Indices -3 to -1 wrap to other cells; indices of -4 or below, and of 3 or more, raise `IndexError`, which is not a `GameError` and so escapes `move`. `TicTacToe.Move` and `Boards.MakeMove` therefore require `0 <= row < 3` and `0 <= col < 3`, and there is no out-of-bounds error kind.
- Win and draw detection, and the presenter's `winner` notification. The core never computes or sends them.
- `Cell.marker`. It is a stub that always returns `'X'`; the model uses the recorded player instead.
- The presenter itself. Its default methods raise `NotImplementedError`, and a failing presenter is not modelled: the presenter is an infallible sink, and each notification is the event a step returns.
- The text of error messages and of the `state()` strings. Errors are the tags `AlreadyOccupiedError(row, col)` and `GameOverError`, and the lifecycle is the `Lifecycle` value.
- The public `current_player` setter. Only `_next_player` uses it, and that use is the turn step the model has; a host assigning `current_player` directly would step outside the turn cycle and is not modelled.
- Direct use of the public `board` property. A host calling `game.board.make_move(...)` skips both the lifecycle check and the turn change; the run lemmas assume every move goes through the game's `move`.
- The `Cell.board` back-reference. No logic reads it.
- The test module. Its fixture calls the module object, its acceptance test asserts nothing, and its unit-test class is empty.
