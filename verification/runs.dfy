/** Sequences of calls on one game, the notification log they produce, and
    the properties that hold across any number of calls. */
module Runs {
  import opened Wrappers
  import opened Values
  import opened Cells
  import opened Boards
  import opened TicTacToe

  /** One call a host makes on the game. */
  datatype Command = Play(row: int, col: int) | End

  /** A game after a run of calls, with the notifications in the order sent. */
  datatype Trace = Trace(game: Game, events: seq<Event>)

  predicate AllInBounds(cmds: seq<Command>)
  {
    forall i :: 0 <= i < |cmds| && cmds[i].Play? ==> InBounds(cmds[i].row, cmds[i].col)
  }

  /** Carries out one call. */
  function Exec(g: Game, c: Command): (r: Step)
    requires Valid(g) && (c.Play? ==> InBounds(c.row, c.col))
    ensures Valid(r.game)
    ensures c.End? <==> r.event.GameOver?
  {
    match c
    case Play(row, col) => TicTacToe.Move(g, row, col)
    case End => EndGame(g)
  }

  /** Carries out the calls in order, keeping the game valid and logging
      one notification per call. */
  function Run(g: Game, cmds: seq<Command>): (t: Trace)
    requires Valid(g) && AllInBounds(cmds)
    ensures Valid(t.game)
    ensures |t.events| == |cmds|
    decreases |cmds|
  {
    if |cmds| == 0 then Trace(g, [])
    else
      var s := Exec(g, cmds[0]);
      var rest := Run(s.game, cmds[1..]);
      Trace(rest.game, [s.event] + rest.events)
  }

  /** The successful moves reported in a log, in order. */
  function Made(es: seq<Event>): seq<Values.Move>
  {
    if |es| == 0 then []
    else if es[0].MoveMade? then [es[0].move] + Made(es[1..])
    else Made(es[1..])
  }

  lemma MadeCons(e: Event, es: seq<Event>)
    ensures Made([e] + es) == (if e.MoveMade? then [e.move] else []) + Made(es)
  {
    assert ([e] + es)[1..] == es;
  }

  /** The calls after the first stay within the board. */
  lemma InBoundsTail(cmds: seq<Command>)
    requires |cmds| > 0 && AllInBounds(cmds)
    ensures AllInBounds(cmds[1..])
  {
    forall i | 0 <= i < |cmds[1..]| && cmds[1..][i].Play?
      ensures InBounds(cmds[1..][i].row, cmds[1..][i].col)
    {
      assert cmds[1..][i] == cmds[i + 1];
    }
  }

  /** One call moves the turn exactly when it reports a successful move, and
      that move is the current player's. */
  lemma ExecTurn(g: Game, c: Command)
    requires Valid(g) && (c.Play? ==> InBounds(c.row, c.col))
    ensures var s := Exec(g, c);
      && (s.event.MoveMade? ==> s.game.turn == NextTurn(g.turn) && s.event.move.player == CurrentPlayer(g))
      && (!s.event.MoveMade? ==> s.game.turn == g.turn)
  {
  }

  /** Unfolds a non-empty run into its first call and the rest. */
  lemma RunCons(g: Game, cmds: seq<Command>)
    requires Valid(g) && AllInBounds(cmds) && |cmds| > 0
    ensures AllInBounds(cmds[1..])
    ensures var s := Exec(g, cmds[0]);
      var rest := Run(s.game, cmds[1..]);
      Run(g, cmds) == Trace(rest.game, [s.event] + rest.events)
  {
    InBoundsTail(cmds);
  }

  /** One notification per call: the i-th call's notification is a move
      report or an error exactly when it is a play, and the game-over
      notification exactly when it ends the game. */
  lemma {:induction false} OneNotificationPerCall(g: Game, cmds: seq<Command>)
    requires Valid(g) && AllInBounds(cmds)
    ensures var t := Run(g, cmds);
      && |t.events| == |cmds|
      && forall i :: 0 <= i < |cmds| ==>
           && (cmds[i].End? <==> t.events[i].GameOver?)
           && (cmds[i].Play? <==> t.events[i].MoveMade? || t.events[i].Error?)
    decreases |cmds|
  {
    if |cmds| > 0 {
      RunCons(g, cmds);
      var s := Exec(g, cmds[0]);
      var es := Run(g, cmds).events;
      var rest := Run(s.game, cmds[1..]).events;
      OneNotificationPerCall(s.game, cmds[1..]);
      forall i | 0 <= i < |cmds|
        ensures && (cmds[i].End? <==> es[i].GameOver?)
                && (cmds[i].Play? <==> es[i].MoveMade? || es[i].Error?)
      {
        if i > 0 {
          assert es[i] == rest[i - 1] && cmds[i] == cmds[1..][i - 1];
        }
      }
    }
  }

  /** The turn advances once per successful move and for nothing else:
      refused moves and game ends leave it where it was. */
  lemma {:induction false} TurnCountsMoves(g: Game, cmds: seq<Command>)
    requires Valid(g) && AllInBounds(cmds)
    ensures Run(g, cmds).game.turn == Advance(g.turn, |Made(Run(g, cmds).events)|)
    decreases |cmds|
  {
    if |cmds| > 0 {
      RunCons(g, cmds);
      var s := Exec(g, cmds[0]);
      var rest := Run(s.game, cmds[1..]);
      TurnCountsMoves(s.game, cmds[1..]);
      MadeCons(s.event, rest.events);
      ExecTurn(g, cmds[0]);
    }
  }

  /** The moves are by the two players in turn, the first by `Players[t]`. */
  predicate AlternatesFrom(ms: seq<Values.Move>, t: nat)
    requires t < |Players|
  {
    forall k :: 0 <= k < |ms| ==> ms[k].player == Players[Advance(t, k)]
  }

  /** A move by `Players[t]` followed by moves alternating from the next player alternates from `t`. */
  lemma AlternatesCons(m: Values.Move, ms: seq<Values.Move>, t: nat)
    requires t < |Players| && m.player == Players[t] && AlternatesFrom(ms, NextTurn(t))
    ensures AlternatesFrom([m] + ms, t)
  {
    forall k | 0 <= k < |[m] + ms|
      ensures ([m] + ms)[k].player == Players[Advance(t, k)]
    {
      if k > 0 {
        assert ([m] + ms)[k] == ms[k - 1];
      }
    }
  }

  /** Strict alternation: the successful moves are made by the two players in
      turn, starting with the player to move. */
  lemma {:induction false} MovesAlternate(g: Game, cmds: seq<Command>)
    requires Valid(g) && AllInBounds(cmds)
    ensures AlternatesFrom(Made(Run(g, cmds).events), g.turn)
    decreases |cmds|
  {
    if |cmds| > 0 {
      RunCons(g, cmds);
      var s := Exec(g, cmds[0]);
      var rest := Run(s.game, cmds[1..]);
      MovesAlternate(s.game, cmds[1..]);
      MadeCons(s.event, rest.events);
      ExecTurn(g, cmds[0]);
      if s.event.MoveMade? {
        AlternatesCons(s.event.move, Made(rest.events), g.turn);
      }
    }
  }

  /** From a new game: X is to move after an even number of successful moves
      and O after an odd number, and the k-th successful move is X's exactly
      when k is even. */
  lemma Alternation(cmds: seq<Command>)
    requires AllInBounds(cmds)
    ensures var t := Run(NewGame(), cmds);
      && CurrentPlayer(t.game) == (if |Made(t.events)| % 2 == 0 then PlayerX else PlayerO)
      && forall k :: 0 <= k < |Made(t.events)| ==>
           Made(t.events)[k].player == (if k % 2 == 0 then PlayerX else PlayerO)
  {
    var ms := Made(Run(NewGame(), cmds).events);
    TurnCountsMoves(NewGame(), cmds);
    MovesAlternate(NewGame(), cmds);
    AdvanceParity(0, |ms|);
    forall k | 0 <= k < |ms|
      ensures ms[k].player == (if k % 2 == 0 then PlayerX else PlayerO)
    {
      AdvanceParity(0, k);
    }
  }

  /** Over is terminal: a run ends with the game over exactly when it
      started over or ended the game at some point. */
  lemma {:induction false} OverIsTerminal(g: Game, cmds: seq<Command>)
    requires Valid(g) && AllInBounds(cmds)
    ensures Run(g, cmds).game.lifecycle == Over <==> g.lifecycle == Over || End in cmds
    decreases |cmds|
  {
    if |cmds| > 0 {
      RunCons(g, cmds);
      var s := Exec(g, cmds[0]);
      OverIsTerminal(s.game, cmds[1..]);
      assert s.game.lifecycle == Over <==> g.lifecycle == Over || cmds[0] == End;
      assert End in cmds <==> cmds[0] == End || End in cmds[1..] by {
        assert cmds == [cmds[0]] + cmds[1..];
      }
    }
  }

  /** Once the game is over, every move is refused with the game-over error,
      and the board and the turn never change again. */
  lemma {:induction false} MovesAfterEndFail(g: Game, cmds: seq<Command>)
    requires Valid(g) && AllInBounds(cmds) && g.lifecycle == Over
    ensures var t := Run(g, cmds);
      && t.game == g
      && forall i :: 0 <= i < |cmds| && cmds[i].Play? ==> t.events[i] == Error(GameOverError)
    decreases |cmds|
  {
    if |cmds| > 0 {
      RunCons(g, cmds);
      var s := Exec(g, cmds[0]);
      assert s.game == g;
      MovesAfterEndFail(s.game, cmds[1..]);
      var t := Run(g, cmds);
      forall i | 0 <= i < |cmds| && cmds[i].Play?
        ensures t.events[i] == Error(GameOverError)
      {
        if i > 0 {
          assert t.events[i] == Run(s.game, cmds[1..]).events[i - 1];
          assert cmds[i] == cmds[1..][i - 1];
        }
      }
    }
  }

  /** Occupancy is monotone over any run: a cell taken at the start is still
      taken, by the same player, at the end. */
  lemma {:induction false} RunOnlyGrows(g: Game, cmds: seq<Command>)
    requires Valid(g) && AllInBounds(cmds)
    ensures Grows(g.board, Run(g, cmds).game.board)
    decreases |cmds|
  {
    if |cmds| == 0 {
      GrowsPreorder(g.board, g.board, g.board);
    } else {
      RunCons(g, cmds);
      var s := Exec(g, cmds[0]);
      RunOnlyGrows(s.game, cmds[1..]);
      GrowsPreorder(g.board, s.game.board, Run(s.game, cmds[1..]).game.board);
    }
  }

  /** The cells the plays address are pairwise different. */
  predicate DistinctTargets(cmds: seq<Command>)
  {
    forall i, j :: 0 <= i < j < |cmds| && cmds[i].Play? && cmds[j].Play? ==>
      cmds[i].row != cmds[j].row || cmds[i].col != cmds[j].col
  }

  /** The precondition of `FreshMovesSucceed`: every call is a play at an
      empty cell, no two at the same cell. */
  predicate FreshPlays(g: Game, cmds: seq<Command>)
    requires Valid(g) && AllInBounds(cmds)
  {
    && (forall i :: 0 <= i < |cmds| ==> cmds[i].Play?)
    && DistinctTargets(cmds)
    && (forall i :: 0 <= i < |cmds| ==> !IsOccupied(At(g.board, cmds[i].row, cmds[i].col)))
  }

  /** The first of a batch of fresh plays succeeds, and the rest are still
      fresh on the game it leaves. */
  lemma FreshFirst(g: Game, cmds: seq<Command>)
    requires Valid(g) && g.lifecycle == InProgress && AllInBounds(cmds) && |cmds| > 0
    requires FreshPlays(g, cmds)
    ensures AllInBounds(cmds[1..])
    ensures var s := Exec(g, cmds[0]);
      && s.event == MoveMade(Values.Move(Players[g.turn], cmds[0].row, cmds[0].col))
      && s.game.turn == NextTurn(g.turn) && s.game.lifecycle == InProgress
      && FreshPlays(s.game, cmds[1..])
  {
    InBoundsTail(cmds);
    var s := Exec(g, cmds[0]);
    var tail := cmds[1..];
    forall i | 0 <= i < |tail|
      ensures !IsOccupied(At(s.game.board, tail[i].row, tail[i].col))
    {
      assert tail[i] == cmds[i + 1];
    }
    forall i, j | 0 <= i < j < |tail|
      ensures tail[i].row != tail[j].row || tail[i].col != tail[j].col
    {
      assert tail[i] == cmds[i + 1] && tail[j] == cmds[j + 1];
    }
  }

  /** Each play of `cmds` is reported as a successful move, the i-th by `Players[Advance(t, i)]`. */
  predicate AllMadeFrom(es: seq<Event>, cmds: seq<Command>, t: nat)
    requires |es| == |cmds| && t < |Players|
  {
    forall i :: 0 <= i < |cmds| && cmds[i].Play? ==>
      es[i] == MoveMade(Values.Move(Players[Advance(t, i)], cmds[i].row, cmds[i].col))
  }

  lemma AllMadeCons(e: Event, es: seq<Event>, cmds: seq<Command>, t: nat)
    requires |cmds| > 0 && |es| + 1 == |cmds| && t < |Players| && cmds[0].Play?
    requires e == MoveMade(Values.Move(Players[t], cmds[0].row, cmds[0].col))
    requires AllMadeFrom(es, cmds[1..], NextTurn(t))
    ensures AllMadeFrom([e] + es, cmds, t)
  {
    forall i | 0 <= i < |cmds| && cmds[i].Play?
      ensures ([e] + es)[i] == MoveMade(Values.Move(Players[Advance(t, i)], cmds[i].row, cmds[i].col))
    {
      if i > 0 {
        assert ([e] + es)[i] == es[i - 1] && cmds[i] == cmds[1..][i - 1];
      }
    }
  }

  /** In a game in progress, plays that address distinct empty cells all
      succeed, made by the two players in turn starting with the player to move. */
  lemma {:induction false} FreshMovesSucceed(g: Game, cmds: seq<Command>)
    requires Valid(g) && g.lifecycle == InProgress && AllInBounds(cmds)
    requires FreshPlays(g, cmds)
    ensures AllMadeFrom(Run(g, cmds).events, cmds, g.turn)
    decreases |cmds|
  {
    if |cmds| > 0 {
      RunCons(g, cmds);
      FreshFirst(g, cmds);
      var s := Exec(g, cmds[0]);
      FreshMovesSucceed(s.game, cmds[1..]);
      AllMadeCons(s.event, Run(s.game, cmds[1..]).events, cmds, g.turn);
    }
  }

  /** Single occupancy over a run: every successful move takes one more cell,
      and nothing else does. */
  lemma {:induction false} CountTracksMoves(g: Game, cmds: seq<Command>)
    requires Valid(g) && AllInBounds(cmds)
    ensures OccupiedCount(Run(g, cmds).game.board) == OccupiedCount(g.board) + |Made(Run(g, cmds).events)|
    decreases |cmds|
  {
    if |cmds| > 0 {
      RunCons(g, cmds);
      var s := Exec(g, cmds[0]);
      CountTracksMoves(s.game, cmds[1..]);
      MadeCons(s.event, Run(s.game, cmds[1..]).events);
    }
  }

  /** However the host plays a game, at most nine moves ever succeed, and the
      taken cells are exactly as many as the successful moves. */
  lemma AtMostNineMoves(cmds: seq<Command>)
    requires AllInBounds(cmds)
    ensures OccupiedCount(Run(NewGame(), cmds).game.board) == |Made(Run(NewGame(), cmds).events)|
    ensures |Made(Run(NewGame(), cmds).events)| <= Rows * Cols
  {
    CountTracksMoves(NewGame(), cmds);
    OccupiedCountBound(NewGame().board);
    OccupiedCountBound(Run(NewGame(), cmds).game.board);
  }

  /** A concrete game: X takes (0,0); a second play at (0,0) is refused and O
      keeps the turn; O then takes (1,1) and it is X's turn again. */
  lemma RetryAfterOccupiedScenario()
    ensures var t := Run(NewGame(), [Play(0, 0), Play(0, 0), Play(1, 1)]);
      && t.events == [MoveMade(Values.Move(PlayerX, 0, 0)),
                      Error(AlreadyOccupiedError(0, 0)),
                      MoveMade(Values.Move(PlayerO, 1, 1))]
      && CurrentPlayer(t.game) == PlayerX
      && At(t.game.board, 0, 0).player == Some(PlayerX)
      && At(t.game.board, 1, 1).player == Some(PlayerO)
  {
  }

  /** Ending the game first: a later play at (0,0) is refused with the
      game-over error and the cell stays empty. */
  lemma PlayAfterEndScenario()
    ensures var t := Run(NewGame(), [End, Play(0, 0)]);
      && t.events == [GameOver, Error(GameOverError)]
      && !IsOccupied(At(t.game.board, 0, 0))
  {
  }
}
