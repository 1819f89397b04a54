/** `KeepRegistered` of lobby.go: the loop a game host runs to keep its
    registration alive, with the host, the lobby and the update channel
    replaced by the outcomes they deliver, one `Round` per loop iteration. */
module KeepAlive {
  import opened Common
  import opened Games

  /** What `GameHost.GameInfo` answered. */
  datatype InfoResult = InfoOk(game: Game) | InfoErr(err: Err)

  /** One loop iteration: the host's answer, the registration's error (only
      consulted after a good answer) and whether the `select` picked the
      context's cancellation rather than the next tick. */
  datatype Round = Round(info: InfoResult, registerErr: Option<Err>, done: bool)

  /** The loop returned `err` in round `rounds` (counting from 1), or is
      still waiting for its next tick with `failures` consecutive failed
      registrations behind it. */
  datatype KeepResult = Stopped(err: Option<Err>, rounds: nat) | Running(failures: nat)

  /** The number of registrations the lobby may refuse in a row before the
      loop gives up. */
  const MaxFailures: nat := 3

  predicate Failed(r: Round)
  {
    r.info.InfoOk? && r.registerErr.Some?
  }

  /** The loop, entered with `failure` consecutive refusals already counted. */
  function Run(failure: nat, rounds: seq<Round>): (r: KeepResult)
    requires failure <= MaxFailures
    ensures r.Stopped? ==> 0 < r.rounds <= |rounds|
    ensures r.Running? ==> r.failures <= MaxFailures
    decreases |rounds|
  {
    if |rounds| == 0 then Running(failure)
    else
      var round := rounds[0];
      match round.info
      case InfoErr(e) => Stopped(Some(e), 1)
      case InfoOk(_) =>
        var f := if round.registerErr.Some? then failure + 1 else 0;
        if f > MaxFailures then Stopped(round.registerErr, 1)
        else if round.done then Stopped(None, 1)
        else
          match Run(f, rounds[1..])
          case Stopped(e, n) => Stopped(e, n + 1)
          case Running(f') => Running(f')
  }

  /** `KeepRegistered`: the loop from its start. */
  function KeepRegistered(rounds: seq<Round>): (r: KeepResult)
    ensures r.Stopped? ==> 0 < r.rounds <= |rounds|
  {
    Run(0, rounds)
  }

  /** The number of refused registrations at the end of `rounds`. */
  function TrailingFailures(rounds: seq<Round>): (n: nat)
    ensures n <= |rounds|
  {
    if |rounds| == 0 || !Failed(rounds[|rounds| - 1]) then 0
    else TrailingFailures(rounds[..|rounds| - 1]) + 1
  }

  lemma {:induction false} TrailingFailuresAppend(rounds: seq<Round>, x: Round)
    ensures TrailingFailures(rounds + [x]) == if Failed(x) then TrailingFailures(rounds) + 1 else 0
  {
  }

  /** While the loop runs, its counter is the number of consecutive refusals
      so far: a success resets it, a refusal adds one. */
  lemma {:induction false} RunningCountsTrailingFailures(failure: nat, rounds: seq<Round>)
    requires failure <= MaxFailures
    requires Run(failure, rounds).Running?
    ensures Run(failure, rounds).failures
         == if TrailingFailures(rounds) == |rounds| then failure + |rounds| else TrailingFailures(rounds)
    ensures forall i :: 0 <= i < |rounds| ==> rounds[i].info.InfoOk? && !rounds[i].done
    decreases |rounds|
  {
    if |rounds| > 0 {
      var round := rounds[0];
      var f := if round.registerErr.Some? then failure + 1 else 0;
      var tail := rounds[1..];
      RunningCountsTrailingFailures(f, tail);
      TrailingFailuresPrepend(round, tail);
      assert rounds == [round] + tail;
    }
  }

  /** Prepending a round changes the trailing count only when every round
      of the tail failed. */
  lemma {:induction false} TrailingFailuresPrepend(x: Round, rounds: seq<Round>)
    ensures TrailingFailures([x] + rounds)
         == if TrailingFailures(rounds) == |rounds| then (if Failed(x) then |rounds| + 1 else |rounds|)
            else TrailingFailures(rounds)
    decreases |rounds|
  {
    if |rounds| > 0 {
      var init := rounds[..|rounds| - 1];
      var last := rounds[|rounds| - 1];
      assert rounds == init + [last];
      assert [x] + rounds == ([x] + init) + [last];
      TrailingFailuresAppend(init, last);
      TrailingFailuresAppend([x] + init, last);
      TrailingFailuresPrepend(x, init);
    }
  }

  /** The loop gives up because of the lobby only on the fourth refusal in a
      row: the three rounds before the last one were refused as well. */
  lemma {:induction false} GivesUpOnFourthFailure(rounds: seq<Round>)
    requires KeepRegistered(rounds).Stopped? && KeepRegistered(rounds).err.Some?
    requires rounds[KeepRegistered(rounds).rounds - 1].info.InfoOk?
    ensures var n := KeepRegistered(rounds).rounds;
      && n >= MaxFailures + 1
      && KeepRegistered(rounds).err == rounds[n - 1].registerErr
      && forall i :: n - (MaxFailures + 1) <= i < n ==> Failed(rounds[i])
  {
    StopCounts(0, rounds);
  }

  /** The general form of `GivesUpOnFourthFailure`, for a loop entered with
      `failure` refusals already counted. */
  lemma {:induction false} StopCounts(failure: nat, rounds: seq<Round>)
    requires failure <= MaxFailures
    requires Run(failure, rounds).Stopped? && Run(failure, rounds).err.Some?
    requires rounds[Run(failure, rounds).rounds - 1].info.InfoOk?
    ensures var n := Run(failure, rounds).rounds;
      && n + failure >= MaxFailures + 1
      && Run(failure, rounds).err == rounds[n - 1].registerErr
      && rounds[n - 1].registerErr.Some?
      && forall i :: 0 <= i < n && n - (MaxFailures + 1) <= i ==> Failed(rounds[i])
    decreases |rounds|
  {
    var round := rounds[0];
    var f := if round.registerErr.Some? then failure + 1 else 0;
    if f <= MaxFailures && !round.done {
      var tail := rounds[1..];
      StopCounts(f, tail);
      var m := Run(f, tail).rounds;
      assert forall i :: 0 <= i < m ==> tail[i] == rounds[i + 1];
      if round.registerErr.None? {
        assert m >= MaxFailures + 1;
      }
    }
  }

  /** Conversely, the loop does give up on the fourth refusal in a row:
      entered with `failure` refusals counted, the next `MaxFailures + 1 -
      failure` refused rounds (none cancelled before the last) end it with the
      last refusal's error. */
  lemma {:induction false} FourthFailureStops(failure: nat, rounds: seq<Round>)
    requires failure <= MaxFailures && |rounds| > MaxFailures - failure
    requires forall i :: 0 <= i <= MaxFailures - failure ==> Failed(rounds[i])
    requires forall i :: 0 <= i < MaxFailures - failure ==> !rounds[i].done
    ensures Run(failure, rounds) == Stopped(rounds[MaxFailures - failure].registerErr, MaxFailures + 1 - failure)
    decreases MaxFailures - failure
  {
    assert Failed(rounds[0]);
    if failure < MaxFailures {
      var tail := rounds[1..];
      assert forall i :: 0 <= i < |tail| ==> tail[i] == rounds[i + 1];
      FourthFailureStops(failure + 1, tail);
    }
  }

  /** A failed host answer ends the loop at once with that error. */
  lemma InfoErrorStops(failure: nat, e: Err, rest: seq<Round>, reg: Option<Err>, done: bool)
    requires failure <= MaxFailures
    ensures Run(failure, [Round(InfoErr(e), reg, done)] + rest) == Stopped(Some(e), 1)
  {
  }

  /** A successful registration resets the counter: what follows behaves
      as a fresh loop. */
  lemma SuccessResets(failure: nat, g: Game, rest: seq<Round>)
    requires failure <= MaxFailures
    ensures Run(failure, [Round(InfoOk(g), None, false)] + rest)
         == match Run(0, rest)
            case Stopped(e, n) => Stopped(e, n + 1)
            case Running(f) => Running(f)
  {
  }

  /** Cancellation, seen after a tolerated round (an accepted registration,
      or a refusal that leaves the counter at most three), ends the loop with
      no error. */
  lemma CancelStopsQuietly(failure: nat, g: Game, reg: Option<Err>, rest: seq<Round>)
    requires failure <= MaxFailures
    requires failure < MaxFailures || reg.None?
    ensures Run(failure, [Round(InfoOk(g), reg, true)] + rest) == Stopped(None, 1)
  {
  }

  /** Why the loop stopped, in whatever round: every earlier round had a
      good host answer and was not cancelled; a failed host answer in the
      last round is the error returned; and a nil result means the last
      round's host answer was good and cancellation won the `select`. */
  lemma {:induction false} StopReasons(failure: nat, rounds: seq<Round>)
    requires failure <= MaxFailures
    requires Run(failure, rounds).Stopped?
    ensures var r := Run(failure, rounds);
      && (forall i :: 0 <= i < r.rounds - 1 ==> rounds[i].info.InfoOk? && !rounds[i].done)
      && (rounds[r.rounds - 1].info.InfoErr? ==> r.err == Some(rounds[r.rounds - 1].info.err))
      && (r.err.None? ==> rounds[r.rounds - 1].info.InfoOk? && rounds[r.rounds - 1].done)
    decreases |rounds|
  {
    var round := rounds[0];
    if round.info.InfoOk? {
      var f := if round.registerErr.Some? then failure + 1 else 0;
      if f <= MaxFailures && !round.done {
        var tail := rounds[1..];
        StopReasons(f, tail);
        assert forall i :: 0 <= i < |tail| ==> tail[i] == rounds[i + 1];
      }
    }
  }
}
