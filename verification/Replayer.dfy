/** Replaying a recorded trace: the session lifecycle against an executor whose creates
    fail only on duplicate names and whose closes and runs fail only on missing ones. */
module Replayer {
  import opened Text
  import opened Trace
  import V = Validator

  /** The number that follows `exit code ` in the error of a run in a missing session, if
      there is one; the error names the session. */
  type ErrorCodes = Json -> Option<nat>

  class Executor {
    var sessions: set<Json>
    const errorCodes: ErrorCodes

    constructor (errorCodes: ErrorCodes)
      ensures sessions == {} && this.errorCodes == errorCodes
    {
      sessions := {};
      this.errorCodes := errorCodes;
    }

    method CreateSession(name: Json) returns (ok: bool)
      modifies this
      ensures ok <==> name !in old(sessions)
      ensures sessions == old(sessions) + {name}
    {
      ok := name !in sessions;
      sessions := sessions + {name};
    }

    method CloseSession(name: Json) returns (ok: bool)
      modifies this
      ensures ok <==> name in old(sessions)
      ensures sessions == old(sessions) - {name}
    {
      ok := name in sessions;
      sessions := sessions - {name};
    }

    /** A run, or an interrupt; `code` is the number in its error. */
    method RunIn(name: Json) returns (ok: bool, code: Option<nat>)
      ensures ok <==> name in sessions
      ensures code == if ok then None else errorCodes(name)
    {
      ok := name in sessions;
      code := if ok then None else errorCodes(name);
    }
  }

  /** The events whose session call failed, by position. */
  function Lapses(evs: Events): (r: seq<nat>)
  {
    if evs == [] then []
    else
      var n := |evs| - 1;
      Lapses(evs[..n]) + if Fits(OpenAfter(evs[..n]), evs[n]) then [] else [n]
  }

  /** Failures that are not recorded: every interrupt's, and those of commands whose error
      happens to carry the recorded exit code. */
  predicate Swallowed(o: Fields, errorCodes: ErrorCodes)
    requires Complete(o)
  {
    || TypeOf(o) == Interrupt
    || (TypeOf(o) == Command
        && var code := errorCodes(Key(o["session"]));
           code.Some? && Key(o["exit_code"]) == Num(code.value as real))
  }

  /** Lapses the recorder shows as failed operations. */
  function Failures(evs: Events, errorCodes: ErrorCodes): (r: seq<nat>) {
    if evs == [] then []
    else
      var n := |evs| - 1;
      Failures(evs[..n], errorCodes)
      + if Fits(OpenAfter(evs[..n]), evs[n]) || Swallowed(evs[n], errorCodes) then [] else [n]
  }

  lemma NoEvents()
    ensures Lapses([]) == [] && OpenAfter([]) == {} && forall f: ErrorCodes :: Failures([], f) == []
  {}

  lemma Upto(evs: Events, i: nat, f: ErrorCodes)
    requires i < |evs|
    ensures var fits, was := Fits(OpenAfter(evs[..i]), evs[i]), Failures(evs[..i], f);
            && Lapses(evs[..i + 1]) == (if fits then Lapses(evs[..i]) else Lapses(evs[..i]) + [i])
            && Failures(evs[..i + 1], f) == (if fits || Swallowed(evs[i], f) then was else was + [i])
            && OpenAfter(evs[..i + 1]) == Touch(OpenAfter(evs[..i]), evs[i])
  {
    hide Fits, Touch, Complete, TypeOf, Swallowed;
    assert evs[..i + 1][..i] == evs[..i];
  }

  class Replay {
    const ex: Executor
    var failed: seq<nat>     // the failed operations of the recorder
    var missed: seq<nat>     // failures that are not recorded as such

    constructor (ex: Executor)
      ensures this.ex == ex && failed == [] && missed == []
    {
      this.ex, failed, missed := ex, [], [];
    }

    /** The session call of one event: whether it succeeded, and whether it is recorded as
        a success. */
    method OnEvent(o: Fields) returns (ok: bool, recordedOk: bool)
      requires Complete(o)
      modifies ex
      ensures ok <==> Fits(old(ex.sessions), o)
      ensures recordedOk <==> ok || Swallowed(o, ex.errorCodes)
      ensures ex.sessions == Touch(old(ex.sessions), o)
    {
      ok := true;
      var code: Option<nat> := None;
      match TypeOf(o)
      case TraceHeader => recordedOk := true;
      case SessionStart =>
        ok := ex.CreateSession(Key(o["session"]));
        recordedOk := ok;
      case SessionEnd =>
        ok := ex.CloseSession(Key(o["session"]));
        recordedOk := ok;
      case Command =>
        ok, code := ex.RunIn(Key(o["session"]));
        recordedOk := ok || (code.Some? && Key(o["exit_code"]) == Num(code.value as real));
      case Interrupt =>
        ok, code := ex.RunIn(Key(o["session"]));
        recordedOk := true;
      case FileOp => recordedOk := true;
    }

    method Run(evs: Events)
      requires ex.sessions == {} && failed == [] && missed == []
      modifies this, ex
      ensures ex.sessions == OpenAfter(evs)
      ensures failed == Failures(evs, ex.errorCodes)
      ensures forall i :: i in failed || i in missed <==> i in Lapses(evs)
    {
      hide Lapses, Failures, OpenAfter, Fits, Touch, Complete, Swallowed;
      NoEvents();
      for i := 0 to |evs|
        invariant ex.sessions == OpenAfter(evs[..i])
        invariant failed == Failures(evs[..i], ex.errorCodes)
        invariant forall j :: j in failed || j in missed <==> j in Lapses(evs[..i])
      {
        Upto(evs, i, ex.errorCodes);
        var ok, recordedOk := OnEvent(evs[i]);
        if !recordedOk {
          failed := failed + [i];
        } else if !ok {
          missed := missed + [i];
        }
      }
      assert evs[..|evs|] == evs;
    }
  }

  lemma {:induction false} LapsesAre(evs: Events, i: nat, errorCodes: ErrorCodes)
    ensures i in Lapses(evs) <==> i < |evs| && !Fits(OpenAfter(evs[..i]), evs[i])
    ensures i in Failures(evs, errorCodes) <==> i in Lapses(evs) && !Swallowed(evs[i], errorCodes)
    decreases |evs|
  {
    hide Fits, OpenAfter, Swallowed, Lapses, Failures, Complete, Touch;
    NoEvents();
    if evs != [] {
      var n := |evs| - 1;
      var was: Events := evs[..n];
      LapsesAre(was, i, errorCodes);
      Upto(evs, n, errorCodes);
      assert evs[..n + 1] == evs;
      if i < n { assert was[..i] == evs[..i] && was[i] == evs[i]; }
    }
  }

  /** Replay is clean, down to the swallowed interrupts, and leaves no session behind,
      exactly when every session's events are paired. */
  lemma CleanReplay(evs: Events)
    ensures Lapses(evs) == [] && OpenAfter(evs) == {} <==> V.AllPaired(evs)
  {
    hide OpenAfter, Fits, Paired, Project, Lapses;
    V.PairedExactly(evs);
    forall i: nat ensures i in Lapses(evs) <==> i < |evs| && !Fits(OpenAfter(evs[..i]), evs[i]) {
      LapsesAre(evs, i, _ => None);
    }
    if Lapses(evs) != [] { assert Lapses(evs)[0] in Lapses(evs); }
  }

  /** What the validator accepts replays safely on an empty registry: no create of an
      existing session, no run, interrupt or close of a missing one, nothing left open. */
  lemma AcceptedReplaysSafely(lines: seq<Line>, errorCodes: ErrorCodes)
    requires V.Accepted(lines)
    ensures var evs := V.EventsOf(lines);
            Lapses(evs) == [] && Failures(evs, errorCodes) == [] && OpenAfter(evs) == {}
  {
    hide Lapses, Failures, V.Accepted, V.AllPaired, V.EventsOf, OpenAfter;
    V.AcceptsExactly(lines);
    var evs := V.EventsOf(lines);
    CleanReplay(evs);
    if Failures(evs, errorCodes) != [] {
      LapsesAre(evs, Failures(evs, errorCodes)[0], errorCodes);
      assert false;
    }
  }
}
