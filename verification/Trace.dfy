/** Recorded workload traces: the structural validator that a replay depends on, and the
    replayer's session lifecycle. */
module Trace {
  import opened Text

  /** A decoded JSON value; arrays and objects, which cannot be set members, are `Compound`. */
  datatype Json = Null | Bool(b: bool) | Num(value: real) | Str(text: string) | Compound

  type Fields = map<string, Json>

  /** A line of a trace file, stripped. */
  datatype Line = Blank | BadJson | NotObject | Object(fields: Fields)

  datatype Kind = TraceHeader | SessionStart | SessionEnd | Command | Interrupt | FileOp

  function KindNamed(name: string): Option<Kind> {
    match name
    case "trace_header" => Some(TraceHeader)
    case "session_start" => Some(SessionStart)
    case "session_end" => Some(SessionEnd)
    case "command" => Some(Command)
    case "interrupt" => Some(Interrupt)
    case "file_op" => Some(FileOp)
    case _ => None
  }

  function KindOf(o: Fields): Option<Kind> {
    if "type" in o && o["type"].Str? then KindNamed(o["type"].text) else None
  }

  /** The fields every event of a kind must carry. */
  function Required(kind: Kind): set<string> {
    {"seq", "t_ms"} +
    match kind
    case TraceHeader => {"trace_version", "source"}
    case SessionStart => {"session"}
    case SessionEnd => {"session"}
    case Command => {"session", "command", "duration_ms", "exit_code", "stdout_bytes", "stderr_bytes"}
    case Interrupt => {"session"}
    case FileOp => {"op", "path", "size_bytes", "duration_ms"}
  }

  const FILE_OPS: set<Json> := {Str("read"), Str("write"), Str("upload")}

  /** An event of a known kind with all its fields. */
  predicate Complete(o: Fields) {
    KindOf(o).Some? && Required(KindOf(o).value) <= o.Keys
  }

  function TypeOf(o: Fields): Kind
    requires Complete(o)
  {
    KindOf(o).value
  }

  /** Booleans are numbers to the host language's equality. */
  function Key(v: Json): Json {
    if v.Bool? then Num(if v.b then 1.0 else 0.0) else v
  }

  predicate SeqIs(o: Fields, n: nat)
    requires Complete(o)
  {
    Key(o["seq"]) == Num(n as real)
  }

  predicate HasSession(kind: Kind) {
    kind in {SessionStart, SessionEnd, Command, Interrupt}
  }

  /** The session an event names, if its kind names one. */
  function SessionOf(o: Fields): Option<Json>
    requires Complete(o)
  {
    if HasSession(TypeOf(o)) then Some(Key(o["session"])) else None
  }

  predicate KnownFileOp(o: Fields)
    requires Complete(o)
  {
    TypeOf(o) == FileOp ==> o["op"] in FILE_OPS
  }

  // ------------------------------------------------------------------ open sessions

  type Events = s: seq<Fields> | forall i :: 0 <= i < |s| ==> Complete(s[i])

  /** The sessions open after one more event. */
  function Touch(open: set<Json>, o: Fields): set<Json>
    requires Complete(o)
  {
    match TypeOf(o)
    case SessionStart => open + {Key(o["session"])}
    case SessionEnd => open - {Key(o["session"])}
    case _ => open
  }

  /** A session may be started only while closed, and used or ended only while open. */
  predicate Fits(open: set<Json>, o: Fields)
    requires Complete(o)
  {
    HasSession(TypeOf(o)) ==> (TypeOf(o) == SessionStart <==> Key(o["session"]) !in open)
  }

  function OpenAfter(evs: Events): set<Json> {
    if evs == [] then {} else Touch(OpenAfter(evs[..|evs| - 1]), evs[|evs| - 1])
  }

  ghost predicate AllFit(evs: Events) {
    forall i :: 0 <= i < |evs| ==> Fits(OpenAfter(evs[..i]), evs[i])
  }

  // ------------------------------------------------- the grammar of one session's events

  /** What happened to session `k`, in order. */
  function Project(evs: Events, k: Json): seq<Kind> {
    if evs == [] then []
    else
      var o := evs[|evs| - 1];
      Project(evs[..|evs| - 1], k) + if SessionOf(o) == Some(k) then [TypeOf(o)] else []
  }

  /** start (command | interrupt)* end */
  predicate IsLife(p: seq<Kind>) {
    && |p| >= 2 && p[0] == SessionStart && p[|p| - 1] == SessionEnd
    && forall j :: 0 < j < |p| - 1 ==> p[j] in {Command, Interrupt}
  }

  function Flatten(lives: seq<seq<Kind>>): seq<Kind> {
    if lives == [] then [] else lives[0] + Flatten(lives[1..])
  }

  ghost predicate AreLives(lives: seq<seq<Kind>>) {
    forall i :: 0 <= i < |lives| ==> IsLife(lives[i])
  }

  /** (start (command | interrupt)* end)* */
  ghost predicate Paired(p: seq<Kind>) {
    exists lives :: AreLives(lives) && Flatten(lives) == p
  }

  /** The same, seen from each event: a start is where nothing is running, and nothing else is. */
  ghost predicate StartsInPlace(p: seq<Kind>) {
    forall j :: 0 <= j < |p| ==> (p[j] == SessionStart <==> IdleAt(p, j))
  }

  predicate IdleAt(p: seq<Kind>, j: nat)
    requires j <= |p|
  {
    j == 0 || p[j - 1] == SessionEnd
  }

  predicate Unfinished(p: seq<Kind>) { p != [] && p[|p| - 1] != SessionEnd }

  ghost predicate OnlySession(p: seq<Kind>) { forall j :: 0 <= j < |p| ==> HasSession(p[j]) }

  lemma {:induction false} LivesInPlace(lives: seq<seq<Kind>>)
    requires AreLives(lives)
    ensures StartsInPlace(Flatten(lives)) && !Unfinished(Flatten(lives))
  {
    if lives != [] {
      var life, rest := lives[0], Flatten(lives[1..]);
      LivesInPlace(lives[1..]);
      var p := life + rest;
      forall j | 0 <= j < |p| ensures p[j] == SessionStart <==> IdleAt(p, j) {
        if j >= |life| { assert p[j] == rest[j - |life|]; }
      }
    }
  }

  /** Where the first life of a session ends. */
  function FirstEnd(p: seq<Kind>): (e: nat)
    requires SessionEnd in p
    ensures e < |p| && p[e] == SessionEnd && SessionEnd !in p[..e]
  {
    if p[0] == SessionEnd then 0
    else
      var e := FirstEnd(p[1..]);
      assert p[..e + 1] == [p[0]] + p[1..][..e];
      e + 1
  }

  lemma FirstLife(p: seq<Kind>, e: nat)
    requires OnlySession(p) && StartsInPlace(p) && e < |p| && p[e] == SessionEnd && SessionEnd !in p[..e]
    ensures IsLife(p[..e + 1])
  {}

  lemma OtherLives(p: seq<Kind>, e: nat)
    requires OnlySession(p) && StartsInPlace(p) && !Unfinished(p) && e < |p| && p[e] == SessionEnd
    ensures OnlySession(p[e + 1..]) && StartsInPlace(p[e + 1..]) && !Unfinished(p[e + 1..])
  {
    var rest := p[e + 1..];
    forall j | 0 <= j < |rest| ensures rest[j] == SessionStart <==> IdleAt(rest, j) {
      assert rest[j] == p[e + 1 + j];
    }
  }

  lemma {:induction false} InPlaceLives(p: seq<Kind>) returns (lives: seq<seq<Kind>>)
    requires OnlySession(p) && StartsInPlace(p) && !Unfinished(p)
    ensures AreLives(lives) && Flatten(lives) == p
    decreases |p|
  {
    hide OnlySession, StartsInPlace, IsLife;
    if p == [] {
      lives := [];
    } else {
      assert p[|p| - 1] == SessionEnd;
      var e := FirstEnd(p);
      FirstLife(p, e);
      OtherLives(p, e);
      var more := InPlaceLives(p[e + 1..]);
      lives := [p[..e + 1]] + more;
      assert lives[1..] == more && p[..e + 1] + p[e + 1..] == p;
    }
  }

  /** The grammar, decided event by event. */
  lemma PairedIsLocal(p: seq<Kind>)
    requires OnlySession(p)
    ensures Paired(p) <==> StartsInPlace(p) && !Unfinished(p)
  {
    if Paired(p) {
      var lives :| AreLives(lives) && Flatten(lives) == p;
      LivesInPlace(lives);
    }
    if StartsInPlace(p) && !Unfinished(p) {
      var lives := InPlaceLives(p);
    }
  }

  lemma {:induction false} ProjectOnlySession(evs: Events, k: Json)
    ensures OnlySession(Project(evs, k))
  {
    if evs != [] { ProjectOnlySession(evs[..|evs| - 1], k); }
  }

  // ------------------------------------------- one set of open sessions, all the grammars

  ghost predicate OpenIsUnfinished(evs: Events) {
    forall k :: k in OpenAfter(evs) <==> Unfinished(Project(evs, k))
  }

  ghost predicate AllInPlace(evs: Events) {
    forall k :: StartsInPlace(Project(evs, k))
  }

  lemma ExtendInPlace(p: seq<Kind>, x: Kind)
    ensures StartsInPlace(p + [x]) <==> StartsInPlace(p) && (x == SessionStart <==> !Unfinished(p))
  {
    var q := p + [x];
    forall j | 0 <= j < |p| ensures q[j] == p[j] && IdleAt(q, j) == IdleAt(p, j) {}
    assert q[|p|] == x && (IdleAt(q, |p|) <==> !Unfinished(p));
    if StartsInPlace(q) {
      forall j | 0 <= j < |p| ensures p[j] == SessionStart <==> IdleAt(p, j) { assert q[j] == p[j]; }
    }
  }

  lemma ProjectNext(evs: Events, o: Fields, k: Json)
    requires Complete(o)
    ensures Project(evs + [o], k) == if SessionOf(o) == Some(k) then Project(evs, k) + [TypeOf(o)] else Project(evs, k)
    ensures OpenAfter(evs + [o]) == Touch(OpenAfter(evs), o)
  {
    assert (evs + [o])[..|evs|] == evs;
  }

  /** One event more: it fits the open sessions exactly when its own session's projection
      still starts in place. */
  lemma ExtendProjections(evs: Events, o: Fields)
    requires Complete(o) && OpenIsUnfinished(evs)
    ensures AllInPlace(evs + [o]) <==> AllInPlace(evs) && Fits(OpenAfter(evs), o)
    ensures Fits(OpenAfter(evs), o) ==> OpenIsUnfinished(evs + [o])
  {
    hide StartsInPlace, Project, OpenAfter, Complete, TypeOf;
    var next: Events := evs + [o];
    forall k
      ensures Project(next, k) == if SessionOf(o) == Some(k) then Project(evs, k) + [TypeOf(o)] else Project(evs, k)
      ensures StartsInPlace(Project(next, k)) <==>
              StartsInPlace(Project(evs, k)) && (SessionOf(o) == Some(k) ==> Fits(OpenAfter(evs), o))
    {
      ProjectNext(evs, o, k);
      ExtendInPlace(Project(evs, k), TypeOf(o));
    }
    ProjectNext(evs, o, Null);
    if SessionOf(o).Some? { assert AllInPlace(next) ==> StartsInPlace(Project(next, SessionOf(o).value)); }
  }

  lemma InPlacePrefix(evs: Events, o: Fields)
    requires Complete(o)
    ensures AllInPlace(evs + [o]) ==> AllInPlace(evs)
  {
    hide StartsInPlace, Project, Complete, TypeOf;
    var next: Events := evs + [o];
    if AllInPlace(next) {
      forall k ensures StartsInPlace(Project(evs, k)) {
        ProjectNext(evs, o, k);
        assert StartsInPlace(Project(next, k));
        if SessionOf(o) == Some(k) { ExtendInPlace(Project(evs, k), TypeOf(o)); }
      }
    }
  }

  lemma EmptyInPlace()
    ensures AllFit([]) && AllInPlace([]) && OpenIsUnfinished([])
  {}

  lemma AllFitNext(evs: Events)
    requires evs != []
    ensures AllFit(evs) <==> AllFit(evs[..|evs| - 1]) && Fits(OpenAfter(evs[..|evs| - 1]), evs[|evs| - 1])
  {
    hide Fits, OpenAfter;
    var n := |evs| - 1;
    var was: Events := evs[..n];
    forall i | 0 <= i < n ensures evs[..i] == was[..i] && evs[i] == was[i] {}
    if AllFit(evs) {
      forall i | 0 <= i < n ensures Fits(OpenAfter(was[..i]), was[i]) {
        assert Fits(OpenAfter(evs[..i]), evs[i]);
      }
    }
  }

  /** Every event fits the sessions open before it exactly when every session's events
      start in place; then the open sessions are the unfinished ones. */
  lemma {:induction false} FitsIsInPlace(evs: Events)
    ensures AllFit(evs) <==> AllInPlace(evs)
    ensures AllFit(evs) ==> OpenIsUnfinished(evs)
  {
    hide Fits, OpenIsUnfinished, AllInPlace, AllFit;
    EmptyInPlace();
    if evs != [] {
      var n := |evs| - 1;
      FitsIsInPlace(evs[..n]);
      AllFitNext(evs);
      assert evs == evs[..n] + [evs[n]];
      if AllFit(evs[..n]) {
        ExtendProjections(evs[..n], evs[n]);
      } else {
        InPlacePrefix(evs[..n], evs[n]);
      }
    }
  }
}
