/** The structural validator that stands between a recorded trace and its replay. */
module Validator {
  import opened Text
  import opened Trace

  datatype Problem =
    | InvalidJson | NotAnObject | UnknownType
    | FirstNotHeader | HeaderNotFirst
    | MissingFields(names: set<string>)
    | WrongSeq(expected: nat)
    | AlreadyOpen(session: Json) | NotOpen(session: Json)
    | BadFileOp

  /** A complaint about one line, counted from 1. */
  datatype Error = At(line: nat, problem: Problem)

  /** What validation comes to; `Crashed` is an uncaught type error. */
  datatype Outcome = Crashed | Report(events: nat, errors: seq<Error>, neverClosed: set<Json>)

  // -------------------------------------------------------------- what the lines carry

  function ObjectCount(lines: seq<Line>): nat {
    if lines == [] then 0
    else ObjectCount(lines[..|lines| - 1]) + if lines[|lines| - 1].Object? then 1 else 0
  }

  /** The complete events of a trace, in order. */
  function EventsOf(lines: seq<Line>): (evs: Events) {
    if lines == [] then []
    else
      var last := lines[|lines| - 1];
      EventsOf(lines[..|lines| - 1]) + if last.Object? && Complete(last.fields) then [last.fields] else []
  }

  /** A value that has to be looked up in a set but cannot be a member of one. */
  predicate Unhashable(line: Line) {
    line.Object? && (
      var o := line.fields;
      || ("type" in o && o["type"] == Compound)
      || (Complete(o) && HasSession(TypeOf(o)) && o["session"] == Compound)
      || (Complete(o) && TypeOf(o) == FileOp && o["op"] == Compound))
  }

  /** Session names that can be put in order: texts or numbers, not a mixture. */
  predicate Sortable(names: set<Json>) {
    || |names| <= 1
    || (forall k :: k in names ==> k.Str?)
    || (forall k :: k in names ==> k.Num?)
  }

  ghost predicate Crashes(lines: seq<Line>) {
    || (exists i :: 0 <= i < |lines| && Unhashable(lines[i]))
    || !Sortable(OpenAfter(EventsOf(lines)))
  }

  // --------------------------------------------------------------- what is complained of

  function HeaderErrors(no: nat, kind: Kind): seq<Error> {
    if no == 1 && kind != TraceHeader then [At(1, FirstNotHeader)]
    else if no != 1 && kind == TraceHeader then [At(no, HeaderNotFirst)]
    else []
  }

  function SessionErrors(no: nat, open: set<Json>, o: Fields): seq<Error>
    requires Complete(o)
  {
    if Fits(open, o) then []
    else if TypeOf(o) == SessionStart then [At(no, AlreadyOpen(o["session"]))]
    else [At(no, NotOpen(o["session"]))]
  }

  /** What is wrong with a complete event, given the open sessions and the number due. */
  function BodyErrors(no: nat, o: Fields, open: set<Json>, expected: nat): seq<Error>
    requires Complete(o)
  {
    (if SeqIs(o, expected) then [] else [At(no, WrongSeq(expected))])
    + SessionErrors(no, open, o)
    + if KnownFileOp(o) then [] else [At(no, BadFileOp)]
  }

  /** What is wrong with line `no`, given the complete events before it. */
  function ErrorsOn(no: nat, line: Line, before: Events): seq<Error> {
    match line
    case Blank => []
    case BadJson => [At(no, InvalidJson)]
    case NotObject => [At(no, NotAnObject)]
    case Object(o) =>
      if KindOf(o).None? then [At(no, UnknownType)]
      else
        HeaderErrors(no, KindOf(o).value) +
        if !Complete(o) then [At(no, MissingFields(Required(KindOf(o).value) - o.Keys))]
        else BodyErrors(no, o, OpenAfter(before), |before|)
  }

  function ErrorsIn(lines: seq<Line>): seq<Error> {
    if lines == [] then []
    else
      var n := |lines|;
      ErrorsIn(lines[..n - 1]) + ErrorsOn(n, lines[n - 1], EventsOf(lines[..n - 1]))
  }

  // ------------------------------------------------------------------------ the loop

  method Validate(lines: seq<Line>) returns (r: Outcome)
    ensures r.Crashed? <==> Crashes(lines)
    ensures r.Report? ==> r == Report(ObjectCount(lines), ErrorsIn(lines), OpenAfter(EventsOf(lines)))
  {
    hide ErrorsOn, ErrorsIn, EventsOf, OpenAfter, Sortable, Unhashable, ObjectCount;
    var errors: seq<Error>, open: set<Json>, expected: nat, count: nat := [], {}, 0, 0;
    Nothing();
    for i := 0 to |lines|
      invariant errors == ErrorsIn(lines[..i])
      invariant open == OpenAfter(EventsOf(lines[..i]))
      invariant expected == |EventsOf(lines[..i])|
      invariant count == ObjectCount(lines[..i])
      invariant forall j :: 0 <= j < i ==> !Unhashable(lines[j])
    {
      Prefix(lines, i);
      if Unhashable(lines[i]) { return Crashed; }
      var found;
      found, open, expected := CheckLine(i + 1, lines[i], open, expected, EventsOf(lines[..i]));
      errors := errors + found;
      if lines[i].Object? { count := count + 1; }
    }
    assert lines[..|lines|] == lines;
    if !Sortable(open) { return Crashed; }
    r := Report(count, errors, open);
  }

  lemma Nothing()
    ensures ErrorsIn([]) == [] && EventsOf([]) == [] && OpenAfter([]) == {} && ObjectCount([]) == 0
  {}

  /** One pass of the loop: the complaints about line `no`, the sessions open after it and
      the sequence number expected next. */
  method CheckLine(no: nat, line: Line, open: set<Json>, expected: nat, ghost before: Events)
    returns (found: seq<Error>, now: set<Json>, next: nat)
    requires open == OpenAfter(before) && expected == |before|
    ensures found == ErrorsOn(no, line, before)
    ensures line.Object? && Complete(line.fields) ==> now == Touch(open, line.fields) && next == expected + 1
    ensures !(line.Object? && Complete(line.fields)) ==> now == open && next == expected
  {
    hide Required, KindNamed, OpenAfter, BodyErrors, Touch;
    found, now, next := [], open, expected;
    match line
    case Blank =>
    case BadJson => found := [At(no, InvalidJson)];
    case NotObject => found := [At(no, NotAnObject)];
    case Object(o) =>
      var kind := KindOf(o);
      if kind.None? {
        found := [At(no, UnknownType)];
        return;
      }
      if no == 1 && kind.value != TraceHeader {
        found := found + [At(1, FirstNotHeader)];
      }
      if kind.value == TraceHeader && no != 1 {
        found := found + [At(no, HeaderNotFirst)];
      }
      var missing := Required(kind.value) - o.Keys;
      if missing != {} {
        found := found + [At(no, MissingFields(missing))];
        return;
      }
      forall f | f in Required(kind.value) ensures f in o.Keys { assert f in missing || f in o.Keys; }
      var more;
      more, now, next := CheckBody(no, o, open, expected);
      found := found + more;
  }

  /** The part about a complete event. */
  method CheckBody(no: nat, o: Fields, open: set<Json>, expected: nat)
    returns (found: seq<Error>, now: set<Json>, next: nat)
    requires Complete(o)
    ensures found == BodyErrors(no, o, open, expected)
    ensures now == Touch(open, o) && next == expected + 1
  {
    hide KindNamed;
    found, now := [], open;
    if Key(o["seq"]) != Num(expected as real) {
      found := [At(no, WrongSeq(expected))];
    }
    next := expected + 1;
    match TypeOf(o)
    case TraceHeader =>
    case SessionStart =>
      if Key(o["session"]) in open {
        found := found + [At(no, AlreadyOpen(o["session"]))];
      }
      now := open + {Key(o["session"])};
    case SessionEnd =>
      if Key(o["session"]) !in open {
        found := found + [At(no, NotOpen(o["session"]))];
      } else {
        now := open - {Key(o["session"])};
      }
    case Command =>
      if Key(o["session"]) !in open {
        found := found + [At(no, NotOpen(o["session"]))];
      }
    case Interrupt =>
      if Key(o["session"]) !in open {
        found := found + [At(no, NotOpen(o["session"]))];
      }
    case FileOp =>
      if o["op"] !in FILE_OPS {
        found := found + [At(no, BadFileOp)];
      }
  }

  /** One line more. */
  lemma Prefix(lines: seq<Line>, i: nat)
    requires i < |lines|
    ensures var was, line := lines[..i], lines[i];
            && ErrorsIn(lines[..i + 1]) == ErrorsIn(was) + ErrorsOn(i + 1, line, EventsOf(was))
            && ObjectCount(lines[..i + 1]) == ObjectCount(was) + (if line.Object? then 1 else 0)
            && EventsOf(lines[..i + 1]) ==
               (if line.Object? && Complete(line.fields) then EventsOf(was) + [line.fields] else EventsOf(was))
            && (line.Object? && Complete(line.fields) ==>
                OpenAfter(EventsOf(lines[..i + 1])) == Touch(OpenAfter(EventsOf(was)), line.fields))
  {
    hide OpenAfter, Touch, ErrorsOn, Complete;
    assert lines[..i + 1][..i] == lines[..i];
    if lines[i].Object? && Complete(lines[i].fields) { ProjectNext(EventsOf(lines[..i]), lines[i].fields, Null); }
  }

  // --------------------------------------------------- each complaint and its reason

  /** Event `i` starts session `k`, and no later one ends it. */
  ghost predicate StartedAt(evs: Events, k: Json, i: nat) {
    && i < |evs| && TypeOf(evs[i]) == SessionStart && SessionOf(evs[i]) == Some(k)
    && forall j :: i < j < |evs| ==> !Ends(evs[j], k)
  }

  predicate Ends(o: Fields, k: Json)
    requires Complete(o)
  {
    TypeOf(o) == SessionEnd && SessionOf(o) == Some(k)
  }

  ghost predicate OpenSince(evs: Events, k: Json) { exists i: nat :: StartedAt(evs, k, i) }

  lemma {:induction false} OpenIsSince(evs: Events, k: Json)
    ensures k in OpenAfter(evs) <==> OpenSince(evs, k)
    decreases |evs|
  {
    hide Complete, TypeOf;
    if evs != [] {
      var n := |evs| - 1;
      var was: Events, o := evs[..n], evs[n];
      OpenIsSince(was, k);
      if OpenSince(was, k) && !Ends(o, k) {
        var i: nat :| StartedAt(was, k, i);
        assert StartedAt(evs, k, i);
      }
      if TypeOf(o) == SessionStart && SessionOf(o) == Some(k) { assert StartedAt(evs, k, n); }
      if OpenSince(evs, k) {
        var i: nat :| StartedAt(evs, k, i);
        assert i < n ==> StartedAt(was, k, i) && !Ends(o, k);
      }
    }
  }

  /** Why a problem is reported on line `no`, given the complete events before it. */
  ghost predicate Complains(no: nat, line: Line, before: Events, p: Problem) {
    match p
    case InvalidJson => line.BadJson?
    case NotAnObject => line.NotObject?
    case _ => line.Object? && ObjectComplains(no, line.fields, before, p)
  }

  /** Of the fields required, `names` are the ones missing. */
  ghost predicate Lacks(o: Fields, required: set<string>, names: set<string>) {
    forall f :: f in names <==> f in required && f !in o
  }

  lemma LacksIs(o: Fields, required: set<string>, names: set<string>)
    ensures Lacks(o, required, names) <==> names == required - o.Keys
    ensures required - o.Keys == {} <==> required <= o.Keys
  {
    if required - o.Keys == {} {
      forall f | f in required ensures f in o { assert f in required - o.Keys || f in o; }
    }
  }

  ghost predicate ObjectComplains(no: nat, o: Fields, before: Events, p: Problem) {
    match p
    case UnknownType => KindOf(o) == None
    case FirstNotHeader => KindOf(o).Some? && KindOf(o) != Some(TraceHeader) && no == 1
    case HeaderNotFirst => KindOf(o) == Some(TraceHeader) && no != 1
    case MissingFields(names) =>
      KindOf(o).Some? && names != {} && Lacks(o, Required(KindOf(o).value), names)
    case WrongSeq(expected) => Complete(o) && expected == |before| && !SeqIs(o, expected)
    case AlreadyOpen(v) =>
      Complete(o) && TypeOf(o) == SessionStart && v == o["session"] && OpenSince(before, Key(v))
    case NotOpen(v) =>
      Complete(o) && TypeOf(o) in {SessionEnd, Command, Interrupt} && v == o["session"] && !OpenSince(before, Key(v))
    case BadFileOp => Complete(o) && TypeOf(o) == FileOp && o["op"] !in FILE_OPS
    case _ => false
  }

  lemma SessionComplains(no: nat, o: Fields, before: Events, p: Problem)
    requires Complete(o)
    ensures At(no, p) in SessionErrors(no, OpenAfter(before), o) <==>
            (p.AlreadyOpen? || p.NotOpen?) && ObjectComplains(no, o, before, p)
  {
    hide OpenAfter, KindNamed, OpenSince;
    if HasSession(TypeOf(o)) { OpenIsSince(before, Key(o["session"])); }
  }

  lemma BodyComplains(no: nat, o: Fields, before: Events, p: Problem)
    requires Complete(o)
    ensures At(no, p) in BodyErrors(no, o, OpenAfter(before), |before|) <==>
            ObjectComplains(no, o, before, p) && !p.FirstNotHeader? && !p.HeaderNotFirst?
  {
    hide OpenAfter, KindNamed, OpenSince, Lacks, SeqIs, SessionErrors;
    SessionComplains(no, o, before, p);
    if p.MissingFields? { LacksIs(o, Required(TypeOf(o)), p.names); }
  }

  lemma LineComplains(no: nat, line: Line, before: Events, p: Problem)
    requires no > 0
    ensures At(no, p) in ErrorsOn(no, line, before) <==> Complains(no, line, before, p)
  {
    hide OpenAfter, KindNamed, OpenSince, SeqIs, Required, Lacks, BodyErrors;
    if line.Object? && Complete(line.fields) {
      BodyComplains(no, line.fields, before, p);
    } else if line.Object? && p.MissingFields? && KindOf(line.fields).Some? {
      LacksIs(line.fields, Required(KindOf(line.fields).value), p.names);
    }
  }

  lemma LineOwnsErrors(no: nat, line: Line, before: Events, e: Error)
    requires e in ErrorsOn(no, line, before)
    ensures e.line == no
  {
    hide OpenAfter, KindNamed, SeqIs, Required, Fits;
  }

  /** Every complaint, and nothing else: a problem is reported on a line exactly for its
      reason. A session is already open, or not open, by its last start before the line and
      the ends since. */
  lemma {:induction false} ComplainsExactly(lines: seq<Line>, no: nat, p: Problem)
    ensures At(no, p) in ErrorsIn(lines) <==>
            1 <= no <= |lines| && Complains(no, lines[no - 1], EventsOf(lines[..no - 1]), p)
  {
    hide ErrorsOn, EventsOf, Complains;
    if lines != [] {
      var n := |lines|;
      var was := lines[..n - 1];
      ComplainsExactly(was, no, p);
      LineComplains(n, lines[n - 1], EventsOf(was), p);
      if At(no, p) in ErrorsOn(n, lines[n - 1], EventsOf(was)) { LineOwnsErrors(n, lines[n - 1], EventsOf(was), At(no, p)); }
      if 1 <= no < n { assert was[..no - 1] == lines[..no - 1] && was[no - 1] == lines[no - 1]; }
    }
  }

  // ----------------------------------------------------------- what acceptance means

  /** No complaint and no crash. */
  ghost predicate Accepted(lines: seq<Line>) {
    !Crashes(lines) && ErrorsIn(lines) == [] && OpenAfter(EventsOf(lines)) == {}
  }

  /** A line that is blank, or a complete event that names its session by a plain value. */
  predicate GoodLine(line: Line) {
    line.Blank? || (line.Object? && Complete(line.fields) && SessionOf(line.fields) != Some(Compound))
  }

  ghost predicate GoodLines(lines: seq<Line>) {
    forall i :: 0 <= i < |lines| ==> GoodLine(lines[i])
  }

  /** The header is the event on the very first line, and only that one. */
  ghost predicate HeaderOnFirstLine(lines: seq<Line>)
    requires GoodLines(lines)
  {
    forall i :: 0 <= i < |lines| ==> HeaderFits(lines[i], i)
  }

  predicate HeaderFits(line: Line, i: nat)
    requires GoodLine(line)
  {
    line.Object? ==> (TypeOf(line.fields) == TraceHeader <==> i == 0)
  }

  /** Sequence numbers count the events and every file operation is a known one. */
  ghost predicate Numbered(evs: Events) {
    forall i :: 0 <= i < |evs| ==> SeqIs(evs[i], i) && KnownFileOp(evs[i])
  }

  ghost predicate AllPaired(evs: Events) {
    forall k :: Paired(Project(evs, k))
  }

  lemma LineClean(no: nat, line: Line, before: Events)
    requires no > 0
    ensures ErrorsOn(no, line, before) == [] && !Unhashable(line) <==>
            GoodLine(line) && HeaderFits(line, no - 1) && (line.Object? ==>
              var o := line.fields;
              SeqIs(o, |before|) && KnownFileOp(o) && Fits(OpenAfter(before), o))
  {
    hide OpenAfter, Fits, Required, KindNamed;
  }

  lemma NumberedNext(evs: Events, o: Fields)
    requires Complete(o)
    ensures Numbered(evs + [o]) <==> Numbered(evs) && SeqIs(o, |evs|) && KnownFileOp(o)
  {
    hide SeqIs, KnownFileOp, Complete;
    var next: Events := evs + [o];
    assert next[|evs|] == o;
    if Numbered(next) {
      forall i | 0 <= i < |evs| ensures SeqIs(evs[i], i) && KnownFileOp(evs[i]) { assert next[i] == evs[i]; }
    }
  }

  lemma EventNext(evs: Events, o: Fields)
    requires Complete(o)
    ensures Numbered(evs + [o]) <==> Numbered(evs) && SeqIs(o, |evs|) && KnownFileOp(o)
    ensures AllFit(evs + [o]) <==> AllFit(evs) && Fits(OpenAfter(evs), o)
  {
    hide *;
    NumberedNext(evs, o);
    var next: Events := evs + [o];
    assert next[|evs|] == o && next[..|evs|] == evs;
    AllFitNext(next);
  }

  lemma LineNext(lines: seq<Line>, n: nat)
    requires n + 1 == |lines|
    ensures GoodLines(lines) <==> GoodLines(lines[..n]) && GoodLine(lines[n])
    ensures GoodLines(lines) ==>
              (HeaderOnFirstLine(lines) <==> HeaderOnFirstLine(lines[..n]) && HeaderFits(lines[n], n))
    ensures (forall i :: 0 <= i < |lines| ==> !Unhashable(lines[i])) <==>
            (forall i :: 0 <= i < n ==> !Unhashable(lines[..n][i])) && !Unhashable(lines[n])
  {
    hide GoodLine, HeaderFits, Unhashable;
    var was := lines[..n];
    forall i | 0 <= i < n ensures was[i] == lines[i] {}
    if GoodLines(lines) { forall i | 0 <= i < n ensures GoodLine(was[i]) { assert GoodLine(lines[i]); } }
  }

  lemma {:induction false} CleanExactly(lines: seq<Line>)
    ensures ErrorsIn(lines) == [] && (forall i :: 0 <= i < |lines| ==> !Unhashable(lines[i])) <==>
            GoodLines(lines) && HeaderOnFirstLine(lines) && Numbered(EventsOf(lines)) && AllFit(EventsOf(lines))
  {
    hide ErrorsOn, Unhashable, GoodLines, HeaderOnFirstLine, HeaderFits, Numbered, AllFit, Fits, SeqIs, KnownFileOp,
         Complete, OpenAfter, SessionOf;
    if lines == [] {
      NothingClean();
    } else {
      var n := |lines| - 1;
      var was, line := lines[..n], lines[n];
      CleanExactly(was);
      Prefix(lines, n);
      LineClean(n + 1, line, EventsOf(was));
      LineNext(lines, n);
      assert lines[..n + 1] == lines;
      if line.Object? && Complete(line.fields) { EventNext(EventsOf(was), line.fields); }
    }
  }

  lemma NothingClean()
    ensures ErrorsIn([]) == [] && GoodLines([]) && HeaderOnFirstLine([]) && Numbered(EventsOf([])) && AllFit(EventsOf([]))
  {}

  /** What the replay harness depends on: good lines, the header on the first line and
      nowhere else, events numbered in order with known file operations, and the events of
      every session paired as (start (command | interrupt)* end)*. */
  ghost predicate WellFormed(lines: seq<Line>) {
    && GoodLines(lines) && HeaderOnFirstLine(lines)
    && Numbered(EventsOf(lines)) && AllPaired(EventsOf(lines))
  }

  lemma PairedExactly(evs: Events)
    ensures AllPaired(evs) <==> AllFit(evs) && OpenAfter(evs) == {}
  {
    hide Paired, Project, StartsInPlace, Unfinished, AllFit, OpenAfter, OnlySession;
    FitsIsInPlace(evs);
    forall k ensures Paired(Project(evs, k)) <==> StartsInPlace(Project(evs, k)) && !Unfinished(Project(evs, k)) {
      ProjectOnlySession(evs, k);
      PairedIsLocal(Project(evs, k));
    }
    if AllInPlace(evs) && AllPaired(evs) {
      forall k ensures k !in OpenAfter(evs) { assert Paired(Project(evs, k)); }
    }
  }

  /** The validator accepts exactly the well-formed traces. */
  lemma AcceptsExactly(lines: seq<Line>)
    ensures Accepted(lines) <==> WellFormed(lines)
  {
    hide ErrorsIn, Unhashable, EventsOf, OpenAfter, GoodLines, HeaderOnFirstLine, Numbered, AllFit, AllPaired;
    CleanExactly(lines);
    PairedExactly(EventsOf(lines));
  }

  // ---------------------------------------------------- the documented header rule

  /** The documented rule: the first event, wherever it stands, is the one header. */
  ghost predicate HeaderLeads(evs: Events) {
    evs != [] && forall i :: 0 <= i < |evs| ==> (TypeOf(evs[i]) == TraceHeader <==> i == 0)
  }

  ghost predicate Documented(lines: seq<Line>) {
    && GoodLines(lines) && HeaderLeads(EventsOf(lines))
    && Numbered(EventsOf(lines)) && AllPaired(EventsOf(lines))
  }

  predicate FirstLineUsed(lines: seq<Line>) { lines != [] && !lines[0].Blank? }

  lemma EventsGrow(lines: seq<Line>, n: nat)
    requires n + 1 == |lines| && GoodLines(lines)
    ensures EventsOf(lines) ==
            if lines[n].Object? then EventsOf(lines[..n]) + [lines[n].fields] else EventsOf(lines[..n])
    ensures GoodLines(lines[..n])
  {
    LineNext(lines, n);
  }

  lemma HeaderLeadsNext(evs: Events, o: Fields)
    requires Complete(o) && evs != []
    ensures HeaderLeads(evs + [o]) <==> HeaderLeads(evs) && TypeOf(o) != TraceHeader
  {
    hide Complete, TypeOf;
    var next: Events := evs + [o];
    assert next[|evs|] == o;
    if HeaderLeads(next) {
      forall i | 0 <= i < |evs| ensures TypeOf(evs[i]) == TraceHeader <==> i == 0 { assert next[i] == evs[i]; }
    }
  }

  /** With a used first line, the first event is on it. */
  lemma {:induction false} HeaderByLine(lines: seq<Line>)
    requires GoodLines(lines) && FirstLineUsed(lines)
    ensures EventsOf(lines) != []
    ensures HeaderLeads(EventsOf(lines)) <==> HeaderOnFirstLine(lines)
  {
    hide Complete, TypeOf, SessionOf;
    var n := |lines| - 1;
    EventsGrow(lines, n);
    LineNext(lines, n);
    if n > 0 {
      assert lines[..n][0] == lines[0];
      HeaderByLine(lines[..n]);
      if lines[n].Object? { HeaderLeadsNext(EventsOf(lines[..n]), lines[n].fields); }
    }
  }

  /** With a blank first line, no event is on it. */
  lemma {:induction false} NoHeader(lines: seq<Line>)
    requires GoodLines(lines) && !FirstLineUsed(lines) && HeaderOnFirstLine(lines)
    ensures forall i :: 0 <= i < |EventsOf(lines)| ==> TypeOf(EventsOf(lines)[i]) != TraceHeader
    ensures EventsOf(lines) != [] ==> TypeOf(EventsOf(lines)[0]) != TraceHeader
  {
    hide Complete, TypeOf, SessionOf;
    if lines != [] {
      var n := |lines| - 1;
      EventsGrow(lines, n);
      LineNext(lines, n);
      if n > 0 { assert lines[..n][0] == lines[0]; }
      NoHeader(lines[..n]);
    }
  }

  /** The header test looks at line numbers, not at events. On a trace with a used first
      line it is the documented rule; on any other trace the two never agree: what one
      accepts the other rejects. */
  lemma DocumentedRule(lines: seq<Line>)
    ensures FirstLineUsed(lines) ==> (Accepted(lines) <==> Documented(lines))
    ensures !FirstLineUsed(lines) ==> !(Accepted(lines) && Documented(lines))
  {
    hide Accepted, GoodLines, Numbered, AllPaired, EventsOf, HeaderOnFirstLine;
    AcceptsExactly(lines);
    if GoodLines(lines) {
      if FirstLineUsed(lines) { HeaderByLine(lines); } else if HeaderOnFirstLine(lines) { NoHeader(lines); }
    }
  }

  const HEADER: Fields := map["type" := Str("trace_header"), "seq" := Num(0.0), "t_ms" := Num(0.0),
                              "trace_version" := Num(1.0), "source" := Str("")]

  /** Both failures happen: an empty trace passes without a header, and a header is
      refused when a blank line precedes it. */
  lemma HeaderRuleFails()
    ensures Accepted([]) && !Documented([])
    ensures Documented([Blank, Object(HEADER)]) && !Accepted([Blank, Object(HEADER)])
  {
    var lines := [Blank, Object(HEADER)];
    assert Accepted([]);
    assert Complete(HEADER) && TypeOf(HEADER) == TraceHeader && SessionOf(HEADER) == None;
    assert lines[..1] == [Blank] && EventsOf([Blank]) == [];
    assert EventsOf(lines) == [HEADER];
    assert AllPaired([HEADER]) by {
      forall k ensures Project([HEADER], k) == [] { ProjectNext([], HEADER, k); }
      assert AreLives([]) && Flatten([]) == [];
    }
    assert Documented(lines);
    DocumentedRule(lines);
  }
}
