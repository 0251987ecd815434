/** Rounds of the session machine, the undisturbed run that returns its code, and the output
    after a timed-out command. */
module SessionRuns {
  import opened Text
  import opened Utf8
  import opened Framing
  import opened Search
  import opened Reader
  import opened Expect
  import opened Protocol
  import opened Session
  import Markers
  import Output

  // --------------------------------------------- rounds are pieces of expect_blocking

  /** What `expect_blocking` reports when the last round it made was `o`. */
  function RoundResult(hard: nat, h: Log, o: Round, pat: Bytes, consume: bool): (Log, Outcome)
    requires Bounded(h.r) && (o.Found? ==> h.r.consumed <= o.hit.pos <= |h.r.buf|)
  {
    match o
    case Found(hit) =>
      (if consume then TakeHit(hard, h, hit, pat) else h, Match(0, pat, h.r.buf[h.r.consumed..hit.pos]))
    case Again(_) => (h, Waiting)
    case Expired => (h, Timeout)
    case AtEof => (h, Eof)
    case IsClosed => (h, Closed)
  }

  function Deadline(late: bool): seq<Wake> { if late then [DeadlinePassed] else [] }

  /** One round is the loop up to its first wait, or up to its deadline: the search comes
      first, then the end of file, then the deadline. */
  lemma RoundIsLoop(hard: nat, h: Log, from: Option<nat>, pat: Bytes, late: bool, consume: bool)
    requires Bounded(h.r)
    ensures ExpectRun(hard, h, from, [pat], consume, Deadline(late))
            == RoundResult(hard, h, RoundOf(h.r, from, pat, late), pat, consume)
  {
    hide Scan;
    ScanBounds(h.r, from, [pat]);
  }

  /** A wait, and the loop from there on. */
  lemma WaitIsLoop(hard: nat, h: Log, from: Option<nat>, pat: Bytes, consume: bool, es: seq<Event>, rest: seq<Wake>)
    requires Bounded(h.r)
    ensures var o, wakes := RoundOf(h.r, from, pat, false), [Woken(es)] + rest;
            ExpectRun(hard, h, from, [pat], consume, wakes)
            == if o.Again? then ExpectRun(hard, Run(hard, h, es), Some(o.from), [pat], consume, rest)
               else RoundResult(hard, h, o, pat, consume)
  {
    hide Scan, Run, NextFrom;
    ScanBounds(h.r, from, [pat]);
    assert ([Woken(es)] + rest)[1..] == rest;
  }

  /** Rounds with what happens in between, until one does not wait on. */
  function Rounds(hard: nat, h: Log, from: Option<nat>, pat: Bytes, waits: seq<seq<Event>>, late: bool)
    : (last: (Log, Round))
    requires Bounded(h.r)
    ensures Bounded(last.0.r) && (last.1.Found? ==> last.0.r.consumed <= last.1.hit.pos <= |last.0.r.buf|)
    decreases |waits|
  {
    if waits == [] then (h, RoundOf(h.r, from, pat, late))
    else
      var o := RoundOf(h.r, from, pat, false);
      if o.Again? then Rounds(hard, Run(hard, h, waits[0]), Some(o.from), pat, waits[1..], late) else (h, o)
  }

  function Wakes(waits: seq<seq<Event>>, late: bool): seq<Wake> {
    if waits == [] then Deadline(late) else [Woken(waits[0])] + Wakes(waits[1..], late)
  }

  /** The rounds of the session machine are the loop of `expect_blocking`: over every
      schedule of waits, with or without a deadline at its end. */
  lemma {:induction false} RoundsAreLoop(
      hard: nat, h: Log, from: Option<nat>, pat: Bytes, waits: seq<seq<Event>>, late: bool, consume: bool)
    requires Bounded(h.r)
    ensures var (g, o) := Rounds(hard, h, from, pat, waits, late);
            ExpectRun(hard, h, from, [pat], consume, Wakes(waits, late)) == RoundResult(hard, g, o, pat, consume)
    decreases |waits|
  {
    hide ExpectRun, RoundOf, Run, RoundResult;
    if waits == [] {
      RoundIsLoop(hard, h, from, pat, late, consume);
    } else {
      var o := RoundOf(h.r, from, pat, false);
      WaitIsLoop(hard, h, from, pat, consume, waits[0], Wakes(waits[1..], late));
      if o.Again? {
        RoundsAreLoop(hard, Run(hard, h, waits[0]), Some(o.from), pat, waits[1..], late, consume);
      }
    }
  }

  // ------------------------------------------------------------ what a round finds

  function Unread(r: Reader.State): Bytes
    requires Bounded(r)
  {
    r.buf[r.consumed..]
  }

  /** The first occurrence of a pattern in the unread text is at `n`. */
  ghost predicate FirstAt(text: Bytes, pat: Bytes, n: nat) {
    OccursAt(text, pat, n) && forall p :: 0 <= p < n ==> !OccursAt(text, pat, p)
  }

  /** A round that may resume finds the first occurrence, whether or not the deadline has
      passed. */
  lemma RoundFinds(r: Reader.State, from: Option<nat>, pat: Bytes, n: nat, late: bool)
    requires Bounded(r) && !r.closed && Resumable(r, from, [pat]) && FirstAt(Unread(r), pat, n)
    ensures RoundOf(r, from, pat, late) == Found(Hit(r.consumed + n, 0))
  {
    hide Earliest, Resumable, OccursAt;
    assert IsEarliest(Unread(r), [pat], Hit(n, 0));
    EarliestUnique(Unread(r), [pat], Some(Hit(n, 0)));
    ResumeAgrees(r, from, [pat]);
  }

  /** The log after the text up to the end of that occurrence was consumed. */
  ghost predicate Took(h: Log, g: Log, n: nat, m: nat)
    requires Bounded(h.r)
  {
    && n <= m <= |Unread(h.r)| && Bounded(g.r) && g.r == h.r.(consumed := h.r.consumed + m)
    && Unread(g.r) == Unread(h.r)[m..] && Decoded(g) == Decoded(h) && Cursor(g) == Cursor(h) + m
    && g.accepted == h.accepted && h.r.buf[h.r.consumed..h.r.consumed + n] == Unread(h.r)[..n]
  }

  lemma TakeLeaves(hard: nat, h: Log, n: nat, m: nat)
    requires n <= m && h.r.consumed + m <= |h.r.buf| && IsBoundary(h.r.buf, h.r.consumed + m)
    ensures Took(h, Apply(hard, h, Take(h.r.consumed + m)), n, m)
  {
    hide Apply, IsBoundary;
    LegalTake(hard, h, h.r.consumed + m);
    SlicesOf(h.r.buf, h.r.consumed, n, m);
  }

  lemma SlicesOf(s: Bytes, c: nat, n: nat, m: nat)
    requires n <= m && c + m <= |s|
    ensures s[c + m..] == s[c..][m..] && s[c..c + n] == s[c..][..n]
  {}

  lemma EndIsLegal(hard: nat, h: Log, pat: Bytes, n: nat)
    requires Sound(hard, h) && IsUtf8(pat) && pat != [] && Bounded(h.r) && FirstAt(Unread(h.r), pat, n)
    ensures h.r.consumed + n + |pat| <= |h.r.buf| && IsBoundary(h.r.buf, h.r.consumed + n + |pat|)
  {
    hide TextSound, IsUtf8, IsBoundary, OccursAt;
    OccursInside(Unread(h.r), pat, n);
    OccursInSuffix(h.r.buf, pat, h.r.consumed, n);
    MatchOnBoundaries(h.r.buf, pat, h.r.consumed + n);
  }

  /** A round finds the first occurrence and takes the text up to its end. */
  lemma RoundTakes(hard: nat, h: Log, from: Option<nat>, pat: Bytes, n: nat, late: bool)
    requires Sound(hard, h) && Bounded(h.r) && !h.r.closed && IsUtf8(pat) && pat != []
    requires Resumable(h.r, from, [pat]) && FirstAt(Unread(h.r), pat, n)
    ensures RoundOf(h.r, from, pat, late) == Found(Hit(h.r.consumed + n, 0))
    ensures Took(h, TakeHit(hard, h, Hit(h.r.consumed + n, 0), pat), n, n + |pat|)
  {
    hide Sound, IsUtf8, IsBoundary, OccursAt, FirstAt, Resumable, RoundOf, Apply, Took, Unread;
    RoundFinds(h.r, from, pat, n, late);
    EndIsLegal(hard, h, pat, n);
    var m: nat := n + |pat|;
    assert h.r.consumed + n + |pat| == h.r.consumed + m;
    TakeLeaves(hard, h, n, m);
  }

  /** The unread text is a suffix of the whole text. */
  lemma UnreadIsEnd(h: Log)
    requires Bounded(h.r)
    ensures Decoded(h)[Cursor(h)..] == Unread(h.r) && |Unread(h.r)| == |Decoded(h)| - Cursor(h)
  {}

  lemma {:induction false} RunAllAppend(hard: nat, s: Machine, a: seq<Action>, b: seq<Action>)
    requires Usable(s)
    ensures RunAll(hard, s, a + b) == RunAll(hard, RunAll(hard, s, a), b)
    decreases |a|
  {
    hide Next;
    if a == [] {
      assert a + b == b;
    } else {
      assert (a + b)[1..] == a[1..] + b;
      RunAllAppend(hard, Next(hard, s, a[0]), a[1..], b);
    }
  }

  lemma RunCons(hard: nat, s: Machine, a: Action, rest: seq<Action>)
    requires Usable(s)
    ensures RunAll(hard, s, [a] + rest) == RunAll(hard, Next(hard, s, a), rest)
  {
    hide Next;
    assert ([a] + rest)[1..] == rest;
  }

  lemma RunOne(hard: nat, s: Machine, a: Action)
    requires Usable(s)
    ensures RunAll(hard, s, [a]) == Next(hard, s, a)
  {
    hide Next;
    assert [a][1..] == [];
  }

  // ------------------------------------------------------------------- three rounds

  predicate Open(s: Machine) { !s.log.r.closed && !s.poisoned }

  /** A sound session whose unread text is `text`, and nothing has closed or panicked. */
  ghost predicate Holds(hard: nat, s: Machine, text: Bytes) {
    Inv(hard, s) && Usable(s) && Open(s) && Unread(s.log.r) == text
  }

  lemma HoldsIsSound(hard: nat, s: Machine, text: Bytes)
    requires Holds(hard, s, text)
    ensures Inv(hard, s) && Sound(hard, s.log) && Bounded(s.log.r) && Open(s) && Unread(s.log.r) == text
  {}

  /** After a round that took `m` bytes. */
  lemma HoldsAfter(hard: nat, s: Machine, text: Bytes, n: nat, m: nat, late: bool)
    requires Holds(hard, s, text)
    requires var t := RunStep(hard, s, late); Took(s.log, t.log, n, m)
    ensures m <= |text| && Holds(hard, RunStep(hard, s, late), text[m..])
  {
    hide Inv, RunStep;
    RunStepKeeps(hard, s, late);
    StaysUnpoisoned(hard, s, late);
  }

  lemma StaysUnpoisoned(hard: nat, s: Machine, late: bool)
    requires Usable(s)
    ensures RunStep(hard, s, late).poisoned == s.poisoned
  {
    hide TurnOf;
  }

  lemma RoundIsStep(hard: nat, s: Machine, late: bool)
    requires Usable(s) && Open(s)
    ensures Next(hard, s, RunRound(late)) == RunStep(hard, s, late)
  {
    hide RunStep;
  }

  /** Text without the marker of `k`, then the framing of `k`: that is where it is found. */
  lemma MarkerFirst(u: Bytes, k: nat, code: nat, v: Bytes)
    requires forall p :: !OccursAt(u, MarkerPrefix(k), p)
    ensures FirstAt(u + Frame(k, code) + v, MarkerPrefix(k), |u|)
  {
    hide Dec, Frame, MarkerPrefix, OccursAt;
    var m, f := MarkerPrefix(k), Frame(k, code);
    var s := u + f + v;
    assert s == u + (f + v) && s[|u|..] == f + v;
    MarkerInFrame(u, k, code, v);
    FrameStartsWithPrefix(s, |u|, k, code);
    forall p | 0 <= p < |u| ensures !OccursAt(s, m, p) {
      if p + |m| <= |u| { OccursInPrefix(u, f + v, m, p); } else { NoMarkerAcross(s, k, p, |u|); }
    }
  }

  lemma MarkerInFrame(u: Bytes, k: nat, code: nat, v: Bytes)
    ensures var s := u + Frame(k, code) + v;
            OccursAt(s, MarkerPrefix(k), |u|) && s[|u| + |MarkerPrefix(k)|..] == Dec(code) + SUFFIX + v
  {
    hide Dec;
    var m := MarkerPrefix(k);
    var d := Dec(code) + SUFFIX;
    assert Frame(k, code) == m + d;
    hide Frame, MarkerPrefix;
    assert u + (m + d) + v == u + m + (d + v);
  }

  /** Text without an `E`, then the suffix: the suffix is found right behind the text. */
  lemma SuffixFirst(d: Bytes, v: Bytes)
    requires 69 !in d
    ensures FirstAt(d + SUFFIX + v, SUFFIX, |d|)
    ensures (d + SUFFIX + v)[..|d|] == d && (d + SUFFIX + v)[|d| + |SUFFIX|..] == v
  {
    var s, n := d + SUFFIX + v, |d|;
    assert s[n..n + |SUFFIX|] == SUFFIX;
    forall p | 0 <= p < n ensures !OccursAt(s, SUFFIX, p) {
      assert s[p] == d[p];
      if OccursAt(s, SUFFIX, p) { OccursIndex(s, SUFFIX, p, 0); }
    }
  }

  lemma {:induction false} FirstExists(s: Bytes, pat: Bytes, i: nat) returns (n: nat)
    requires OccursAt(s, pat, i)
    ensures FirstAt(s, pat, n)
  {
    if j: nat :| j < i && OccursAt(s, pat, j) {
      n := FirstExists(s, pat, j);
    } else {
      n := i;
    }
  }

  /** The marker's round. */
  lemma MarkerRound(hard: nat, s: Machine, u: Bytes, code: nat, v: Bytes, late: bool)
    requires s.phase.AwaitMarker? && Holds(hard, s, u + Frame(s.phase.k, code) + v)
    requires Resumable(s.log.r, s.phase.from, [MarkerPrefix(s.phase.k)])
    requires forall p :: !OccursAt(u, MarkerPrefix(s.phase.k), p)
    ensures Usable(s)
    ensures var t := RunStep(hard, s, late);
            Holds(hard, t, Dec(code) + SUFFIX + v) && Cursor(t.log) == Cursor(s.log) + |u| + |MarkerPrefix(s.phase.k)|
            && t == s.(log := t.log, phase := AwaitSuffix(s.phase.k, None, s.log.r.dropped))
            && t.log.r.dropped == s.log.r.dropped && t.log.r.pending == s.log.r.pending
    ensures var o := RoundOf(s.log.r, s.phase.from, MarkerPrefix(s.phase.k), late);
            o.Found? && s.log.r.buf[s.log.r.consumed..o.hit.pos] == u
  {
    hide Holds, Sound, Inv, OccursAt, FirstAt, Frame, MarkerPrefix, Apply, TakeHit, RoundOf, IsUtf8, Resumable, Dec, Unread;
    var text := u + Frame(s.phase.k, code) + v;
    HoldsIsSound(hard, s, text);
    MarkersAreUtf8(s.phase.k);
    MarkerFirst(u, s.phase.k, code, v);
    MarkerInFrame(u, s.phase.k, code, v);
    RoundTakes(hard, s.log, s.phase.from, MarkerPrefix(s.phase.k), |u|, late);
    HoldsAfter(hard, s, text, |u|, |u| + |MarkerPrefix(s.phase.k)|, late);
    assert text[..|u|] == u && s.done + [] == s.done;
  }

  /** The suffix's round: whatever precedes the suffix is parsed. */
  lemma SuffixRound(hard: nat, s: Machine, d: Bytes, code: int, v: Bytes, late: bool)
    requires s.phase.AwaitSuffix? && Holds(hard, s, d + SUFFIX + v) && Resumable(s.log.r, s.phase.from, [SUFFIX])
    requires 69 !in d && ParseCode(d) == Some(code)
    ensures Usable(s)
    ensures var t := RunStep(hard, s, late);
            var intact := s.log.r.dropped == s.phase.droppedAt;
            Holds(hard, t, v) && t.log.r.pending == s.log.r.pending
            && t == s.(log := t.log, phase := AwaitPrompt(s.phase.k, None, code, Cursor(s.log), intact))
  {
    hide Holds, Sound, Inv, OccursAt, FirstAt, Apply, TakeHit, RoundOf, IsUtf8, Resumable, ParseCode, Unread;
    HoldsIsSound(hard, s, d + SUFFIX + v);
    MarkersAreUtf8(0);
    SuffixFirst(d, v);
    RoundTakes(hard, s.log, s.phase.from, SUFFIX, |d|, late);
    HoldsAfter(hard, s, d + SUFFIX + v, |d|, |d| + |SUFFIX|, late);
    assert s.done + [] == s.done;
  }

  /** The prompt's round. */
  lemma PromptRound(hard: nat, s: Machine, v: Bytes, n: nat, late: bool)
    requires s.phase.AwaitPrompt? && Holds(hard, s, v) && FirstAt(v, PS1, n) && Resumable(s.log.r, s.phase.from, [PS1])
    ensures Usable(s) && n + |PS1| <= |v|
    ensures var t := RunStep(hard, s, late);
            var o := Returned(s.phase.k, s.phase.code, s.phase.at, s.phase.intact);
            Holds(hard, t, v[n + |PS1|..]) && t.log.r.pending == s.log.r.pending
            && t == s.(log := t.log, phase := Idle, done := s.done + [o])
  {
    hide Holds, Sound, Inv, OccursAt, FirstAt, Apply, TakeHit, RoundOf, IsUtf8, Resumable, Unread;
    HoldsIsSound(hard, s, v);
    MarkersAreUtf8(0);
    RoundTakes(hard, s.log, s.phase.from, PS1, n, late);
    HoldsAfter(hard, s, v, n, n + |PS1|, late);
  }

  /** The undisturbed run: whatever is unread in front of the framing, stale framings and
      all, as long as it is not the marker itself; whatever follows, as long as a prompt
      comes. Three rounds return exactly the code that was printed, and nothing else, even
      if every deadline has passed by then; the text the first of them yields is what
      stood in front of the framing. */
  lemma RunReturnsItsCode(
      hard: nat, s: Machine, u: Bytes, code: nat, v: Bytes, prompt: nat, late0: bool, late1: bool, late2: bool)
    requires s.phase.AwaitMarker? && Holds(hard, s, u + Frame(s.phase.k, code) + v)
    requires Resumable(s.log.r, s.phase.from, [MarkerPrefix(s.phase.k)])
    requires forall p :: !OccursAt(u, MarkerPrefix(s.phase.k), p)
    requires code < 0x8000_0000 && OccursAt(v, PS1, prompt)
    ensures Usable(s)
    ensures var t := RunAll(hard, s, [RunRound(late0), RunRound(late1), RunRound(late2)]);
            t.phase == Idle
            && t.done == s.done + [Returned(s.phase.k, code, Cursor(s.log) + |u| + |MarkerPrefix(s.phase.k)|, true)]
    ensures var o := RoundOf(s.log.r, s.phase.from, MarkerPrefix(s.phase.k), late0);
            o.Found? && s.log.r.buf[s.log.r.consumed..o.hit.pos] == u
  {
    hide Holds, OccursAt, FirstAt, Frame, MarkerPrefix, RunStep, RoundOf, Resumable, Dec, ParseCode, RunAll;
    MarkerRound(hard, s, u, code, v, late0);
    var s1 := RunStep(hard, s, late0);
    CodeOfDigits(code);
    DecPlain(code);
    FreshCallResumes(s1.log.r, [SUFFIX]);
    SuffixRound(hard, s1, Dec(code), code, v, late1);
    var s2 := RunStep(hard, s1, late1);
    var n := FirstExists(v, PS1, prompt);
    FreshCallResumes(s2.log.r, [PS1]);
    PromptRound(hard, s2, v, n, late2);
    ThreeRounds(hard, s, u + Frame(s.phase.k, code) + v, Dec(code) + SUFFIX + v, v, late0, late1, late2);
  }

  lemma ThreeRounds(hard: nat, s: Machine, a: Bytes, b: Bytes, c: Bytes, late0: bool, late1: bool, late2: bool)
    requires Holds(hard, s, a) && Usable(s) && Holds(hard, RunStep(hard, s, late0), b)
    requires Holds(hard, RunStep(hard, RunStep(hard, s, late0), late1), c)
    ensures RunAll(hard, s, [RunRound(late0), RunRound(late1), RunRound(late2)])
            == RunStep(hard, RunStep(hard, RunStep(hard, s, late0), late1), late2)
  {
    hide RunStep, Next, Inv, RunAll;
    var r0, r1, r2 := RunRound(late0), RunRound(late1), RunRound(late2);
    var s1 := RunStep(hard, s, late0);
    var s2 := RunStep(hard, s1, late1);
    RoundIsStep(hard, s, late0);
    RoundIsStep(hard, s1, late1);
    RoundIsStep(hard, s2, late2);
    assert [r0, r1, r2] == [r0] + [r1, r2] && [r1, r2] == [r1] + [r2];
    RunCons(hard, s, r0, [r1, r2]);
    RunCons(hard, s1, r1, [r2]);
    RunOne(hard, s2, r2);
  }

  // ------------------------------------------------- the output after a timed-out run

  /** A framing of an older run `j`, in text that holds no still older framing behind it. */
  lemma CutBehindFraming(u: Bytes, j: nat, c: nat, x: Bytes, k: nat)
    requires j < k && j < U64_END && forall i :: !Markers.Stale(x, i, k)
    ensures Markers.DropStale(u + Frame(j, c) + x, k) == x
  {
    hide Markers.StaleCut, Dec, FramingAt;
    var s, cut := u + Frame(j, c) + x, |u| + |Frame(j, c)|;
    ValueOfDec(j);
    var part := Markers.Part([], Dec(j), Dec(c));
    Markers.FramingTextAt(u, part, x);
    assert s[cut..] == x;
    Markers.StaleInSuffix(s, cut, k);
    forall i | |u| < i ensures !Markers.Stale(s, i, k) {
      if i < cut {
        FramingHasNoPrefix(s, |u|, i);
        Markers.NoPrefixNoFraming(s, i, i);
      } else {
        assert !Markers.Stale(x, i - cut, k) && i == cut + (i - cut);
      }
    }
    assert Markers.Stale(s, |u|, k);
    Markers.StaleCutUnique(s, k, cut);
  }

  ghost predicate PlainAscii(s: Bytes) {
    Output.ESC !in s && forall i :: 0 <= i < |s| ==> s[i] < 0x80
  }

  /** A framing holds neither control characters nor line ends. */
  lemma FramePrintable(k: nat, code: nat)
    ensures var f := Frame(k, code); f != [] && forall i :: 0 <= i < |f| ==> 48 <= f[i] < 0x80
  {}

  lemma StripAroundFrame(u: Bytes, j: nat, c: nat, x: Bytes)
    requires PlainAscii(u) && PlainAscii(x)
    ensures Output.StripControl(u + Frame(j, c) + x) == Output.StripControl(u) + Frame(j, c) + Output.StripControl(x)
  {
    hide Frame, Output.ReplaceCrLf, Output.StripControl;
    FramePrintable(j, c);
    var f := Frame(j, c);
    assert u + f + x == u + (f + x);
    Output.StripAscii(u + f + x);
    Output.StripAscii(u);
    Output.StripAscii(x);
    Output.ReplaceCut(u, f + x);
    ReplaceBehind(f, x);
  }

  lemma {:induction false} ReplaceBehind(f: Bytes, x: Bytes)
    requires f != [] && 13 !in f
    ensures Output.ReplaceCrLf(f + x) == f + Output.ReplaceCrLf(x)
    decreases |f|
  {
    assert (f + x)[1..] == f[1..] + x;
    if |f| == 1 {
      assert f[1..] + x == x;
    } else {
      ReplaceBehind(f[1..], x);
      assert [f[0]] + (f[1..] + Output.ReplaceCrLf(x)) == f + Output.ReplaceCrLf(x);
    }
  }

  /** The output of a run after a timed-out one. What precedes its marker may hold the
      late framing of an older run `j`, with that run's leftover output `u` in front. Of
      plain ASCII, exactly what was printed since is reported, line ends replaced, as long
      as no still older framing follows in it. */
  lemma LateFramingDropped(u: Bytes, j: nat, c: nat, x: Bytes, k: nat)
    requires j < k && j < U64_END && PlainAscii(u) && PlainAscii(x)
    requires forall i :: !Markers.Stale(Output.StripControl(x), i, k)
    ensures Markers.DropStale(Output.StripControl(u + Frame(j, c) + x), k) == Output.StripControl(x)
  {
    hide *;
    StripAroundFrame(u, j, c, x);
    CutBehindFraming(Output.StripControl(u), j, c, Output.StripControl(x), k);
  }
}
