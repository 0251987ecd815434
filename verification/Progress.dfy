/** A run through a history: whatever is printed, read and peeked, and however many rounds
    its expects take, a run that loses no text returns its code once its framing and a
    prompt have arrived. */
module Progress {
  import opened Text
  import opened Utf8
  import opened Framing
  import opened Search
  import opened Reader
  import opened Expect
  import opened Protocol
  import opened Session
  import opened SessionRuns

  // ---------------------------------------------------------- the remembered offset

  /** In front of the remembered offset nothing occurs and nothing can still grow. */
  ghost predicate Settled(r: Reader.State, from: Option<nat>, pat: Bytes) {
    from.Some? ==>
      forall p :: r.consumed <= p < from.value ==> SettledAt(r.buf, pat, p)
  }

  ghost predicate SettledAt(buf: Bytes, pat: Bytes, p: int) {
    p + |pat| <= |buf| && !OccursAt(buf, pat, p)
  }

  lemma SettledResumes(r: Reader.State, from: Option<nat>, pat: Bytes)
    requires Settled(r, from, pat)
    ensures Resumable(r, from, [pat])
  {
    if from.Some? {
      forall p, i | r.consumed <= p < from.value && 0 <= i < 1 ensures !OccursAt(r.buf, [pat][i], p) {
        assert SettledAt(r.buf, pat, p);
      }
    }
  }

  lemma FreshSettled(r: Reader.State, pat: Bytes)
    ensures Settled(r, None, pat)
  {}

  /** After a failed round the offset it remembers is settled. */
  lemma RoundSettles(r: Reader.State, from: Option<nat>, pat: Bytes, late: bool)
    requires Bounded(r) && pat != [] && Settled(r, from, pat) && RoundOf(r, from, pat, late).Again?
    ensures Settled(r, Some(RoundOf(r, from, pat, late).from), pat)
  {
    hide Earliest, OccursAt;
    SettledResumes(r, from, pat);
    ResumeAgrees(r, from, [pat]);
    var unread := r.buf[r.consumed..];
    EarliestIsEarliest(unread, [pat]);
    OnePattern(pat);
    var f := RoundOf(r, from, pat, late).from;
    forall p | r.consumed <= p < f ensures SettledAt(r.buf, pat, p) {
      OccursInSuffix(r.buf, pat, r.consumed, p - r.consumed);
      assert !OccursAt(unread, [pat][0], p - r.consumed);
    }
  }

  lemma OnePattern(pat: Bytes)
    requires pat != []
    ensures MaxPat([pat]) == |pat|
  {
    assert [pat][..0] == [];
  }

  /** It stays settled while text only arrives and the cursor only moves on. */
  lemma StaysSettled(h: Log, g: Log, from: Option<nat>, pat: Bytes)
    requires Settled(h.r, from, pat) && Bounded(h.r) && Continues(h, g) && |g.gone| == |h.gone|
    ensures Settled(g.r, from, pat)
  {
    hide OccursAt, Continues, SettledAt;
    NoDrainGrows(h, g);
    var t := g.r.buf[|h.r.buf|..];
    assert g.r.buf == h.r.buf + t;
    if from.Some? {
      forall p | g.r.consumed <= p < from.value ensures SettledAt(g.r.buf, pat, p) {
        assert SettledAt(h.r.buf, pat, p);
        MoreStaysSettled(h.r.buf, t, pat, p);
      }
    }
  }

  lemma MoreStaysSettled(buf: Bytes, t: Bytes, pat: Bytes, p: nat)
    requires SettledAt(buf, pat, p)
    ensures SettledAt(buf + t, pat, p)
  {
    OccursInPrefix(buf, t, pat, p);
  }

  /** What the run waits for, and where its expect would resume. */
  function Awaited(phase: Phase): Bytes {
    match phase
    case AwaitMarker(k, _) => MarkerPrefix(k)
    case AwaitSuffix(_, _, _) => SUFFIX
    case _ => PS1
  }

  function Remembered(phase: Phase): Option<nat> {
    match phase
    case AwaitMarker(_, from) => from
    case AwaitSuffix(_, from, _) => from
    case AwaitPrompt(_, from, _, _, _) => from
    case Recovering(from) => from
    case _ => None
  }

  ghost predicate PhaseSettled(s: Machine) {
    Settled(s.log.r, Remembered(s.phase), Awaited(s.phase))
  }

  /** While an expect of the run waits, nothing is drained. */
  ghost predicate WaitsUndrained(hard: nat, s: Machine, acts: seq<Action>)
    requires Usable(s)
    decreases |acts|
  {
    acts == [] || (
      var t := Next(hard, s, acts[0]);
      (Remembered(s.phase).Some? ==> |t.log.gone| == |s.log.gone|) && WaitsUndrained(hard, t, acts[1..]))
  }

  lemma TurnSettles(hard: nat, h: Log, phase: Phase, late: bool)
    requires Bounded(h.r) && Settled(h.r, Remembered(phase), Awaited(phase))
    ensures var u := TurnOf(hard, h, phase, late); Settled(u.log.r, Remembered(u.phase), Awaited(u.phase))
  {
    hide Settled, RoundOf, Apply, MarkerPrefix, ParseCode;
    var pat, from := Awaited(phase), Remembered(phase);
    AwaitedNotEmpty(phase);
    if RoundOf(h.r, from, pat, late).Again? { RoundSettles(h.r, from, pat, late); }
    var u := TurnOf(hard, h, phase, late);
    FreshSettled(u.log.r, Awaited(u.phase));
  }

  lemma AwaitedNotEmpty(phase: Phase)
    ensures Awaited(phase) != []
  {}

  /** Anything but a round of the run leaves the run, its results and its consumption alone. */
  lemma OthersKeep(hard: nat, s: Machine, a: Action)
    requires Usable(s) && Lives(s) && !a.RunRound?
    ensures var t := Next(hard, s, a);
            && t.done == s.done && t.log.taken == s.log.taken
            && (t.phase == s.phase || (s.phase == Idle && Remembered(t.phase) == None))
  {
    hide Apply, RoundOf, MayPrint, Frame, PeekLegal, MarkerPrefix;
    OthersTake(hard, s, a);
  }

  lemma OthersTake(hard: nat, s: Machine, a: Action)
    requires Usable(s) && Lives(s) && !a.RunRound?
    ensures Next(hard, s, a).log.taken == s.log.taken
  {
    hide Apply, RoundOf, MayPrint, Frame, PeekLegal;
    var t := Next(hard, s, a);
    if a.Read? && 0 < a.n <= |s.wire| { PassiveTaken(hard, s.log, Append(s.wire[..a.n])); }
    PassiveTaken(hard, s.log, MarkEof);
    PassiveTaken(hard, s.log, NotifyClose);
  }

  lemma NextSettles(hard: nat, s: Machine, a: Action)
    requires Inv(hard, s) && Usable(s) && Lives(s) && PhaseSettled(s)
    requires Remembered(s.phase).Some? ==> |Next(hard, s, a).log.gone| == |s.log.gone|
    ensures PhaseSettled(Next(hard, s, a))
  {
    hide Inv, Next, Settled, Continues, Awaited, TurnOf;
    var t := Next(hard, s, a);
    if a.RunRound? {
      RunRoundIs(hard, s, a.late);
      TurnSettles(hard, s.log, s.phase, a.late);
    } else {
      OthersKeep(hard, s, a);
      NextContinues(hard, s, a);
      if Remembered(s.phase).Some? { StaysSettled(s.log, t.log, Remembered(s.phase), Awaited(s.phase)); }
      FreshSettled(t.log.r, Awaited(t.phase));
    }
  }

  lemma RunRoundIs(hard: nat, s: Machine, late: bool)
    requires Usable(s) && !s.poisoned
    ensures var u, t := TurnOf(hard, s.log, s.phase, late), Next(hard, s, RunRound(late));
            t.log == u.log && t.phase == u.phase && t.done == s.done + u.returned
  {
    hide TurnOf;
  }

  // ------------------------------------------------------------------ on its way

  /** What arrives for run `k`, from offset `c0` of the decoded text on: text without its
      marker, its framing, and text with a prompt. */
  datatype Arrival = Arrival(c0: nat, u: Bytes, k: nat, code: nat, v: Bytes, prompt: nat)

  ghost predicate Arrives(text: Bytes, x: Arrival) {
    && x.c0 <= |text| && text[x.c0..] == x.u + Frame(x.k, x.code) + x.v
    && (forall p :: !OccursAt(x.u, MarkerPrefix(x.k), p))
    && x.code < 0x8000_0000 && OccursAt(x.v, PS1, x.prompt)
  }

  /** Offset of the digits. */
  function Digits(x: Arrival): nat { x.c0 + |x.u| + |MarkerPrefix(x.k)| }

  function Result(x: Arrival): Returned { Returned(x.k, x.code, Digits(x), true) }

  /** The run stands where it should, or has returned its code. */
  ghost predicate OnTheWay(s: Machine, x: Arrival, dropped: nat) {
    || Result(x) in s.done
    || (s.phase.AwaitMarker? && s.phase.k == x.k && Cursor(s.log) == x.c0)
    || (s.phase.AwaitSuffix? && s.phase.k == x.k && s.phase.droppedAt == dropped && Cursor(s.log) == Digits(x))
    || (s.phase.AwaitPrompt? && Returned(s.phase.k, s.phase.code, s.phase.at, s.phase.intact) == Result(x)
        && Cursor(s.log) == Digits(x) + |Dec(x.code)| + |SUFFIX|)
  }

  /** A prefix of the text has its first occurrence where the whole text has it. */
  lemma FirstInPrefix(a: Bytes, b: Bytes, pat: Bytes, m: nat, n: nat)
    requires a <= b && FirstAt(b, pat, m) && FirstAt(a, pat, n)
    ensures m == n
  {
    hide OccursAt;
    assert b == a + b[|a|..];
    OccursInside(a, pat, n);
    OccursInPrefix(a, b[|a|..], pat, n);
    if m < n { OccursInPrefix(a, b[|a|..], pat, m); }
  }

  /** A round that may resume and finds something, finds the first occurrence. */
  lemma FoundIsFirst(r: Reader.State, from: Option<nat>, pat: Bytes, late: bool)
    requires Bounded(r) && Settled(r, from, pat) && RoundOf(r, from, pat, late).Found?
    ensures var hit := RoundOf(r, from, pat, late).hit; FirstAt(Unread(r), pat, hit.pos - r.consumed)
    ensures !r.closed && RoundOf(r, from, pat, false) == RoundOf(r, from, pat, late)
  {
    hide Earliest, OccursAt, Settled, Resumable;
    SettledResumes(r, from, pat);
    ResumeAgrees(r, from, [pat]);
    EarliestIsEarliest(Unread(r), [pat]);
    var e := Earliest(Unread(r), [pat]).value;
    forall p | 0 <= p < e.pos ensures !OccursAt(Unread(r), pat, p) { assert !OccursAt(Unread(r), [pat][0], p); }
  }

  /** The cursor's distance from the start of the arrival, and the text from there. */
  lemma UnreadOfText(h: Log, text: Bytes)
    requires Bounded(h.r) && Decoded(h) <= text
    ensures Cursor(h) <= |text| && Unread(h.r) <= text[Cursor(h)..]
  {
    UnreadIsEnd(h);
    assert text[Cursor(h)..][..|Unread(h.r)|] == Decoded(h)[Cursor(h)..];
  }

  /** Where things stand in what arrives. */
  lemma ArrivalText(text: Bytes, x: Arrival)
    requires Arrives(text, x)
    ensures Digits(x) + |Dec(x.code)| + |SUFFIX| <= |text|
    ensures text[Digits(x)..] == Dec(x.code) + SUFFIX + x.v
    ensures text[Digits(x) + |Dec(x.code)| + |SUFFIX|..] == x.v
  {
    hide Dec, Frame, MarkerPrefix, OccursAt;
    MarkerInFrame(x.u, x.k, x.code, x.v);
    FrameLength(x.k, x.code);
    var s := text[x.c0..];
    assert text[Digits(x)..] == s[|x.u| + |MarkerPrefix(x.k)|..];
    var d := Dec(x.code) + SUFFIX;
    assert text[Digits(x) + |d|..] == text[Digits(x)..][|d|..];
  }

  /** A round that finds what it waits for takes the cursor to the end of it. */
  lemma FoundTakes(hard: nat, h: Log, from: Option<nat>, pat: Bytes, late: bool)
    requires Sound(hard, h) && Bounded(h.r) && IsUtf8(pat) && pat != [] && Settled(h.r, from, pat)
    requires RoundOf(h.r, from, pat, late).Found?
    ensures var hit := RoundOf(h.r, from, pat, late).hit;
            var n := hit.pos - h.r.consumed;
            n >= 0 && FirstAt(Unread(h.r), pat, n)
            && Took(h, TakeHit(hard, h, hit, pat), n, n + |pat|)
  {
    hide Sound, IsUtf8, IsBoundary, OccursAt, FirstAt, Settled, RoundOf, Apply, Took, Unread;
    FoundIsFirst(h.r, from, pat, late);
    var hit := RoundOf(h.r, from, pat, late).hit;
    var n: nat := hit.pos - h.r.consumed;
    EndIsLegal(hard, h, pat, n);
    assert h.r.consumed + n + |pat| == h.r.consumed + (n + |pat|) == hit.pos + |pat|;
    TakeLeaves(hard, h, n, n + |pat|);
  }

  /** A round at the marker either finds the run's own framing or waits on. */
  lemma MarkerOnTheWay(hard: nat, s: Machine, text: Bytes, x: Arrival, t: Machine)
    requires Inv(hard, s) && Usable(s) && Lives(s) && PhaseSettled(s) && Decoded(s.log) <= text && Arrives(text, x)
    requires s.phase.AwaitMarker? && s.phase.k == x.k && Cursor(s.log) == x.c0
    requires t == Next(hard, s, RunRound(false))
    ensures OnTheWay(t, x, s.log.r.dropped)
  {
    hide Inv, Sound, OccursAt, FirstAt, Frame, MarkerPrefix, Apply, TakeHit, RoundOf, IsUtf8, Settled, Dec, Unread, Next, Took;
    InvIsSound(hard, s);
    RunRoundIs(hard, s, false);
    RoundLives(s.log.r, s.phase.from, MarkerPrefix(x.k));
    var o := RoundOf(s.log.r, s.phase.from, MarkerPrefix(x.k), false);
    if o.Found? {
      MarkersAreUtf8(x.k);
      FoundTakes(hard, s.log, s.phase.from, MarkerPrefix(x.k), false);
      var n := o.hit.pos - s.log.r.consumed;
      UnreadOfText(s.log, text);
      MarkerFirst(x.u, x.k, x.code, x.v);
      FirstInPrefix(Unread(s.log.r), text[x.c0..], MarkerPrefix(x.k), |x.u|, n);
      TookCursor(s.log, TakeHit(hard, s.log, o.hit, MarkerPrefix(x.k)), n, n + |MarkerPrefix(x.k)|);
    }
  }

  lemma RoundLives(r: Reader.State, from: Option<nat>, pat: Bytes)
    requires Bounded(r) && !r.eof && !r.closed
    ensures var o := RoundOf(r, from, pat, false); o.Found? || o.Again?
  {
    hide Scan;
  }

  lemma TookCursor(h: Log, g: Log, n: nat, m: nat)
    requires Bounded(h.r) && Took(h, g, n, m)
    ensures Cursor(g) == Cursor(h) + m && g.r.dropped == h.r.dropped && Decoded(g) == Decoded(h)
    ensures m <= |Unread(h.r)| && n <= m && h.r.buf[h.r.consumed..h.r.consumed + n] == Unread(h.r)[..n]
  {}

  lemma SuffixOnTheWay(hard: nat, s: Machine, text: Bytes, x: Arrival, t: Machine)
    requires Inv(hard, s) && Usable(s) && Lives(s) && PhaseSettled(s) && Decoded(s.log) <= text && Arrives(text, x)
    requires s.phase.AwaitSuffix? && s.phase.k == x.k && s.phase.droppedAt == s.log.r.dropped && Cursor(s.log) == Digits(x)
    requires t == Next(hard, s, RunRound(false))
    ensures OnTheWay(t, x, s.log.r.dropped)
  {
    hide Inv, Sound, OccursAt, FirstAt, Frame, MarkerPrefix, Apply, TakeHit, RoundOf, IsUtf8, Settled, Dec, Unread, Next, Took,
         ParseCode, Arrives, Digits;
    InvIsSound(hard, s);
    RunRoundIs(hard, s, false);
    RoundLives(s.log.r, s.phase.from, SUFFIX);
    var o := RoundOf(s.log.r, s.phase.from, SUFFIX, false);
    if o.Found? {
      MarkersAreUtf8(0);
      FoundTakes(hard, s.log, s.phase.from, SUFFIX, false);
      var n := o.hit.pos - s.log.r.consumed;
      UnreadOfText(s.log, text);
      ArrivalText(text, x);
      DecPlain(x.code);
      SuffixFirst(Dec(x.code), x.v);
      FirstInPrefix(Unread(s.log.r), text[Digits(x)..], SUFFIX, |Dec(x.code)|, n);
      TookCursor(s.log, TakeHit(hard, s.log, o.hit, SUFFIX), n, n + |SUFFIX|);
      PrefixOfDigits(Unread(s.log.r), text[Digits(x)..], x);
      CodeFits(text, x);
      CodeOfDigits(x.code);
    }
  }

  lemma CodeFits(text: Bytes, x: Arrival)
    requires Arrives(text, x)
    ensures x.code < 0x8000_0000
  {}

  lemma PrefixOfDigits(a: Bytes, b: Bytes, x: Arrival)
    requires a <= b && b == Dec(x.code) + SUFFIX + x.v && |a| >= |Dec(x.code)|
    ensures a[..|Dec(x.code)|] == Dec(x.code)
  {
    hide Dec;
    assert a[..|Dec(x.code)|] == b[..|Dec(x.code)|];
  }

  lemma PromptOnTheWay(hard: nat, s: Machine, x: Arrival, t: Machine)
    requires Inv(hard, s) && Usable(s) && Lives(s)
    requires s.phase.AwaitPrompt? && Returned(s.phase.k, s.phase.code, s.phase.at, s.phase.intact) == Result(x)
    requires Cursor(s.log) == Digits(x) + |Dec(x.code)| + |SUFFIX|
    requires t == Next(hard, s, RunRound(false))
    ensures OnTheWay(t, x, s.log.r.dropped)
  {
    hide Inv, Sound, Frame, MarkerPrefix, Apply, TakeHit, RoundOf, Dec, Next, Digits;
    InvIsSound(hard, s);
    RunRoundIs(hard, s, false);
    RoundLives(s.log.r, s.phase.from, PS1);
  }

  /** One action more. */
  lemma NextOnTheWay(hard: nat, s: Machine, a: Action, text: Bytes, x: Arrival, dropped: nat)
    requires Inv(hard, s) && Usable(s) && Lives(s) && PhaseSettled(s) && Arrives(text, x)
    requires !a.ReadEof? && !a.CloseSession? && a != RunRound(true) && s.log.r.dropped == dropped
    requires var t := Next(hard, s, a); t.log.r.dropped == dropped && Decoded(s.log) <= text
    requires OnTheWay(s, x, dropped)
    ensures OnTheWay(Next(hard, s, a), x, dropped)
  {
    hide Inv, Next, Arrives, Digits, Continues, PhaseSettled, MarkerPrefix, Dec;
    var t := Next(hard, s, a);
    DoneGrows(hard, s, a);
    if Result(x) in s.done {
      ResultStays(s.done, t.done, Result(x));
    } else if a.RunRound? {
      if s.phase.AwaitMarker? {
        MarkerOnTheWay(hard, s, text, x, t);
      } else if s.phase.AwaitSuffix? {
        SuffixOnTheWay(hard, s, text, x, t);
      } else {
        PromptOnTheWay(hard, s, x, t);
      }
    } else {
      OthersKeep(hard, s, a);
      NextContinues(hard, s, a);
      CursorStays(s.log, t.log);
    }
  }

  lemma CursorStays(h: Log, g: Log)
    requires Continues(h, g) && g.taken == h.taken && g.r.dropped == h.r.dropped
    ensures Cursor(g) == Cursor(h)
  {}

  lemma ResultStays(a: seq<Returned>, b: seq<Returned>, o: Returned)
    requires a <= b && o in a
    ensures o in b
  {
    var i :| 0 <= i < |a| && a[i] == o;
    assert b[i] == o;
  }

  lemma DoneGrows(hard: nat, s: Machine, a: Action)
    requires Usable(s)
    ensures s.done <= Next(hard, s, a).done
  {
    hide Apply, TurnOf, RoundOf, MayPrint, Frame, PeekLegal;
  }

  lemma {:induction false} DoneOnlyGrows(hard: nat, s: Machine, acts: seq<Action>)
    requires Usable(s)
    ensures s.done <= RunAll(hard, s, acts).done
    decreases |acts|
  {
    hide Next;
    if acts != [] {
      DoneGrows(hard, s, acts[0]);
      DoneOnlyGrows(hard, Next(hard, s, acts[0]), acts[1..]);
    }
  }

  /** A history in which the reader lives, the run's deadline does not pass, and its waits
      drain nothing. */
  ghost predicate Undisturbed(hard: nat, s: Machine, acts: seq<Action>)
    requires Usable(s)
  {
    && (forall a :: a in acts ==> !a.ReadEof? && !a.CloseSession? && a != RunRound(true))
    && WaitsUndrained(hard, s, acts) && !RunAll(hard, s, acts).poisoned
  }

  /** The remembered offset stays settled, and so may be resumed from, along any history
      in which the run's waits drain nothing. */
  lemma {:induction false} HistorySettles(hard: nat, s: Machine, acts: seq<Action>)
    requires Inv(hard, s) && Usable(s) && Lives(s) && PhaseSettled(s) && Undisturbed(hard, s, acts)
    ensures var t := RunAll(hard, s, acts);
            Inv(hard, t) && Lives(t) && PhaseSettled(t) && Resumable(t.log.r, Remembered(t.phase), [Awaited(t.phase)])
    decreases |acts|
  {
    hide Inv, Next, Settled, Resumable, Awaited, Remembered;
    if acts == [] {
      SettledResumes(s.log.r, Remembered(s.phase), Awaited(s.phase));
    } else {
      var t := Next(hard, s, acts[0]);
      StepLives(hard, s, acts);
      NextSettles(hard, s, acts[0]);
      HistorySettles(hard, t, acts[1..]);
    }
  }

  lemma StepLives(hard: nat, s: Machine, acts: seq<Action>)
    requires Inv(hard, s) && Usable(s) && Lives(s) && acts != [] && Undisturbed(hard, s, acts)
    ensures var t := Next(hard, s, acts[0]); Inv(hard, t) && Lives(t) && Undisturbed(hard, t, acts[1..])
    ensures !acts[0].ReadEof? && !acts[0].CloseSession? && acts[0] != RunRound(true)
  {
    hide Inv, Next;
    assert acts[0] in acts;
    NextKeeps(hard, s, acts[0]);
    NextStaysAlive(hard, s, acts[0]);
    PoisonStays(hard, Next(hard, s, acts[0]), acts[1..]);
  }

  lemma {:induction false} HistoryOnTheWay(hard: nat, s: Machine, acts: seq<Action>, x: Arrival, dropped: nat)
    requires Inv(hard, s) && Usable(s) && Lives(s) && PhaseSettled(s) && Undisturbed(hard, s, acts)
    requires s.log.r.dropped == dropped && OnTheWay(s, x, dropped)
    requires var t := RunAll(hard, s, acts); t.log.r.dropped == dropped && Arrives(Decoded(t.log), x)
    ensures OnTheWay(RunAll(hard, s, acts), x, dropped)
    decreases |acts|
  {
    hide Inv, Next, PhaseSettled, OnTheWay, Arrives, Continues, Undisturbed, Decoded;
    if acts != [] {
      var t := Next(hard, s, acts[0]);
      var end := RunAll(hard, t, acts[1..]);
      StepLives(hard, s, acts);
      RunAllContinues(hard, s, acts);
      NextContinues(hard, s, acts[0]);
      RunAllContinues(hard, t, acts[1..]);
      InBetween(s.log, t.log, end.log);
      StepUndrained(hard, s, acts);
      NextSettles(hard, s, acts[0]);
      NextOnTheWay(hard, s, acts[0], Decoded(end.log), x, dropped);
      HistoryOnTheWay(hard, t, acts[1..], x, dropped);
    }
  }

  lemma StepUndrained(hard: nat, s: Machine, acts: seq<Action>)
    requires Usable(s) && acts != [] && Undisturbed(hard, s, acts)
    ensures Remembered(s.phase).Some? ==> |Next(hard, s, acts[0]).log.gone| == |s.log.gone|
  {
    hide Next, RunAll;
  }

  lemma InBetween(a: Log, b: Log, c: Log)
    requires Continues(a, b) && Continues(b, c)
    ensures a.r.dropped <= b.r.dropped <= c.r.dropped && Decoded(a) <= Decoded(c) && Decoded(b) <= Decoded(c)
  {}

  // ------------------------------------------------------------- and it returns

  /** Once everything has arrived, the rounds that are left return the code. */
  lemma ArrivedReturns(hard: nat, t: Machine, x: Arrival)
    requires Inv(hard, t) && Usable(t) && Lives(t) && PhaseSettled(t)
    requires Arrives(Decoded(t.log), x) && OnTheWay(t, x, t.log.r.dropped)
    ensures Result(x) in RunAll(hard, t, [RunRound(false), RunRound(false), RunRound(false)]).done
  {
    hide Inv, RunAll, Arrives, OnTheWay, PhaseSettled, Holds;
    var r := RunRound(false);
    if Result(x) in t.done {
      DoneOnlyGrows(hard, t, [r, r, r]);
      ResultStays(t.done, RunAll(hard, t, [r, r, r]).done, Result(x));
    } else if t.phase.AwaitMarker? {
      ReturnsFromMarker(hard, t, x);
    } else if t.phase.AwaitSuffix? {
      ReturnsFromSuffix(hard, t, x);
    } else {
      WayIsPrompt(t, x);
      ReturnsFromPrompt(hard, t, x);
    }
  }

  lemma WayIsPrompt(t: Machine, x: Arrival)
    requires OnTheWay(t, x, t.log.r.dropped) && Result(x) !in t.done && !t.phase.AwaitMarker? && !t.phase.AwaitSuffix?
    ensures t.phase.AwaitPrompt?
  {}

  lemma ReturnsFromMarker(hard: nat, t: Machine, x: Arrival)
    requires Inv(hard, t) && Usable(t) && Lives(t) && PhaseSettled(t) && t.phase.AwaitMarker?
    requires Arrives(Decoded(t.log), x) && OnTheWay(t, x, t.log.r.dropped) && Result(x) !in t.done
    ensures Result(x) in RunAll(hard, t, [RunRound(false), RunRound(false), RunRound(false)]).done
  {
    hide Inv, RunAll, MarkerPrefix, OccursAt, Settled, Resumable, RoundOf, Unread, Frame;
    UnreadIsEnd(t.log);
    SettledResumes(t.log.r, t.phase.from, MarkerPrefix(t.phase.k));
    RunReturnsItsCode(hard, t, x.u, x.code, x.v, x.prompt, false, false, false);
  }

  lemma ReturnsFromSuffix(hard: nat, t: Machine, x: Arrival)
    requires Inv(hard, t) && Usable(t) && Lives(t) && PhaseSettled(t) && t.phase.AwaitSuffix?
    requires Arrives(Decoded(t.log), x) && OnTheWay(t, x, t.log.r.dropped) && Result(x) !in t.done
    ensures Result(x) in RunAll(hard, t, [RunRound(false), RunRound(false), RunRound(false)]).done
  {
    hide Inv, RunAll, MarkerPrefix, OccursAt, Settled, Resumable, RoundOf, Unread, Frame, Dec, ParseCode, RunStep, FirstAt, Next;
    ArrivalText(Decoded(t.log), x);
    UnreadIsEnd(t.log);
    SettledResumes(t.log.r, t.phase.from, SUFFIX);
    CodeOfDigits(x.code);
    DecPlain(x.code);
    SuffixRound(hard, t, Dec(x.code), x.code, x.v, false);
    var t1 := RunStep(hard, t, false);
    var n := FirstExists(x.v, PS1, x.prompt);
    FreshCallResumes(t1.log.r, [PS1]);
    PromptRound(hard, t1, x.v, n, false);
    var t2 := RunStep(hard, t1, false);
    RoundIsStep(hard, t, false);
    RoundIsStep(hard, t1, false);
    var r := RunRound(false);
    RoundsThenRest(hard, t, t1, t2);
    ResultStays(t2.done, RunAll(hard, t, [r, r, r]).done, Result(x));
  }

  lemma RoundsThenRest(hard: nat, t: Machine, t1: Machine, t2: Machine)
    requires Usable(t) && Usable(t1) && Usable(t2)
    requires t1 == Next(hard, t, RunRound(false)) && t2 == Next(hard, t1, RunRound(false))
    ensures t2.done <= RunAll(hard, t, [RunRound(false), RunRound(false), RunRound(false)]).done
    ensures t1.done <= RunAll(hard, t, [RunRound(false), RunRound(false), RunRound(false)]).done
  {
    hide Next;
    var r := RunRound(false);
    assert [r, r, r][1..] == [r, r] && [r, r][1..] == [r];
    assert RunAll(hard, t, [r, r, r]) == RunAll(hard, t1, [r, r]);
    assert RunAll(hard, t1, [r, r]) == RunAll(hard, t2, [r]);
    DoneOnlyGrows(hard, t1, [r, r]);
    DoneOnlyGrows(hard, t2, [r]);
  }

  lemma ReturnsFromPrompt(hard: nat, t: Machine, x: Arrival)
    requires Inv(hard, t) && Usable(t) && Lives(t) && PhaseSettled(t) && t.phase.AwaitPrompt?
    requires Arrives(Decoded(t.log), x) && OnTheWay(t, x, t.log.r.dropped) && Result(x) !in t.done
    ensures Result(x) in RunAll(hard, t, [RunRound(false), RunRound(false), RunRound(false)]).done
  {
    hide Inv, RunAll, MarkerPrefix, OccursAt, Settled, Resumable, RoundOf, Unread, Frame, Dec, RunStep, FirstAt, Next;
    ArrivalText(Decoded(t.log), x);
    UnreadIsEnd(t.log);
    SettledResumes(t.log.r, t.phase.from, PS1);
    var n := FirstExists(x.v, PS1, x.prompt);
    PromptRound(hard, t, x.v, n, false);
    var t1 := RunStep(hard, t, false);
    RoundIsStep(hard, t, false);
    var r := RunRound(false);
    RoundsThenRest(hard, t, t1, Next(hard, t1, r));
    assert Result(x) in t1.done;
    ResultStays(t1.done, RunAll(hard, t, [r, r, r]).done, Result(x));
  }

  /** A run returns its code whatever the reads and rounds were. From the moment it waits
      for its marker, through any history in which the shell lives, its deadlines do not
      pass, no trailing peek panics, nothing unread is dropped and its waits drain nothing:
      once its framing and a prompt have arrived, behind text without its marker, its code
      has been returned, or is returned by three rounds more. */
  lemma RunReturnsInTheEnd(hard: nat, s: Machine, acts: seq<Action>, x: Arrival)
    requires Inv(hard, s) && Usable(s) && Lives(s) && s.phase == AwaitMarker(x.k, None) && Cursor(s.log) == x.c0
    requires Undisturbed(hard, s, acts)
    requires var t := RunAll(hard, s, acts); t.log.r.dropped == s.log.r.dropped && Arrives(Decoded(t.log), x)
    ensures var t := RunAll(hard, s, acts);
            Result(x) in RunAll(hard, t, [RunRound(false), RunRound(false), RunRound(false)]).done
  {
    hide Inv, RunAll, Arrives, Undisturbed, Settled, MarkerPrefix, Resumable;
    FreshSettled(s.log.r, MarkerPrefix(x.k));
    HistorySettles(hard, s, acts);
    HistoryOnTheWay(hard, s, acts, x, s.log.r.dropped);
    ArrivedReturns(hard, RunAll(hard, s, acts), x);
  }
}
