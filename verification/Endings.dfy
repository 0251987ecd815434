/** How a run ends: a code is returned only behind the suffix and the prompt, a deadline or
    the end of file returns nothing, and after the end of file no run starts. */
module Endings {
  import opened Text
  import opened Utf8
  import opened Framing
  import opened Reader
  import opened Search
  import opened Expect
  import opened Protocol
  import opened Session
  import opened SessionRuns
  import opened Progress

  // --------------------------------------------------- what stands behind a code

  /** `code` is what parses between `at` and a suffix at `q`. */
  ghost predicate ReadBefore(text: Bytes, at: nat, code: int, q: nat) {
    at <= q && OccursAt(text, SUFFIX, q) && ParseCode(text[at..q]) == Some(code)
  }

  /** Behind that suffix a prompt stands at `p`, in text that has been consumed. */
  ghost predicate EndedAt(text: Bytes, cursor: nat, o: Returned, q: nat, p: nat) {
    && ReadBefore(text, o.at, o.code, q) && q + |SUFFIX| <= p
    && OccursAt(text, PS1, p) && p + |PS1| <= cursor
  }

  ghost predicate Ended(h: Log, o: Returned) {
    exists q: nat, p: nat :: EndedAt(Decoded(h), Cursor(h), o, q, p)
  }

  /** The code is known, its suffix is consumed, and the prompt is not there yet. */
  ghost predicate Read(h: Log, at: nat, code: int) {
    exists q: nat :: ReadBefore(Decoded(h), at, code, q) && q + |SUFFIX| <= Cursor(h)
  }

  ghost predicate EndsSound(s: Machine) {
    && (forall o :: o in s.done ==> Ended(s.log, o))
    && (s.phase.AwaitPrompt? ==> Read(s.log, s.phase.at, s.phase.code))
  }

  lemma ReadBeforeStays(text: Bytes, more: Bytes, at: nat, code: int, q: nat)
    requires ReadBefore(text, at, code, q) && text <= more
    ensures ReadBefore(more, at, code, q)
  {
    hide ParseCode, OccursAt;
    OccursInside(text, SUFFIX, q);
    PrefixOccurs(text, more, SUFFIX, q);
    assert more[at..q] == text[at..q];
  }

  lemma PrefixOccurs(text: Bytes, more: Bytes, pat: Bytes, q: nat)
    requires OccursAt(text, pat, q) && text <= more
    ensures OccursAt(more, pat, q)
  {
    OccursInPrefix(text, more[|text|..], pat, q);
    assert text + more[|text|..] == more;
  }

  lemma EndedStays(h: Log, g: Log, o: Returned)
    requires Ended(h, o) && Decoded(h) <= Decoded(g) && Cursor(h) <= Cursor(g)
    ensures Ended(g, o)
  {
    hide ReadBefore, OccursAt, Decoded, Cursor;
    var q: nat, p: nat :| EndedAt(Decoded(h), Cursor(h), o, q, p);
    ReadBeforeStays(Decoded(h), Decoded(g), o.at, o.code, q);
    PrefixOccurs(Decoded(h), Decoded(g), PS1, p);
    assert EndedAt(Decoded(g), Cursor(g), o, q, p);
  }

  lemma ReadStays(h: Log, g: Log, at: nat, code: int)
    requires Read(h, at, code) && Decoded(h) <= Decoded(g) && Cursor(h) <= Cursor(g)
    ensures Read(g, at, code)
  {
    hide ReadBefore, Decoded, Cursor;
    var q: nat :| ReadBefore(Decoded(h), at, code, q) && q + |SUFFIX| <= Cursor(h);
    ReadBeforeStays(Decoded(h), Decoded(g), at, code, q);
  }

  /** The suffix was found and the text in front of it parsed. */
  lemma SuffixReads(h: Log, log: Log, k: nat, droppedAt: nat, hit: Hit)
    requires Bounded(h.r) && Advanced(h, log, SUFFIX, hit.pos)
    ensures var phase := AfterSuffix(h, k, droppedAt, hit);
            phase.AwaitPrompt? ==> Read(log, phase.at, phase.code)
  {
    hide ParseCode, OccursAt, Decoded;
    var q: nat := |h.gone| + hit.pos;
    var phase := AfterSuffix(h, k, droppedAt, hit);
    if phase.AwaitPrompt? {
      assert ReadBefore(Decoded(log), phase.at, phase.code, q);
    }
  }

  /** The prompt was found. */
  lemma PromptEnds(h: Log, log: Log, o: Returned, pos: nat)
    requires Bounded(h.r) && Advanced(h, log, PS1, pos) && Read(h, o.at, o.code)
    ensures Ended(log, o)
  {
    hide ReadBefore, OccursAt, Decoded;
    var q: nat :| ReadBefore(Decoded(h), o.at, o.code, q) && q + |SUFFIX| <= Cursor(h);
    assert EndedAt(Decoded(log), Cursor(log), o, q, |h.gone| + pos);
  }

  /** A turn returns at most the code that is known, and only on a prompt it has found. */
  lemma TurnEnds(hard: nat, s: Machine, late: bool)
    requires Inv(hard, s) && Usable(s) && EndsSound(s)
    ensures var u := TurnOf(hard, s.log, s.phase, late);
            && (u.phase.AwaitPrompt? ==> Read(u.log, u.phase.at, u.phase.code))
            && forall o :: o in u.returned ==> Ended(u.log, o)
  {
    hide Inv, RoundOf, Read, Ended, TakeHit, Apply, AfterSuffix, Advanced, MarkerPrefix, IsUtf8, Sound;
    InvIsSound(hard, s);
    MarkersAreUtf8(0);
    match s.phase
    case AwaitSuffix(k, from, droppedAt) =>
      var o := RoundOf(s.log.r, from, SUFFIX, late);
      if o.Found? {
        FoundKeeps(hard, s, from, SUFFIX, late);
        SuffixReads(s.log, TakeHit(hard, s.log, o.hit, SUFFIX), k, droppedAt, o.hit);
      }
    case AwaitPrompt(k, from, code, at, intact) =>
      var o := RoundOf(s.log.r, from, PS1, late);
      if o.Found? {
        FoundKeeps(hard, s, from, PS1, late);
        PromptEnds(s.log, TakeHit(hard, s.log, o.hit, PS1), Returned(k, code, at, intact), o.hit.pos);
      }
    case _ =>
  }

  /** What is not a round of the run returns nothing, and gives no run a code. */
  lemma OthersReturnNothing(hard: nat, s: Machine, a: Action)
    requires Usable(s) && (s.poisoned || !a.RunRound?)
    ensures var t := Next(hard, s, a); t.done == s.done && (t.phase.AwaitPrompt? ==> t.phase == s.phase)
  {
    hide Apply, RoundOf, TurnOf, MayPrint, Frame, PeekLegal;
  }

  lemma NextEnds(hard: nat, s: Machine, a: Action)
    requires Inv(hard, s) && Usable(s) && EndsSound(s)
    ensures EndsSound(Next(hard, s, a))
  {
    hide Inv, Next, Ended, Read, Continues, TurnOf;
    var t := Next(hard, s, a);
    NextContinues(hard, s, a);
    ContinuesForward(s.log, t.log);
    forall o | o in s.done ensures Ended(t.log, o) { EndedStays(s.log, t.log, o); }
    if a.RunRound? && !s.poisoned {
      RunRoundIs(hard, s, a.late);
      TurnEnds(hard, s, a.late);
    } else {
      OthersReturnNothing(hard, s, a);
      if t.phase.AwaitPrompt? { ReadStays(s.log, t.log, t.phase.at, t.phase.code); }
    }
  }

  lemma ContinuesForward(h: Log, g: Log)
    requires Continues(h, g)
    ensures Decoded(h) <= Decoded(g) && Cursor(h) <= Cursor(g)
  {}

  lemma {:induction false} RunAllEnds(hard: nat, s: Machine, acts: seq<Action>)
    requires Inv(hard, s) && Usable(s) && EndsSound(s)
    ensures EndsSound(RunAll(hard, s, acts))
    decreases |acts|
  {
    hide Inv, Next, EndsSound;
    if acts != [] {
      NextKeeps(hard, s, acts[0]);
      NextEnds(hard, s, acts[0]);
      RunAllEnds(hard, Next(hard, s, acts[0]), acts[1..]);
    }
  }

  /** No code without its suffix and the prompt. In every history of a session, behind each
      code returned there are, in the text the session has consumed, a suffix in front of
      which exactly that code parses, and behind it a prompt. */
  lemma CodeNeedsPrompt(cap: nat, acts: seq<Action>, o: Returned)
    ensures var s := RunAll(HardCap(cap), INIT, acts);
            o in s.done ==> exists q: nat, p: nat :: EndedAt(Decoded(s.log), Cursor(s.log), o, q, p)
  {
    hide RunAll, HardCap, EndedAt;
    InitInv(HardCap(cap));
    RunAllEnds(HardCap(cap), INIT, acts);
  }

  // ------------------------------------------------------------------- deadlines

  ghost predicate Nowhere(text: Bytes, pat: Bytes) {
    forall p :: !OccursAt(text, pat, p)
  }

  /** A round finds nothing where nothing stands, whatever offset it resumes from. */
  lemma NothingFound(r: Reader.State, from: Option<nat>, pat: Bytes, late: bool)
    requires Bounded(r) && Nowhere(Unread(r), pat)
    ensures var o := RoundOf(r, from, pat, late);
            o == if r.closed then IsClosed else if r.eof then AtEof else if late then Expired
                 else Again(NextFrom(|r.buf|, r.consumed, [pat]))
  {
    hide Scan, OccursAt, NextFrom;
    ScanBounds(r, from, [pat]);
    if Scan(r, from, [pat]).Some? {
      var p := Scan(r, from, [pat]).value.pos;
      OccursInSuffix(r.buf, pat, r.consumed, p - r.consumed);
    }
  }

  /** A run waits for its marker, its suffix or the prompt. */
  predicate Expecting(phase: Phase) { phase.AwaitMarker? || phase.AwaitSuffix? || phase.AwaitPrompt? }

  /** Nothing it waits for is there. */
  ghost predicate WaitsInVain(s: Machine)
    requires Usable(s)
  {
    Expecting(s.phase) && !s.poisoned && Nowhere(Unread(s.log.r), Awaited(s.phase))
  }

  lemma ExpiryTurn(hard: nat, s: Machine)
    requires Usable(s) && WaitsInVain(s) && !s.log.r.eof && !s.log.r.closed
    ensures Next(hard, s, RunRound(true)) == s.(phase := if s.phase.AwaitMarker? then Recovering(None) else Idle)
  {
    hide RoundOf, Apply, MarkerPrefix, TakeHit, Nowhere;
    NothingFound(s.log.r, Remembered(s.phase), Awaited(s.phase), true);
    assert s.done + [] == s.done;
  }

  lemma OverReturnsNothing(hard: nat, s: Machine, t: Machine, acts: seq<Action>, o: Returned)
    requires Inv(hard, s) && Expecting(s.phase) && Usable(t) && t.done == s.done && t.seqno == s.seqno
    requires t.phase.Idle? || t.phase.Recovering?
    ensures o in RunAll(hard, t, acts).done ==> o.k != s.phase.k
  {
    hide RunAll, Inv;
    CurrentRun(hard, s);
    RunAllAbandons(hard, t, acts, s.phase.k);
    var u := RunAll(hard, t, acts);
    if o in u.done {
      var i :| 0 <= i < |u.done| && u.done[i] == o;
    }
  }

  /** A command that times out returns nothing. If its deadline passes while what it waits
      for stands nowhere in the unread text, it goes into its recovery, or gives up behind
      the marker; no code is returned for it then or in any continuation, its framing
      and its prompt included. */
  lemma TimedOutReturnsNothing(hard: nat, s: Machine, acts: seq<Action>, o: Returned)
    requires Inv(hard, s) && Usable(s) && WaitsInVain(s) && !s.log.r.eof && !s.log.r.closed
    ensures var t := Next(hard, s, RunRound(true));
            && t == s.(phase := if s.phase.AwaitMarker? then Recovering(None) else Idle)
            && (o in RunAll(hard, t, acts).done ==> o.k != s.phase.k)
  {
    hide Inv, Next, RunAll, Nowhere;
    ExpiryTurn(hard, s);
    OverReturnsNothing(hard, s, Next(hard, s, RunRound(true)), acts, o);
  }

  /** A command that could not be written uses up its number and returns nothing. */
  lemma UnwrittenReturnsNothing(hard: nat, s: Machine, acts: seq<Action>, o: Returned)
    requires Inv(hard, s) && Usable(s) && s.phase == Idle && !s.dead
    ensures var t := Next(hard, s, StartRun(false));
            t == s.(seqno := s.seqno + 1) && (o in RunAll(hard, t, acts).done ==> o.k != s.seqno)
  {
    hide RunAll, Sound, Origin, Ordered;
    var t := Next(hard, s, StartRun(false));
    RunAllAbandons(hard, t, acts, s.seqno);
    var u := RunAll(hard, t, acts);
    if o in u.done {
      var i :| 0 <= i < |u.done| && u.done[i] == o;
    }
  }

  // ------------------------------------------------------------------ end of file

  /** The session is over: its flags are set and no run is in progress. */
  predicate Over(s: Machine) { s.phase == Idle && s.dead && s.log.r.closed }

  /** The reader is closed, or has ended without what the run waits for. */
  ghost predicate Ends(s: Machine)
    requires Usable(s)
  {
    Expecting(s.phase) && !s.poisoned && (s.log.r.closed || (s.log.r.eof && WaitsInVain(s)))
  }

  lemma DeathTurn(hard: nat, s: Machine, late: bool)
    requires Usable(s) && Ends(s)
    ensures var t := Next(hard, s, RunRound(late)); Over(t) && t.done == s.done && t.seqno == s.seqno
  {
    hide RoundOf, Apply, MarkerPrefix, TakeHit, Nowhere;
    if !s.log.r.closed { NothingFound(s.log.r, Remembered(s.phase), Awaited(s.phase), late); }
    ClosedRound(s.log.r, Remembered(s.phase), Awaited(s.phase), late);
    ApplyAccepts(hard, s.log, NotifyClose);
    assert s.done + [] == s.done;
  }

  lemma ClosedRound(r: Reader.State, from: Option<nat>, pat: Bytes, late: bool)
    requires Bounded(r)
    ensures r.closed ==> RoundOf(r, from, pat, late).IsClosed?
  {
    hide Scan;
  }

  lemma NextOver(hard: nat, s: Machine, a: Action)
    requires Usable(s) && Over(s)
    ensures var t := Next(hard, s, a); Over(t) && t.done == s.done && t.seqno == s.seqno
  {
    hide Apply, RoundOf, MayPrint, Frame, PeekLegal, MarkerPrefix, MarkerTurn, SuffixTurn, PromptTurn, RecoveryTurn;
    ApplyAccepts(hard, s.log, MarkEof);
    ApplyAccepts(hard, s.log, NotifyClose);
    assert s.done + [] == s.done;
  }

  /** After the end of the shell no run starts: when a round finds the reader closed, or the
      file at its end and nothing of what it waits for, the run returns nothing, the
      session is dead, and in every continuation no number is handed out and no code is
      returned. */
  lemma NoRunAfterEnd(hard: nat, s: Machine, late: bool, acts: seq<Action>)
    requires Usable(s) && Ends(s)
    ensures var u := RunAll(hard, Next(hard, s, RunRound(late)), acts);
            Over(u) && u.done == s.done && u.seqno == s.seqno
  {
    hide Next, RunAll, Nowhere;
    DeathTurn(hard, s, late);
    StaysOver(hard, Next(hard, s, RunRound(late)), acts);
  }

  lemma {:induction false} StaysOver(hard: nat, s: Machine, acts: seq<Action>)
    requires Usable(s) && Over(s)
    ensures var u := RunAll(hard, s, acts); Over(u) && u.done == s.done && u.seqno == s.seqno
    decreases |acts|
  {
    hide Next;
    if acts != [] {
      NextOver(hard, s, acts[0]);
      StaysOver(hard, Next(hard, s, acts[0]), acts[1..]);
    }
  }

  /** An interrupt finds the reader closed, or its end without a prompt. */
  ghost predicate PeekEnds(s: Machine)
    requires Usable(s)
  {
    !s.poisoned && (s.log.r.closed || (s.log.r.eof && Nowhere(Unread(s.log.r), PS1)))
  }

  lemma DeathOfPeek(hard: nat, s: Machine, id: nat, late: bool)
    requires Usable(s) && PeekEnds(s)
    ensures var t := Next(hard, s, PeekRound(id, late)); t.dead && t.log.r.closed && t.seqno == s.seqno
  {
    hide RoundOf, Apply, Nowhere;
    var from := if id in s.peeks && s.peeks[id].Waits? then s.peeks[id].from else None;
    if !s.log.r.closed { NothingFound(s.log.r, from, PS1, late); }
    ClosedRound(s.log.r, from, PS1, late);
    ApplyAccepts(hard, s.log, NotifyClose);
  }

  lemma NextDead(hard: nat, s: Machine, a: Action)
    requires Usable(s) && s.dead
    ensures Next(hard, s, a).dead && Next(hard, s, a).seqno == s.seqno
  {
    hide Apply, RoundOf, TurnOf, MayPrint, Frame, PeekLegal;
  }

  lemma {:induction false} StaysDead(hard: nat, s: Machine, acts: seq<Action>)
    requires Usable(s) && s.dead
    ensures RunAll(hard, s, acts).dead && RunAll(hard, s, acts).seqno == s.seqno
    decreases |acts|
  {
    hide Next;
    if acts != [] {
      NextDead(hard, s, acts[0]);
      StaysDead(hard, Next(hard, s, acts[0]), acts[1..]);
    }
  }

  /** Nor after a close, or after an interrupt that found the end: whatever run is in
      progress then, no other one starts in any continuation. */
  lemma NoRunAfterClose(hard: nat, s: Machine, a: Action, acts: seq<Action>)
    requires Usable(s) && (a.CloseSession? || (a.PeekRound? && PeekEnds(s)))
    ensures var u := RunAll(hard, Next(hard, s, a), acts); u.dead && u.seqno == s.seqno
  {
    hide RunAll, Nowhere, Apply;
    if a.PeekRound? { DeathOfPeek(hard, s, a.id, a.late); }
    StaysDead(hard, Next(hard, s, a), acts);
  }
}
