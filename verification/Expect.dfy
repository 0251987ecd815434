/** Waiting for a pattern. A wait is a schedule: what happens to the buffer between two
    wake-ups, or the deadline. */
module Expect {
  import opened Text
  import opened Utf8
  import opened Decoders
  import opened Search
  import opened Reader

  /** One return from the condition variable, or the deadline found in the past. */
  datatype Wake = Woken(es: seq<Event>) | DeadlinePassed

  /** `Waiting`: the schedule is over and the call still blocks. */
  datatype Outcome =
    | Match(index: nat, matched: Bytes, before: Bytes)
    | Timeout | Eof | Closed | Waiting

  /** One search of the loop in `expect_blocking`; the position is an offset in `buf`. */
  function Scan(r: State, from: Option<nat>, pats: seq<Bytes>): (hit: Option<Hit>)
    requires Bounded(r)
  {
    var remembered := match from case Some(f) => f case None => r.consumed;
    var f := Min(Max(remembered, r.consumed), |r.buf|);
    Shift(Earliest(r.buf[f..], pats), f)
  }

  lemma ScanBounds(r: State, from: Option<nat>, pats: seq<Bytes>)
    requires Bounded(r)
    ensures match Scan(r, from, pats)
            case Some(hit) => hit.idx < |pats| && r.consumed <= hit.pos && OccursAt(r.buf, pats[hit.idx], hit.pos)
            case None => true
  {
    var remembered := match from case Some(f) => f case None => r.consumed;
    var f := Min(Max(remembered, r.consumed), |r.buf|);
    EarliestIsEarliest(r.buf[f..], pats);
    match Earliest(r.buf[f..], pats)
    case Some(hit) => OccursInSuffix(r.buf, pats[hit.idx], f, hit.pos);
    case None =>
  }

  /** What a match yields and, if it consumes, what it does to the buffer. */
  function Matched(hard: nat, h: Log, pats: seq<Bytes>, consume: bool, hit: Hit): (Log, Outcome)
    requires Bounded(h.r) && hit.idx < |pats| && h.r.consumed <= hit.pos <= |h.r.buf|
  {
    (if consume then Apply(hard, h, Take(hit.pos + |pats[hit.idx]|)) else h,
     Match(hit.idx, pats[hit.idx], h.r.buf[h.r.consumed..hit.pos]))
  }

  /** `expect_blocking` over a schedule, the search resuming at `from`. */
  function ExpectRun(hard: nat, h: Log, from: Option<nat>, pats: seq<Bytes>, consume: bool, wakes: seq<Wake>)
    : (Log, Outcome)
    requires Bounded(h.r)
    decreases |wakes|
  {
    if h.r.closed then (h, Closed)
    else match Scan(h.r, from, pats)
      case Some(hit) => ScanBounds(h.r, from, pats); Matched(hard, h, pats, consume, hit)
      case None =>
        if h.r.eof then (h, Eof)
        else if wakes == [] then (h, Waiting)
        else match wakes[0]
          case DeadlinePassed => (h, Timeout)
          case Woken(es) =>
            ExpectRun(hard, Run(hard, h, es), Some(NextFrom(|h.r.buf|, h.r.consumed, pats)), pats, consume, wakes[1..])
  }

  /** The reference: every wake-up searches all unread text again. */
  function RescanRun(hard: nat, h: Log, pats: seq<Bytes>, consume: bool, wakes: seq<Wake>): (Log, Outcome)
    requires Bounded(h.r)
    decreases |wakes|
  {
    if h.r.closed then (h, Closed)
    else match Earliest(h.r.buf[h.r.consumed..], pats)
      case Some(hit) =>
        ScanBounds(h.r, None, pats);
        Matched(hard, h, pats, consume, Hit(h.r.consumed + hit.pos, hit.idx))
      case None =>
        if h.r.eof then (h, Eof)
        else if wakes == [] then (h, Waiting)
        else match wakes[0]
          case DeadlinePassed => (h, Timeout)
          case Woken(es) => RescanRun(hard, Run(hard, h, es), pats, consume, wakes[1..])
  }

  /** Nothing leaves the front of the buffer during any of the waits. */
  ghost predicate DrainFree(hard: nat, h: Log, wakes: seq<Wake>)
    requires Bounded(h.r)
    decreases |wakes|
  {
    wakes == [] || wakes[0].DeadlinePassed?
    || (var g := Run(hard, h, wakes[0].es); |g.gone| == |h.gone| && DrainFree(hard, g, wakes[1..]))
  }

  /** No unread text before the remembered offset starts a pattern. */
  ghost predicate Resumable(r: State, from: Option<nat>, pats: seq<Bytes>) {
    from.Some? ==>
      forall p, i :: r.consumed <= p < from.value && 0 <= i < |pats| ==> !OccursAt(r.buf, pats[i], p)
  }

  /** A resumable search finds what a full search of the unread text finds. */
  lemma ResumeAgrees(r: State, from: Option<nat>, pats: seq<Bytes>)
    requires Bounded(r) && Resumable(r, from, pats)
    ensures Scan(r, from, pats) == Shift(Earliest(r.buf[r.consumed..], pats), r.consumed)
  {
    var remembered := match from case Some(f) => f case None => r.consumed;
    var f := Min(Max(remembered, r.consumed), |r.buf|);
    var unread := r.buf[r.consumed..];
    hide Earliest;
    forall p, i | 0 <= p < f - r.consumed && 0 <= i < |pats| ensures !OccursAt(unread, pats[i], p) {
      OccursInSuffix(r.buf, pats[i], r.consumed, p);
    }
    SkipNothing(unread, pats, f - r.consumed);
    assert unread[f - r.consumed..] == r.buf[f..];
  }

  /** At one wake-up, exactly when the remembered offset does no harm. */
  lemma ScanAgreesExactly(r: State, f: nat, pats: seq<Bytes>)
    requires Bounded(r) && forall i :: 0 <= i < |pats| ==> pats[i] != []
    ensures Scan(r, Some(f), pats) == Scan(r, None, pats) <==> Resumable(r, Some(f), pats)
  {
    hide Earliest, OccursAt;
    FreshCallResumes(r, pats);
    ResumeAgrees(r, None, pats);
    if Resumable(r, Some(f), pats) {
      ResumeAgrees(r, Some(f), pats);
    } else {
      var p, i :| r.consumed <= p < f && 0 <= i < |pats| && OccursAt(r.buf, pats[i], p);
      OccursInside(r.buf, pats[i], p);
      OccursInSuffix(r.buf, pats[i], r.consumed, p - r.consumed);
      EarliestAtMost(r.buf[r.consumed..], pats, i, p - r.consumed);
    }
  }

  lemma FreshCallResumes(r: State, pats: seq<Bytes>)
    ensures Resumable(r, None, pats)
  {}

  /** A wait is safe when nothing in the bytes that the next search skips can have become a
      match: in particular when nothing is drained. */
  ghost predicate SafeWait(h: Log, g: Log, pats: seq<Bytes>)
    requires Bounded(h.r)
  {
    NoHit(h.r.buf[h.r.consumed..], pats) ==>
      StaleSafe(h.r.buf, h.r.consumed, Max(|g.gone| - |h.gone|, 0), Max(Cursor(g) - |h.gone|, 0), pats)
  }

  ghost predicate SafeWaits(hard: nat, h: Log, pats: seq<Bytes>, wakes: seq<Wake>)
    requires Bounded(h.r)
    decreases |wakes|
  {
    wakes == [] || wakes[0].DeadlinePassed?
    || (var g := Run(hard, h, wakes[0].es); SafeWait(h, g, pats) && SafeWaits(hard, g, pats, wakes[1..]))
  }

  /** Where the buffers of two moments overlap. */
  lemma LaterBuffer(h: Log, g: Log) returns (t: Bytes)
    requires Continues(h, g) && Bounded(h.r) && Bounded(g.r)
    ensures var d, e := |g.gone| - |h.gone|, Cursor(g) - |h.gone|;
            && d >= 0 && h.r.consumed <= e == d + g.r.consumed && e <= |h.r.buf| + |t|
            && g.r.buf == (h.r.buf + t)[d..]
  {
    t := Decoded(g)[|Decoded(h)|..];
    assert Decoded(g) == h.gone + (h.r.buf + t);
    assert Decoded(g)[|h.gone|..] == h.r.buf + t;
    assert Decoded(g)[|g.gone|..] == g.r.buf == Decoded(g)[|h.gone|..][|g.gone| - |h.gone|..];
  }

  /** After an unsuccessful search and a safe wait the search may resume. */
  lemma SafeWaitResumes(h: Log, g: Log, pats: seq<Bytes>)
    requires Bounded(h.r) && Bounded(g.r) && Continues(h, g)
    requires NoHit(h.r.buf[h.r.consumed..], pats) && SafeWait(h, g, pats)
    ensures Resumable(g.r, Some(NextFrom(|h.r.buf|, h.r.consumed, pats)), pats)
  {
    hide OccursAt, StaleSafe, NextFrom, Continues, NoHit;
    var t := LaterBuffer(h, g);
    var d, e := |g.gone| - |h.gone|, Cursor(g) - |h.gone|;
    forall p, i | g.r.consumed <= p < NextFrom(|h.r.buf|, h.r.consumed, pats) && 0 <= i < |pats|
      ensures !OccursAt(g.r.buf, pats[i], p)
    {
      SkippedIsEmpty(h.r.buf, h.r.consumed, d, e, pats, t, p, i);
    }
  }

  /** Before the place where the next search starts, what could grow is already there. */
  lemma GrownIsThere(buf: Bytes, c: nat, pats: seq<Bytes>, p: nat, i: nat)
    requires c <= p < NextFrom(|buf|, c, pats) && i < |pats| && c <= |buf|
    ensures CanGrow(buf, p, pats[i]) ==> OccursAt(buf[c..], pats[i], p - c)
  {
    if CanGrow(buf, p, pats[i]) {
      assert buf[p..p + |pats[i]|] == pats[i];
      OccursInSuffix(buf, pats[i], c, p - c);
    }
  }

  /** A wait without a drain is safe. */
  lemma NoDrainIsSafe(h: Log, g: Log, pats: seq<Bytes>)
    requires Bounded(h.r) && Continues(h, g) && |g.gone| == |h.gone|
    ensures SafeWait(h, g, pats)
  {
    var buf, c, e := h.r.buf, h.r.consumed, Cursor(g) - |h.gone|;
    NoDrainGrows(h, g);
    if NoHit(buf[c..], pats) {
      forall p, i | e <= p < NextFrom(|buf|, c, pats) && 0 <= i < |pats| ensures !CanGrow(buf, p, pats[i]) {
        GrownIsThere(buf, c, pats, p, i);
        assert !OccursAt(buf[c..], pats[i], p - c);
      }
    }
  }

  lemma {:induction false} DrainFreeIsSafe(hard: nat, h: Log, pats: seq<Bytes>, wakes: seq<Wake>)
    requires Sound(hard, h) && DrainFree(hard, h, wakes)
    ensures SafeWaits(hard, h, pats, wakes)
    decreases |wakes|
  {
    hide Run, SafeWait, TextSound, IsUtf8, IsBoundary, Continues;
    if wakes != [] && wakes[0].Woken? {
      var g := Run(hard, h, wakes[0].es);
      RunSound(hard, h, wakes[0].es);
      RunContinues(hard, h, wakes[0].es);
      NoDrainIsSafe(h, g, pats);
      DrainFreeIsSafe(hard, g, pats, wakes[1..]);
    }
  }

  /** Incremental search refines a full rescan at every wake-up, in every call whose waits
      are safe: same state, same match, same text before it. */
  lemma {:induction false} IncrementalIsRescan(
      hard: nat, h: Log, from: Option<nat>, pats: seq<Bytes>, consume: bool, wakes: seq<Wake>)
    requires Sound(hard, h) && Resumable(h.r, from, pats) && SafeWaits(hard, h, pats, wakes)
    ensures ExpectRun(hard, h, from, pats, consume, wakes) == RescanRun(hard, h, pats, consume, wakes)
    decreases |wakes|
  {
    hide TextSound, IsUtf8, IsBoundary, Run, Earliest, Scan, Resumable, Matched, SafeWait, NextFrom, Continues;
    SoundIsBounded(hard, h);
    ResumeAgrees(h.r, from, pats);
    EarliestIsEarliest(h.r.buf[h.r.consumed..], pats);
    if !h.r.closed && Scan(h.r, from, pats).None? && !h.r.eof && wakes != [] && wakes[0].Woken? {
      var g := Run(hard, h, wakes[0].es);
      RunSound(hard, h, wakes[0].es);
      RunContinues(hard, h, wakes[0].es);
      SafeWaitResumes(h, g, pats);
      IncrementalIsRescan(hard, g, Some(NextFrom(|h.r.buf|, h.r.consumed, pats)), pats, consume, wakes[1..]);
    }
  }

  // ------------------------------------------------------- rebasing the offset

  /** `expect_blocking` with one change: the remembered offset moves with the buffer when
      its front is drained. */
  function RebasedRun(hard: nat, h: Log, from: Option<nat>, pats: seq<Bytes>, consume: bool, wakes: seq<Wake>)
    : (Log, Outcome)
    requires Bounded(h.r)
    decreases |wakes|
  {
    if h.r.closed then (h, Closed)
    else match Scan(h.r, from, pats)
      case Some(hit) => ScanBounds(h.r, from, pats); Matched(hard, h, pats, consume, hit)
      case None =>
        if h.r.eof then (h, Eof)
        else if wakes == [] then (h, Waiting)
        else match wakes[0]
          case DeadlinePassed => (h, Timeout)
          case Woken(es) =>
            var g := Run(hard, h, es);
            RebasedRun(hard, g, Some(Rebased(h, g, pats)), pats, consume, wakes[1..])
  }

  function Rebased(h: Log, g: Log, pats: seq<Bytes>): nat {
    Max(NextFrom(|h.r.buf|, h.r.consumed, pats) - (|g.gone| - |h.gone|), 0)
  }

  lemma RebasedResumes(h: Log, g: Log, pats: seq<Bytes>)
    requires Bounded(h.r) && Bounded(g.r) && Continues(h, g) && NoHit(h.r.buf[h.r.consumed..], pats)
    ensures Resumable(g.r, Some(Rebased(h, g, pats)), pats)
  {
    hide OccursAt, NextFrom, Continues, NoHit;
    var t := LaterBuffer(h, g);
    var d := |g.gone| - |h.gone|;
    forall p, i | g.r.consumed <= p < Rebased(h, g, pats) && 0 <= i < |pats| ensures !OccursAt(g.r.buf, pats[i], p) {
      NothingBehind(h.r.buf, t, h.r.consumed, pats, d + p, i);
      OccursInSuffix(h.r.buf + t, pats[i], d, p);
    }
  }

  /** With the offset rebased, the incremental search is the full rescan in every call,
      whatever is drained while it waits. */
  lemma {:induction false} RebasedIsRescan(
      hard: nat, h: Log, from: Option<nat>, pats: seq<Bytes>, consume: bool, wakes: seq<Wake>)
    requires Sound(hard, h) && Resumable(h.r, from, pats)
    ensures RebasedRun(hard, h, from, pats, consume, wakes) == RescanRun(hard, h, pats, consume, wakes)
    decreases |wakes|
  {
    hide TextSound, IsUtf8, IsBoundary, Run, Earliest, Scan, Resumable, Matched, Rebased, Continues;
    SoundIsBounded(hard, h);
    ResumeAgrees(h.r, from, pats);
    EarliestIsEarliest(h.r.buf[h.r.consumed..], pats);
    if !h.r.closed && Scan(h.r, from, pats).None? && !h.r.eof && wakes != [] && wakes[0].Woken? {
      var g := Run(hard, h, wakes[0].es);
      RunSound(hard, h, wakes[0].es);
      RunContinues(hard, h, wakes[0].es);
      RebasedResumes(h, g, pats);
      RebasedIsRescan(hard, g, Some(Rebased(h, g, pats)), pats, consume, wakes[1..]);
    }
  }

  // ----------------------------------------------------------- what a call yields

  /** Patterns are Rust strings, and an empty one matches before any offset is kept. */
  ghost predicate Patterns(from: Option<nat>, pats: seq<Bytes>) {
    forall i :: 0 <= i < |pats| ==> IsUtf8(pats[i]) && (from.Some? ==> pats[i] != [])
  }

  /** Every slice and every advance of `expect_blocking` falls between characters. */
  lemma MatchIsLegal(r: State, from: Option<nat>, pats: seq<Bytes>)
    requires WellCut(r) && Patterns(from, pats) && Scan(r, from, pats).Some?
    ensures var hit := Scan(r, from, pats).value;
            hit.idx < |pats| && r.consumed <= hit.pos && hit.pos + |pats[hit.idx]| <= |r.buf|
            && IsBoundary(r.buf, hit.pos) && IsBoundary(r.buf, hit.pos + |pats[hit.idx]|)
  {
    hide Earliest, IsUtf8;
    ScanBounds(r, from, pats);
    var hit := Scan(r, from, pats).value;
    if pats[hit.idx] == [] {
      EarliestAtMost(r.buf[r.consumed..], pats, hit.idx, 0);
    } else {
      MatchOnBoundaries(r.buf, pats[hit.idx], hit.pos);
    }
  }

  /** Offset in the decoded text where the unread text of a match began. */
  function MatchStart(g: Log, consume: bool, o: Outcome): int
    requires o.Match?
  {
    Cursor(g) - (if consume then |o.before| + |o.matched| else 0)
  }

  /** A match reports the pattern right behind `before`; a consuming call has moved the
      cursor exactly past both, a peek has not moved it. */
  ghost predicate Reports(g: Log, pats: seq<Bytes>, consume: bool, o: Outcome) {
    match o
    case Match(index, matched, before) =>
      && index < |pats| && matched == pats[index]
      && 0 <= MatchStart(g, consume, o) <= |Decoded(g)|
      && before + matched <= Decoded(g)[MatchStart(g, consume, o)..]
    case Closed => g.r.closed
    case Eof => g.r.eof
    case Timeout => true
    case Waiting => true
  }

  lemma MatchedReports(hard: nat, h: Log, from: Option<nat>, pats: seq<Bytes>, consume: bool)
    requires Sound(hard, h) && Patterns(from, pats) && Scan(h.r, from, pats).Some?
    ensures var hit := Scan(h.r, from, pats).value;
            hit.idx < |pats| && h.r.consumed <= hit.pos <= |h.r.buf|
            && var (g, o) := Matched(hard, h, pats, consume, hit);
               Sound(hard, g) && Continues(h, g) && Reports(g, pats, consume, o)
               && Decoded(g) == Decoded(h) && MatchStart(g, consume, o) == Cursor(h)
  {
    hide Sound, TextSound, BufferSound, WellCut, OccursAt, Patterns, Earliest, IsUtf8, IsBoundary, Scan, Apply, Continues;
    SoundParts(hard, h);
    ScanBounds(h.r, from, pats);
    MatchIsLegal(h.r, from, pats);
    var hit := Scan(h.r, from, pats).value;
    LegalTake(hard, h, hit.pos + |pats[hit.idx]|);
    ContinuesSame(h);
    ApplySound(hard, h, Take(hit.pos + |pats[hit.idx]|));
    ApplyContinues(hard, h, Take(hit.pos + |pats[hit.idx]|));
    TextOfMatch(h, hit.pos, pats[hit.idx]);
  }

  lemma SoundParts(hard: nat, h: Log)
    requires Sound(hard, h)
    ensures Bounded(h.r) && WellCut(h.r) && BufferSound(hard, h)
  {
    hide IsUtf8, IsBoundary, TextSound;
  }

  /** The unread text begins with what a match yields. */
  lemma TextOfMatch(h: Log, pos: nat, pat: Bytes)
    requires h.r.consumed <= pos && OccursAt(h.r.buf, pat, pos)
    ensures h.r.buf[h.r.consumed..pos] + pat <= Decoded(h)[Cursor(h)..]
  {
    assert Decoded(h)[Cursor(h)..] == h.r.buf[h.r.consumed..];
    assert h.r.buf[h.r.consumed..pos] + pat == h.r.buf[h.r.consumed..pos + |pat|];
  }

  lemma LegalTake(hard: nat, h: Log, n: nat)
    requires h.r.consumed <= n <= |h.r.buf| && IsBoundary(h.r.buf, n)
    ensures Apply(hard, h, Take(n)) == h.(r := h.r.(consumed := n), taken := h.taken + n - h.r.consumed)
  {}

  /** Over any schedule of waits, drained or not: the reader's invariant is kept, text
      and cursor only move forward, and the outcome reports what it says. */
  lemma {:induction false} ExpectReports(
      hard: nat, h: Log, from: Option<nat>, pats: seq<Bytes>, consume: bool, wakes: seq<Wake>)
    requires Sound(hard, h) && Patterns(from, pats)
    ensures var (g, o) := ExpectRun(hard, h, from, pats, consume, wakes);
            Sound(hard, g) && Continues(h, g) && Reports(g, pats, consume, o)
    decreases |wakes|
  {
    hide TextSound, IsUtf8, IsBoundary, Run, Earliest, Scan, Matched, Continues;
    ContinuesSame(h);
    if !h.r.closed {
      if Scan(h.r, from, pats).Some? {
        MatchedReports(hard, h, from, pats, consume);
      } else if !h.r.eof && wakes != [] && wakes[0].Woken? {
        var g := Run(hard, h, wakes[0].es);
        RunSound(hard, h, wakes[0].es);
        RunContinues(hard, h, wakes[0].es);
        NoEmptyPattern(h.r, from, pats);
        var next := Some(NextFrom(|h.r.buf|, h.r.consumed, pats));
        ExpectReports(hard, g, next, pats, consume, wakes[1..]);
        ContinuesFurther(h, g, ExpectRun(hard, g, next, pats, consume, wakes[1..]).0);
      }
    }
  }

  lemma ContinuesSame(h: Log)
    ensures Continues(h, h)
  {}

  lemma ContinuesFurther(a: Log, b: Log, c: Log)
    requires Continues(a, b) && Continues(b, c)
    ensures Continues(a, c)
  {}

  /** A search that fails has no empty pattern. */
  lemma NoEmptyPattern(r: State, from: Option<nat>, pats: seq<Bytes>)
    requires Bounded(r) && Scan(r, from, pats).None? && Patterns(from, pats)
    ensures forall f :: Patterns(Some(f), pats)
  {}

  /** Text before the earliest match contains no match. */
  lemma BeforeIsClean(unread: Bytes, pats: seq<Bytes>, hit: Hit, i: nat, p: int)
    requires IsEarliest(unread, pats, hit) && i < |pats| && pats[i] != []
    ensures !OccursAt(unread[..hit.pos], pats[i], p)
  {
    if 0 <= p && p + |pats[i]| <= hit.pos {
      OccursInPrefix(unread[..hit.pos], unread[hit.pos..], pats[i], p);
      assert unread[..hit.pos] + unread[hit.pos..] == unread;
    }
  }

  /** What a full rescan promises: a match is the earliest in the text that was unread,
      with no pattern inside `before`; a call that ends otherwise leaves unread text in
      which nothing matches. */
  ghost predicate FindsEarliest(g: Log, pats: seq<Bytes>, consume: bool, o: Outcome) {
    match o
    case Match(index, _, before) =>
      && 0 <= MatchStart(g, consume, o) <= |Decoded(g)|
      && IsEarliest(Decoded(g)[MatchStart(g, consume, o)..], pats, Hit(|before|, index))
      && before <= Decoded(g)[MatchStart(g, consume, o)..]
      && forall i, p :: 0 <= i < |pats| && pats[i] != [] ==> !OccursAt(before, pats[i], p)
    case Closed => true
    case _ => Bounded(g.r) && NoHit(g.r.buf[g.r.consumed..], pats)
  }

  lemma RescanMatchIsEarliest(hard: nat, h: Log, pats: seq<Bytes>, consume: bool)
    requires Sound(hard, h) && Patterns(None, pats) && Scan(h.r, None, pats).Some?
    ensures var hit := Scan(h.r, None, pats).value;
            hit.idx < |pats| && h.r.consumed <= hit.pos <= |h.r.buf|
            && var (g, o) := Matched(hard, h, pats, consume, hit); FindsEarliest(g, pats, consume, o)
  {
    FreshCallResumes(h.r, pats);
    hide Sound, Earliest, IsUtf8, IsBoundary, Continues, Patterns, Reports, Resumable, Apply;
    SoundIsBounded(hard, h);
    ResumeAgrees(h.r, None, pats);
    MatchedReports(hard, h, None, pats, consume);
    var unread := h.r.buf[h.r.consumed..];
    var hit := Scan(h.r, None, pats).value;
    var (g, o) := Matched(hard, h, pats, consume, hit);
    EarliestIsEarliest(unread, pats);
    hide Scan;
    assert Decoded(h)[Cursor(h)..] == unread;
    assert o.before == unread[..|o.before|];
    forall i, p | 0 <= i < |pats| && pats[i] != [] ensures !OccursAt(o.before, pats[i], p) {
      BeforeIsClean(unread, pats, Hit(|o.before|, hit.idx), i, p);
    }
  }

  lemma {:induction false} RescanFindsEarliest(hard: nat, h: Log, pats: seq<Bytes>, consume: bool, wakes: seq<Wake>)
    requires Sound(hard, h) && Patterns(None, pats)
    ensures var (g, o) := RescanRun(hard, h, pats, consume, wakes); FindsEarliest(g, pats, consume, o)
    decreases |wakes|
  {
    hide TextSound, IsUtf8, IsBoundary, Run, Earliest, Matched, Patterns;
    ResumeAgrees(h.r, None, pats);
    EarliestIsEarliest(h.r.buf[h.r.consumed..], pats);
    hide Scan;
    if !h.r.closed {
      if Scan(h.r, None, pats).Some? {
        RescanMatchIsEarliest(hard, h, pats, consume);
      } else if !h.r.eof && wakes != [] && wakes[0].Woken? {
        RunSound(hard, h, wakes[0].es);
        RescanFindsEarliest(hard, Run(hard, h, wakes[0].es), pats, consume, wakes[1..]);
      }
    }
  }

  /** The promise of `expect_blocking`, for every call whose waits are safe. */
  lemma ExpectFindsEarliest(hard: nat, h: Log, pats: seq<Bytes>, consume: bool, wakes: seq<Wake>)
    requires Sound(hard, h) && Patterns(None, pats) && SafeWaits(hard, h, pats, wakes)
    ensures var (g, o) := ExpectRun(hard, h, None, pats, consume, wakes); FindsEarliest(g, pats, consume, o)
  {
    hide *;
    FreshCallResumes(h.r, pats);
    IncrementalIsRescan(hard, h, None, pats, consume, wakes);
    RescanFindsEarliest(hard, h, pats, consume, wakes);
  }

  // ------------------------------------------------------- the trailing text of a peek

  /** Whether the trailing peek is legal, read off the text: it starts at its end, or at a
      byte that is no continuation byte. */
  lemma PeekLegalExactly(hard: nat, h: Log, n: nat)
    requires Sound(hard, h)
    ensures PeekLegal(h.r, n) <==>
            Cursor(h) + n >= |Decoded(h)| || !IsTail(Decoded(h)[Cursor(h) + n])
  {
    hide Lossy, TailLen;
    var i := h.r.consumed + n;
    if i < |h.r.buf| {
      assert Decoded(h)[|h.gone| + i] == h.r.buf[i];
      if i == 0 { Utf8Lead(h.r.buf); }
    }
  }

  lemma DecodedIsUtf8(hard: nat, h: Log)
    requires Sound(hard, h)
    ensures IsUtf8(Decoded(h))
  {
    hide BufferSound, Lossy, IsUtf8;
    LossyIsUtf8(DecodedBytes(h));
  }

  /** A boundary of the text stays one when more text arrives. */
  lemma BoundaryStays(a: Bytes, b: Bytes, i: nat)
    requires IsUtf8(a) && IsUtf8(b) && a <= b && i <= |a| && IsBoundary(a, i)
    ensures i >= |b| || !IsTail(b[i])
  {
    assert b == a + b[|a|..];
    Utf8Append(a, b[|a|..]);
    if i == |a| {
      if i < |b| { Utf8Lead(b[|a|..]); }
    } else if i == 0 {
      Utf8Lead(a);
    }
  }

  /** A trailing peek is legal as long as the cursor has not moved since the match. */
  lemma UnmovedPeekIsLegal(hard: nat, h: Log, g: Log, pats: seq<Bytes>, from: Option<nat>)
    requires Sound(hard, h) && Sound(hard, g) && Continues(h, g) && Cursor(g) == Cursor(h)
    requires Patterns(from, pats) && Scan(h.r, from, pats).Some?
    ensures var hit := Scan(h.r, from, pats).value;
            hit.idx < |pats| && h.r.consumed <= hit.pos && PeekLegal(g.r, hit.pos - h.r.consumed + |pats[hit.idx]|)
  {
    hide IsUtf8, Scan, Patterns, TextSound;
    MatchIsLegal(h.r, from, pats);
    var hit := Scan(h.r, from, pats).value;
    var i := hit.pos + |pats[hit.idx]|;
    DecodedIsUtf8(hard, h);
    DecodedIsUtf8(hard, g);
    PeekLegalExactly(hard, h, i - h.r.consumed);
    PeekLegalExactly(hard, g, i - h.r.consumed);
    assert IsBoundary(Decoded(h), |h.gone| + i);
    BoundaryStays(Decoded(h), Decoded(g), |h.gone| + i);
  }

  /** What `peek_from` returns `n` bytes behind the cursor; `None` is its panic. */
  function PeekText(g: Log, n: nat): Option<Bytes> {
    if PeekLegal(g.r, n) then Some(Decoded(g)[Min(Cursor(g) + n, |Decoded(g)|)..]) else None
  }

  /** `finish_interrupt` joins `before` with what `peek_from` returns `n` bytes behind the
      cursor, `n` being the length of `before` and the match, some time after the peek.
      That is the text behind the match, and no panic, exactly when the cursor has not
      moved since, or nothing stands behind the match. */
  lemma TrailingOfPeek(hard: nat, h: Log, g: Log, pats: seq<Bytes>, from: Option<nat>)
    requires Sound(hard, h) && Sound(hard, g) && Continues(h, g)
    requires Patterns(from, pats) && Scan(h.r, from, pats).Some?
    ensures var hit := Scan(h.r, from, pats).value;
            hit.idx < |pats| && h.r.consumed <= hit.pos
            && var n := hit.pos - h.r.consumed + |pats[hit.idx]|;
               Cursor(h) + n <= |Decoded(g)|
               && (PeekText(g, n) == Some(Decoded(g)[Cursor(h) + n..])
                   <==> Cursor(g) == Cursor(h) || Cursor(h) + n == |Decoded(g)|)
  {
    hide Sound, Scan, Patterns, IsUtf8, PeekLegal, Decoded, Cursor;
    SoundIsBounded(hard, h);
    MatchInText(hard, h, g, pats, from);
    var hit := Scan(h.r, from, pats).value;
    var n := hit.pos - h.r.consumed + |pats[hit.idx]|;
    if Cursor(g) == Cursor(h) { UnmovedPeekIsLegal(hard, h, g, pats, from); }
    PeekLegalExactly(hard, g, n);
    TextsDiffer(Decoded(g), Cursor(h) + n, Cursor(g) + n);
  }

  lemma MatchInText(hard: nat, h: Log, g: Log, pats: seq<Bytes>, from: Option<nat>)
    requires Sound(hard, h) && Continues(h, g) && Patterns(from, pats) && Scan(h.r, from, pats).Some?
    ensures var hit := Scan(h.r, from, pats).value;
            hit.idx < |pats| && h.r.consumed <= hit.pos && Cursor(h) <= Cursor(g)
            && Cursor(h) + (hit.pos - h.r.consumed + |pats[hit.idx]|) <= |Decoded(g)|
  {
    hide TextSound, IsUtf8, Scan, Patterns;
    MatchIsLegal(h.r, from, pats);
  }

  lemma TextsDiffer(t: Bytes, i: nat, j: nat)
    requires i <= |t| && i <= j
    ensures t[Min(j, |t|)..] == t[i..] <==> i == j || i == |t|
  {
    assert |t[Min(j, |t|)..]| == |t| - Min(j, |t|) && |t[i..]| == |t| - i;
  }

  // ------------------------------------------- the remembered offset is not rebased

  lemma {:induction false} AsciiIsUtf8(s: Bytes)
    requires forall k :: 0 <= k < |s| ==> s[k] < 0x80
    ensures IsUtf8(s) && TailLen(s) == 0 && Lossy(s) == s
    decreases |s|
  {
    if s != [] {
      AsciiIsUtf8(s[1..]);
    }
    Utf8Kept(s);
  }

  lemma FilledAscii(r: State, chunk: Bytes)
    requires r.pending == [] && forall k :: 0 <= k < |chunk| ==> chunk[k] < 0x80
    ensures Filled(r, chunk) == r.(buf := r.buf + chunk)
  {
    hide Lossy, TailLen, IsUtf8;
    AsciiIsUtf8(chunk);
    assert [] + chunk == chunk;
    assert chunk[..|chunk|] == chunk && chunk[|chunk|..] == [];
  }

  const END: Bytes := [69, 78, 68]

  function Fill(a: byte, n: nat): Bytes { seq(n, _ => a) }

  /** Full reads of one letter. */
  function Chunks(a: byte, n: nat): seq<Event> {
    if n == 0 then [] else Chunks(a, n - 1) + [Append(Fill(a, CHUNK_SIZE))]
  }

  lemma {:induction false} RunAppended(hard: nat, h: Log, es: seq<Event>, e: Event)
    requires Bounded(h.r)
    ensures Run(hard, h, es + [e]) == Apply(hard, Run(hard, h, es), e)
    decreases |es|
  {
    hide Apply;
    if es == [] {
      assert [e][1..] == [] && [] + [e] == [e];
    } else {
      assert (es + [e])[1..] == es[1..] + [e];
      RunAppended(hard, Apply(hard, h, es[0]), es[1..], e);
    }
  }

  lemma AppendAscii(hard: nat, h: Log, a: byte, n: nat, chunk: Bytes)
    requires h.r == State(Fill(a, n), 0, [], false, false, 0) && n + |chunk| <= hard
    requires forall k :: 0 <= k < |chunk| ==> chunk[k] < 0x80
    ensures Apply(hard, h, Append(chunk)).r == State(Fill(a, n) + chunk, 0, [], false, false, 0)
  {
    hide Lossy, TailLen, Filled, Fill;
    FilledAscii(h.r, chunk);
    FillLength(a, n);
  }

  lemma FillLength(a: byte, n: nat)
    ensures |Fill(a, n)| == n
  {}

  lemma {:induction false} ChunksFill(hard: nat, a: byte, n: nat)
    requires a < 0x80 && n * CHUNK_SIZE <= hard
    ensures Run(hard, START, Chunks(a, n)).r == State(Fill(a, n * CHUNK_SIZE), 0, [], false, false, 0)
  {
    hide Apply, Run;
    if n == 0 {
      NothingRun(hard, a);
    } else {
      ChunksFill(hard, a, n - 1);
      RunAppended(hard, START, Chunks(a, n - 1), Append(Fill(a, CHUNK_SIZE)));
      AppendAscii(hard, Run(hard, START, Chunks(a, n - 1)), a, (n - 1) * CHUNK_SIZE, Fill(a, CHUNK_SIZE));
      assert Fill(a, (n - 1) * CHUNK_SIZE) + Fill(a, CHUNK_SIZE) == Fill(a, n * CHUNK_SIZE);
    }
  }

  lemma NothingRun(hard: nat, a: byte)
    ensures Run(hard, START, Chunks(a, 0)) == START && Fill(a, 0) == []
  {}

  /** A quarter of a megabyte has been read and consumed. */
  function Eaten(a: byte): seq<Event> { Chunks(a, 32) + [Discard] }

  /** The read of `END` triggers the drain. */
  lemma StaleSetup(hard: nat, a: byte)
    requires a < 0x80 && hard == HardCap(1048576)
    ensures var h := Run(hard, START, Eaten(a));
            h.r == State(Fill(a, GC_CONSUMED), GC_CONSUMED, [], false, false, 0)
            && Run(hard, h, [Append(END)]).r == State(END, 0, [], false, false, 0)
  {
    hide Lossy, TailLen, IsUtf8, Filled, Chunks, Fill;
    ChunksFill(hard, a, 32);
    RunAppended(hard, START, Chunks(a, 32), Discard);
    FillLength(a, GC_CONSUMED);
    var h := Run(hard, START, Eaten(a));
    FilledAscii(h.r, END);
    assert (Fill(a, GC_CONSUMED) + END)[GC_CONSUMED..] == END;
    RunAppended(hard, h, [], Append(END));
    assert [] + [Append(END)] == [Append(END)];
  }

  /** A call that waits for `END` while that happens. The rescan matches; the remembered
      offset now points behind the match. */
  lemma StaleWaitMisses(a: byte)
    requires a < 0x80
    ensures var hard := HardCap(1048576);
            var h := Run(hard, START, Eaten(a));
            var wakes := [Woken([Append(END)])];
            RescanRun(hard, h, [END], true, wakes).1 == Match(0, END, [])
            && ExpectRun(hard, h, None, [END], true, wakes).1 == Waiting
  {
    hide Run, Earliest, Apply, HardCap, Eaten, Fill;
    StaleSetup(HardCap(1048576), a);
    FillLength(a, GC_CONSUMED);
    assert Fill(a, GC_CONSUMED)[GC_CONSUMED..] == [];
    EarliestUnique([], [END], None);
    assert END[0..] == END && END[3..] == [];
    assert IsEarliest(END, [END], Hit(0, 0));
    EarliestUnique(END, [END], Some(Hit(0, 0)));
  }
}
