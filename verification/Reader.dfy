/** The shared buffer between the PTY reader thread and the expect calls: its state, the
    operations on it as functions, and what every run keeps. */
module Reader {
  import opened Text
  import opened Utf8
  import opened Decoders

  /** `ReaderState`. The source's `dropped_total` is a u64; here it does not wrap. */
  datatype State = State(buf: Bytes, consumed: nat, pending: Bytes, eof: bool, closed: bool, dropped: nat)

  /** The state together with what happened so far: every byte accepted, every byte of
      decoded text that left the front of the buffer, and how much text was consumed. */
  datatype Log = Log(r: State, accepted: Bytes, gone: Bytes, taken: nat)

  /** Everything that can happen to the buffer. `Take(n)` consumes up to offset `n`. */
  datatype Event = Append(chunk: Bytes) | MarkEof | NotifyClose | Take(n: nat) | Discard

  const GC_CONSUMED := 262144

  /** The buffer of `reader_loop`: no read is longer. */
  const CHUNK_SIZE := 8192

  const MIN_CAP := 65536

  /** `usize::MAX` */
  const USIZE_MAX := 0xFFFF_FFFF_FFFF_FFFF

  /** `ReaderShared::new`: twice the cap in a saturating 64-bit product, at least 65536. */
  function HardCap(outputCap: nat): (hard: nat)
    ensures hard >= MIN_CAP
    ensures 2 * outputCap <= MIN_CAP ==> hard == MIN_CAP
    ensures MIN_CAP <= 2 * outputCap <= USIZE_MAX ==> hard == 2 * outputCap
    ensures 2 * outputCap > USIZE_MAX ==> hard == USIZE_MAX
  {
    Max(Min(2 * outputCap, USIZE_MAX), MIN_CAP)
  }

  const START := Log(State([], 0, [], false, false, 0), [], [], 0)

  /** The decoded text so far, whether or not it is still in the buffer. */
  function Decoded(h: Log): Bytes { h.gone + h.r.buf }

  /** How far into the decoded text the consumers have come. */
  function Cursor(h: Log): nat { |h.gone| + h.r.consumed }

  // ------------------------------------------------------------------ operations

  predicate Bounded(r: State) { r.consumed <= |r.buf| }

  function Drain(r: State, n: nat): State
    requires n <= |r.buf|
  {
    r.(buf := r.buf[n..], consumed := 0)
  }

  function NextBoundary(s: Bytes, i: nat): (j: nat)
    requires i <= |s|
    ensures i <= j <= |s| && IsBoundary(s, j)
    ensures forall k :: i <= k < j ==> !IsBoundary(s, k)
    decreases |s| - i
  {
    if i < |s| && !IsBoundary(s, i) then NextBoundary(s, i + 1) else i
  }

  /** Where `gc` cuts when the unread text alone is over the cap. */
  function FrontCut(buf: Bytes, hard: nat): (cut: nat)
    requires hard <= |buf|
    ensures cut <= |buf|
  {
    NextBoundary(buf, |buf| - hard / 2)
  }

  /** Only the front of the unread text can be dropped; `dropped` counts it. */
  function DropFront(r: State, hard: nat): (g: State)
    requires Bounded(r) && hard <= |r.buf|
    ensures Bounded(g)
  {
    var cut := FrontCut(r.buf, hard);
    Drain(r, cut).(dropped := r.dropped + Max(cut - r.consumed, 0))
  }

  /** The two drains of consumed text in `gc`. */
  function DropRead(r: State, hard: nat): (g: State)
    requires Bounded(r)
    ensures Bounded(g)
  {
    var a := if r.consumed >= GC_CONSUMED then Drain(r, r.consumed) else r;
    if |a.buf| > hard && a.consumed > 0 then Drain(a, a.consumed) else a
  }

  /** `ReaderShared::gc`. */
  function Gc(r: State, hard: nat): (g: State)
    requires Bounded(r)
    ensures Bounded(g)
  {
    var b := DropRead(r, hard);
    if |b.buf| <= hard then b else DropFront(b, hard)
  }

  /** `append` up to its call of `gc`: decode all but the bytes of a split character. */
  function Filled(r: State, chunk: Bytes): (full: State)
    ensures r.buf <= full.buf && full.consumed == r.consumed
  {
    var bytes := r.pending + chunk;
    var split := |bytes| - TailLen(bytes);
    r.(pending := bytes[split..], buf := r.buf + Lossy(bytes[..split]))
  }

  /** What a drain took off the front of `before`. */
  function Lost(before: Bytes, after: Bytes): Bytes {
    before[..Max(|before| - |after|, 0)]
  }

  /** What one call does; calls on a finished reader do nothing. */
  function Apply(hard: nat, h: Log, e: Event): (g: Log)
    requires Bounded(h.r)
    ensures Bounded(g.r)
  {
    match e
    case Append(chunk) =>
      if h.r.closed || h.r.eof then h
      else
        var full := Filled(h.r, chunk);
        var kept := Gc(full, hard);
        Log(kept, h.accepted + chunk, h.gone + Lost(full.buf, kept.buf), h.taken)
    case MarkEof =>
      if h.r.eof then h
      else h.(r := h.r.(pending := [], buf := h.r.buf + Lossy(h.r.pending), eof := true))
    case NotifyClose => h.(r := h.r.(closed := true))
    case Take(n) =>
      if h.r.consumed <= n <= |h.r.buf| && IsBoundary(h.r.buf, n)
      then h.(r := h.r.(consumed := n), taken := h.taken + n - h.r.consumed)
      else h
    case Discard => h.(r := h.r.(consumed := |h.r.buf|), taken := h.taken + |h.r.buf| - h.r.consumed)
  }

  function Run(hard: nat, h: Log, es: seq<Event>): (g: Log)
    requires Bounded(h.r)
    ensures Bounded(g.r)
    decreases |es|
  {
    if es == [] then h else Run(hard, Apply(hard, h, es[0]), es[1..])
  }

  /** `peek_from` slices the buffer `n` bytes behind the cursor; off a character boundary
      the slice panics. */
  predicate PeekLegal(r: State, n: nat) {
    IsBoundary(r.buf, Min(r.consumed + n, |r.buf|))
  }

  // -------------------------------------------------------------------------- gc

  ghost predicate WellCut(r: State) {
    r.consumed <= |r.buf| && IsUtf8(r.buf) && IsBoundary(r.buf, r.consumed)
  }

  /** `g` is `r` after part of the front of the buffer went; unread text that went with
      it is counted. */
  ghost predicate Shortened(r: State, g: State) {
    && |g.buf| <= |r.buf| && g.buf == r.buf[|r.buf| - |g.buf|..]
    && g.pending == r.pending && g.eof == r.eof && g.closed == r.closed
    && r.dropped <= g.dropped
    && |r.buf| - |g.buf| + g.consumed == r.consumed + (g.dropped - r.dropped)
  }

  lemma DrainReadKeeps(r: State)
    requires WellCut(r)
    ensures WellCut(Drain(r, r.consumed)) && Shortened(r, Drain(r, r.consumed))
  {
    Utf8Split(r.buf, r.consumed);
  }

  /** Draining consumed text keeps every unread byte. */
  lemma DropReadKeeps(r: State, hard: nat)
    requires WellCut(r)
    ensures var g := DropRead(r, hard);
            WellCut(g) && Shortened(r, g) && g.dropped == r.dropped
            && |g.buf| - g.consumed == |r.buf| - r.consumed && (|g.buf| > hard ==> g.consumed == 0)
  {
    hide WellCut;
    DrainReadKeeps(r);
    if r.consumed >= GC_CONSUMED {
      DrainReadKeeps(Drain(r, r.consumed));
    }
  }

  lemma ShortenedTwice(r: State, a: State, b: State)
    requires Shortened(r, a) && Shortened(a, b)
    ensures Shortened(r, b)
  {
    assert r.buf[|r.buf| - |a.buf|..][|a.buf| - |b.buf|..] == r.buf[|r.buf| - |b.buf|..];
  }

  /** A front drop leaves half a cap, give or take the bytes of one character. */
  lemma DropFrontSizes(r: State, hard: nat)
    requires WellCut(r) && hard < |r.buf| && r.consumed == 0
    ensures var g := DropFront(r, hard);
            WellCut(g) && Shortened(r, g) && hard / 2 - 3 <= |g.buf| <= hard / 2 && g.consumed == 0
            && g.dropped == r.dropped + |r.buf| - |g.buf|
  {
    hide IsUtf8;
    BoundaryWithinThree(r.buf, |r.buf| - hard / 2);
    Utf8Split(r.buf, FrontCut(r.buf, hard));
  }

  /** What `gc` does to a buffer: it keeps a suffix that fits and is cut between
      characters, every unread byte it loses is counted, and it loses one only when the
      unread text alone is over the cap, leaving half of it. */
  lemma GcEffect(r: State, hard: nat)
    requires WellCut(r)
    ensures var g := Gc(r, hard);
            WellCut(g) && Shortened(r, g) && |g.buf| <= hard
            && (g.dropped > r.dropped <==> |r.buf| - r.consumed > hard)
            && (g.dropped > r.dropped ==> hard / 2 - 3 <= |g.buf| <= hard / 2 && g.consumed == 0)
  {
    hide WellCut, DropFront, DropRead, Shortened;
    DropReadKeeps(r, hard);
    var b := DropRead(r, hard);
    if |b.buf| > hard {
      DropFrontSizes(b, hard);
      ShortenedTwice(r, b, DropFront(b, hard));
    }
  }

  // ------------------------------------------------------------- every run's invariant

  /** How much of the accepted bytes has been decoded. */
  function DecodedBytes(h: Log): Bytes {
    if h.r.eof then h.accepted else h.accepted[..|h.accepted| - TailLen(h.accepted)]
  }

  /** The text is the lossy reading of what was accepted, short of a split character. */
  ghost predicate TextSound(h: Log) {
    && Decoded(h) == Lossy(DecodedBytes(h))
    && h.r.pending == (if h.r.eof then [] else h.accepted[|h.accepted| - TailLen(h.accepted)..])
  }

  /** Consumption stays inside the buffer and between characters, nothing is lost
      without being counted, and the buffer is bounded. */
  ghost predicate BufferSound(hard: nat, h: Log) {
    && WellCut(h.r)
    && |h.gone| + h.r.consumed == h.taken + h.r.dropped
    && |h.r.buf| <= hard + (if h.r.eof then 12 else 0)
  }

  ghost predicate Sound(hard: nat, h: Log) { TextSound(h) && BufferSound(hard, h) }

  lemma SoundIsBounded(hard: nat, h: Log)
    requires Sound(hard, h)
    ensures Bounded(h.r)
  {}

  /** Decoding a chunk after the bytes held back from the last one. */
  lemma DecodeMore(a: Bytes, chunk: Bytes)
    ensures var pending := a[|a| - TailLen(a)..];
            var bytes := pending + chunk;
            var all := a + chunk;
            TailLen(all) == TailLen(bytes)
            && bytes[|bytes| - TailLen(bytes)..] == all[|all| - TailLen(all)..]
            && Lossy(all[..|all| - TailLen(all)])
               == Lossy(a[..|a| - TailLen(a)]) + Lossy(bytes[..|bytes| - TailLen(bytes)])
  {
    hide *;
    var t := TailLen(a);
    var pending, done := a[|a| - t..], a[..|a| - t];
    var bytes, all := pending + chunk, a + chunk;
    TailOfStream(a, chunk);
    var split := |bytes| - TailLen(bytes);
    assert all == done + bytes;
    assert all[..|all| - TailLen(all)] == done + bytes[..split];
    TailCut(a, chunk);
    CutShorter(done, bytes, split);
    LossyAppend(done, bytes[..split]);
  }

  /** A clean cut stays clean when the text behind it is shortened. */
  lemma CutShorter(p: Bytes, x: Bytes, n: nat)
    requires CleanCut(p, x) && n <= |x|
    ensures CleanCut(p, x[..n])
  {
    hide CharLen;
    forall i | 0 <= i < |p| ensures i + CharLen((p + x[..n])[i..]) <= |p| {
      var s, u := (p + x[..n])[i..], (p + x)[i..];
      assert u == s + x[n..];
      CharLenPrefix(s, x[n..]);
    }
  }

  lemma BoundaryAppend(s: Bytes, t: Bytes, i: nat)
    requires IsUtf8(t) && IsBoundary(s, i)
    ensures IsBoundary(s + t, i)
  {
    if i == |s| && t != [] {
      Utf8Lead(t);
    }
  }

  lemma MoreText(r: State, t: Bytes)
    requires WellCut(r) && IsUtf8(t)
    ensures WellCut(r.(buf := r.buf + t))
  {
    Utf8Append(r.buf, t);
    BoundaryAppend(r.buf, t, r.consumed);
  }

  /** The text an append adds. */
  function NewText(r: State, chunk: Bytes): Bytes {
    var bytes := r.pending + chunk;
    Lossy(bytes[..|bytes| - TailLen(bytes)])
  }

  lemma FilledWellCut(r: State, chunk: Bytes)
    requires WellCut(r)
    ensures WellCut(Filled(r, chunk)) && Filled(r, chunk).buf == r.buf + NewText(r, chunk)
  {
    hide Lossy, IsUtf8, IsBoundary, TailLen;
    var bytes := r.pending + chunk;
    LossyIsUtf8(bytes[..|bytes| - TailLen(bytes)]);
    MoreText(r, NewText(r, chunk));
  }

  lemma AppendEffect(hard: nat, h: Log, chunk: Bytes)
    requires BufferSound(hard, h) && !h.r.closed && !h.r.eof
    ensures var g := Apply(hard, h, Append(chunk));
            BufferSound(hard, g)
            && Decoded(g) == Decoded(h) + NewText(h.r, chunk)
            && g.r.pending == Filled(h.r, chunk).pending
            && !g.r.eof && g.accepted == h.accepted + chunk
  {
    hide Lossy, IsUtf8, IsBoundary, TailLen, Gc, NewText;
    FilledWellCut(h.r, chunk);
    var full := Filled(h.r, chunk);
    GcEffect(full, hard);
    var kept := Gc(full, hard);
    assert Lost(full.buf, kept.buf) + kept.buf == full.buf;
    assert (h.gone + Lost(full.buf, kept.buf)) + kept.buf == (h.gone + h.r.buf) + NewText(h.r, chunk);
  }

  /** Memory after an append, to the byte: the buffer fits, unread text is dropped exactly
      when it alone is over the cap, and then half a cap of it is kept. */
  lemma AppendSizes(hard: nat, h: Log, chunk: Bytes)
    requires BufferSound(hard, h) && !h.r.closed && !h.r.eof
    ensures var g := Apply(hard, h, Append(chunk)).r;
            var unread := |h.r.buf| - h.r.consumed + |NewText(h.r, chunk)|;
            && |g.buf| <= hard && |g.pending| <= 3
            && (g.dropped > h.r.dropped <==> unread > hard)
            && (unread > hard ==> hard / 2 - 3 <= |g.buf| <= hard / 2 && g.consumed == 0)
            && (unread > hard ==> g.dropped == h.r.dropped + unread - |g.buf|)
            && (unread <= hard ==> |g.buf| - g.consumed == unread)
  {
    hide Lossy, IsUtf8, IsBoundary, TailLen, Gc, NewText;
    FilledWellCut(h.r, chunk);
    GcEffect(Filled(h.r, chunk), hard);
  }

  lemma AppendSound(hard: nat, h: Log, chunk: Bytes)
    requires Sound(hard, h) && !h.r.closed && !h.r.eof
    ensures Sound(hard, Apply(hard, h, Append(chunk)))
  {
    hide Lossy, TailLen, Apply, WellCut;
    AppendEffect(hard, h, chunk);
    DecodeMore(h.accepted, chunk);
  }

  lemma FlushText(a: Bytes)
    ensures var p := a[|a| - TailLen(a)..];
            Lossy(a) == Lossy(a[..|a| - TailLen(a)]) + Lossy(p) && |Lossy(p)| <= 12 && IsUtf8(Lossy(p))
  {
    var p, done := a[|a| - TailLen(a)..], a[..|a| - TailLen(a)];
    hide Lossy, IsUtf8;
    TailCut(a, []);
    assert p + [] == p && done + p == a;
    LossyAppend(done, p);
    LossyLength(p);
    LossyIsUtf8(p);
  }

  lemma MarkEofSound(hard: nat, h: Log)
    requires Sound(hard, h) && !h.r.eof
    ensures Sound(hard, Apply(hard, h, MarkEof))
    ensures Decoded(Apply(hard, h, MarkEof)) == Lossy(h.accepted)
  {
    hide Lossy, WellCut, TailLen;
    FlushText(h.accepted);
    MoreText(h.r, Lossy(h.r.pending));
    MoreTextFields(h.r, h.r.buf + Lossy(h.r.pending));
    assert h.gone + (h.r.buf + Lossy(h.r.pending)) == Decoded(h) + Lossy(h.r.pending);
  }

  lemma MoreTextFields(r: State, b: Bytes)
    ensures WellCut(r.(buf := b)) ==> WellCut(r.(pending := [], buf := b, eof := true))
  {}

  /** Every operation keeps the invariant. */
  lemma ApplySound(hard: nat, h: Log, e: Event)
    requires Sound(hard, h)
    ensures Sound(hard, Apply(hard, h, e))
  {
    hide Lossy, IsUtf8, TailLen, Gc;
    match e
    case Append(chunk) => if !h.r.closed && !h.r.eof { AppendSound(hard, h, chunk); }
    case MarkEof => if !h.r.eof { MarkEofSound(hard, h); }
    case NotifyClose =>
    case Take(n) =>
    case Discard =>
  }

  lemma StartSound(hard: nat)
    ensures Sound(hard, START)
  {
    LossyEmpty();
  }

  lemma {:induction false} RunSound(hard: nat, h: Log, es: seq<Event>)
    requires Sound(hard, h)
    ensures Sound(hard, Run(hard, h, es))
    decreases |es|
  {
    hide Apply, TextSound, IsUtf8, IsBoundary;
    if es != [] {
      ApplySound(hard, h, es[0]);
      RunSound(hard, Apply(hard, h, es[0]), es[1..]);
    }
  }

  // -------------------------------------------------------------- over whole runs

  /** The bytes a run accepts: what arrives before the end of file or the close. */
  function Accepted(es: seq<Event>): Bytes {
    if es == [] || es[0].MarkEof? || es[0].NotifyClose? then []
    else (if es[0].Append? then es[0].chunk else []) + Accepted(es[1..])
  }

  lemma {:induction false} RunAccepts(hard: nat, h: Log, es: seq<Event>)
    requires Bounded(h.r)
    ensures Run(hard, h, es).accepted
            == h.accepted + (if h.r.eof || h.r.closed then [] else Accepted(es))
    decreases |es|
  {
    hide Apply;
    if es != [] {
      ApplyAccepts(hard, h, es[0]);
      RunAccepts(hard, Apply(hard, h, es[0]), es[1..]);
    }
  }

  lemma ApplyAccepts(hard: nat, h: Log, e: Event)
    requires Bounded(h.r)
    ensures var g := Apply(hard, h, e);
            && g.accepted == h.accepted + (if e.Append? && !h.r.eof && !h.r.closed then e.chunk else [])
            && g.r.eof == (h.r.eof || e.MarkEof?) && g.r.closed == (h.r.closed || e.NotifyClose?)
  {
    hide Lossy, TailLen;
    if e.Append? {
      GcKeepsFlags(Filled(h.r, e.chunk), hard);
    }
  }

  lemma GcKeepsFlags(r: State, hard: nat)
    requires Bounded(r)
    ensures Gc(r, hard).eof == r.eof && Gc(r, hard).closed == r.closed
  {}

  /** Chunking independence under garbage collection: whatever the caps, the chunks and
      the consumption, the text that left the buffer followed by the buffer is the lossy
      reading of the accepted bytes short of a split character, and of all of them once
      the end of file is marked. */
  lemma ChunkingIndependence(hard: nat, es: seq<Event>)
    ensures var h := Run(hard, START, es);
            && h.accepted == Accepted(es)
            && Decoded(h) == Lossy(DecodedBytes(h))
            && (h.r.eof ==> Decoded(h) == Lossy(Accepted(es)) && h.r.pending == [])
            && (!h.r.eof ==> DecodedBytes(h) + h.r.pending == Accepted(es) && |h.r.pending| <= 3)
  {
    hide Lossy, TailLen, Sound, Apply, Run, Accepted, DecodedBytes, Decoded;
    StartSound(hard);
    RunSound(hard, START, es);
    RunAccepts(hard, START, es);
    TextOfSound(hard, Run(hard, START, es));
  }

  lemma TextOfSound(hard: nat, h: Log)
    requires Sound(hard, h)
    ensures Decoded(h) == Lossy(DecodedBytes(h))
    ensures h.r.eof ==> DecodedBytes(h) == h.accepted && h.r.pending == []
    ensures !h.r.eof ==> DecodedBytes(h) + h.r.pending == h.accepted && |h.r.pending| <= 3
  {
    hide Lossy, TailLen, BufferSound;
    var a := h.accepted;
    assert a[..|a| - TailLen(a)] + a[|a| - TailLen(a)..] == a;
  }

  /** Two runs that accept the same bytes decode to the same text. */
  lemma SameBytesSameText(hard: nat, es: seq<Event>, hard': nat, es': seq<Event>)
    requires Accepted(es) == Accepted(es') && Run(hard, START, es).r.eof == Run(hard', START, es').r.eof
    ensures var h, h' := Run(hard, START, es), Run(hard', START, es');
            Decoded(h) == Decoded(h') && h.r.pending == h'.r.pending
  {
    hide Lossy, TailLen, BufferSound, Apply, Run, Accepted;
    StartSound(hard);
    RunSound(hard, START, es);
    RunAccepts(hard, START, es);
    StartSound(hard');
    RunSound(hard', START, es');
    RunAccepts(hard', START, es');
  }

  /** Byte conservation and the memory bound, in every reachable state. */
  lemma ConservationAndBound(hard: nat, es: seq<Event>)
    ensures var h := Run(hard, START, es);
            && |Decoded(h)| == h.taken + h.r.dropped + (|h.r.buf| - h.r.consumed)
            && |h.r.buf| <= hard + (if h.r.eof then 12 else 0)
            && h.r.consumed <= |h.r.buf| && IsUtf8(h.r.buf) && IsBoundary(h.r.buf, h.r.consumed)
  {
    hide Lossy, TailLen, TextSound, Apply, Run, IsUtf8, IsBoundary;
    StartSound(hard);
    RunSound(hard, START, es);
  }

  /** `later` continues `earlier`: decoded text only grows at its end, the cursor only
      moves forward, and it moves by what is consumed or dropped. */
  ghost predicate Continues(earlier: Log, later: Log) {
    && Decoded(earlier) <= Decoded(later)
    && earlier.gone <= later.gone
    && Cursor(later) - Cursor(earlier) == later.taken - earlier.taken + (later.r.dropped - earlier.r.dropped)
    && earlier.taken <= later.taken
    && earlier.r.dropped <= later.r.dropped
  }

  lemma ApplyContinues(hard: nat, h: Log, e: Event)
    requires BufferSound(hard, h)
    ensures Continues(h, Apply(hard, h, e))
  {
    hide Lossy, IsUtf8, TailLen, IsBoundary;
    match e
    case Append(chunk) =>
      if !h.r.closed && !h.r.eof {
        FilledWellCut(h.r, chunk);
        var full := Filled(h.r, chunk);
        GcEffect(full, hard);
        hide Gc;
        AppendEffect(hard, h, chunk);
      }
    case MarkEof =>
      if !h.r.eof { assert h.gone + (h.r.buf + Lossy(h.r.pending)) == Decoded(h) + Lossy(h.r.pending); }
    case NotifyClose =>
    case Take(n) =>
    case Discard =>
  }

  lemma {:induction false} RunContinues(hard: nat, h: Log, es: seq<Event>)
    requires Sound(hard, h)
    ensures Continues(h, Run(hard, h, es))
    decreases |es|
  {
    hide Apply, TextSound, IsUtf8, IsBoundary;
    if es != [] {
      ApplySound(hard, h, es[0]);
      ApplyContinues(hard, h, es[0]);
      RunContinues(hard, Apply(hard, h, es[0]), es[1..]);
    }
  }

  /** A wait in which nothing was drained only appended to the buffer. */
  lemma NoDrainGrows(h: Log, g: Log)
    requires Continues(h, g) && |g.gone| == |h.gone|
    ensures h.r.buf <= g.r.buf && h.r.consumed <= g.r.consumed
  {
    assert Decoded(h)[|h.gone|..] == h.r.buf;
    assert Decoded(g)[|h.gone|..] == g.r.buf;
  }

  // ------------------------------------------------------------ what is never dropped

  /** Unread text of the length `n` has room in a reader for the output cap `cap`. */
  predicate Fits(cap: nat, n: int) {
    n <= 65536 || (n <= 2 * cap && n <= 0xFFFF_FFFF_FFFF_FFFF)
  }

  /** The length of the unread text when `append` calls its collector. */
  function UnreadWith(h: Log, chunk: Bytes): int {
    |h.r.buf| - h.r.consumed + |NewText(h.r, chunk)|
  }

  /** An append drops unread text if and only if there is more of it than twice the output
      cap, than 65536 for a small cap, than the largest `usize` for a huge one. */
  lemma DropsExactly(cap: nat, h: Log, chunk: Bytes)
    requires BufferSound(HardCap(cap), h) && !h.r.closed && !h.r.eof
    ensures Apply(HardCap(cap), h, Append(chunk)).r.dropped > h.r.dropped <==> !Fits(cap, UnreadWith(h, chunk))
    ensures Apply(HardCap(cap), h, Append(chunk)).r.dropped >= h.r.dropped
  {
    hide BufferSound, Apply, NewText;
    AppendSizes(HardCap(cap), h, chunk);
    ApplyContinues(HardCap(cap), h, Append(chunk));
  }

  /** At every append of a run the unread text has room. */
  ghost predicate AlwaysFits(cap: nat, h: Log, es: seq<Event>)
    requires Bounded(h.r)
    decreases |es|
  {
    es == [] || (
      (es[0].Append? && !h.r.closed && !h.r.eof ==> Fits(cap, UnreadWith(h, es[0].chunk)))
      && AlwaysFits(cap, Apply(HardCap(cap), h, es[0]), es[1..]))
  }

  lemma DropsNothingElse(hard: nat, h: Log, e: Event)
    requires Bounded(h.r)
    ensures !e.Append? || h.r.closed || h.r.eof ==> Apply(hard, h, e).r.dropped == h.r.dropped
  {}

  /** `dropped_total` counts in every run: it grows if and only if at some append the unread
      text had no room. So a command whose unread text never exceeds twice the output cap
      loses none of it. */
  lemma {:induction false} NothingDropped(cap: nat, h: Log, es: seq<Event>)
    requires Sound(HardCap(cap), h)
    ensures Bounded(h.r)
    ensures Run(HardCap(cap), h, es).r.dropped == h.r.dropped <==> AlwaysFits(cap, h, es)
    ensures Run(HardCap(cap), h, es).r.dropped >= h.r.dropped
    decreases |es|
  {
    hide HardCap, TextSound, BufferSound, Apply, Fits, UnreadWith;
    SoundIsBounded(HardCap(cap), h);
    if es != [] {
      var e := es[0];
      ApplySound(HardCap(cap), h, e);
      DropsNothingElse(HardCap(cap), h, e);
      if e.Append? && !h.r.closed && !h.r.eof { DropsExactly(cap, h, e.chunk); }
      NothingDropped(cap, Apply(HardCap(cap), h, e), es[1..]);
    }
  }
}
