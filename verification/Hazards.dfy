/** Three ways in which a session goes wrong: a trailing peek that panics inside a
    character, one that leaves out text, and a drop of unread text that makes a run return a
    code which is not its own. */
module Hazards {
  import opened Text
  import opened Utf8
  import opened Decoders
  import opened Framing
  import opened Reader
  import opened Expect
  import opened Protocol
  import opened Session
  import opened SessionRuns

  // --------------------------------------------------------------- reading it all

  /** The reader thread chunks `n` bytes, a chunk at a time. */
  function ReadAll(n: nat): seq<Action> {
    if n == 0 then [] else [Read(Min(n, CHUNK_SIZE))] + ReadAll(n - Min(n, CHUNK_SIZE))
  }

  /** Once unread text has been dropped since `d`, at least half a cap of it is left. */
  ghost predicate HalfLeft(hard: nat, r: Reader.State, d: nat)
    requires Bounded(r)
  {
    d <= r.dropped && (r.dropped > d ==> |Unread(r)| >= hard / 2 - 3)
  }

  /** Only the reader moved. */
  ghost predicate OnlyRead(hard: nat, s: Machine, t: Machine) {
    && Inv(hard, t) && Usable(t) && Lives(t) && t == s.(log := t.log, wire := t.wire)
    && Continues(s.log, t.log) && t.log.taken == s.log.taken
  }

  lemma ReadEffect(hard: nat, h: Log, chunk: Bytes, d: nat)
    requires Sound(hard, h) && Bounded(h.r) && !h.r.eof && !h.r.closed && HalfLeft(hard, h.r, d)
    ensures var g := Apply(hard, h, Append(chunk));
            && HalfLeft(hard, g.r, d) && |g.r.buf| <= hard && Continues(h, g) && g.taken == h.taken
            && !g.r.eof && !g.r.closed
  {
    hide TextSound, Apply, NewText, WellCut, Continues;
    AppendSizes(hard, h, chunk);
    ApplyContinues(hard, h, Append(chunk));
    ApplyAccepts(hard, h, Append(chunk));
    PassiveTaken(hard, h, Append(chunk));
    ContinuesDrops(h, Apply(hard, h, Append(chunk)));
  }

  lemma ContinuesDrops(h: Log, g: Log)
    requires Continues(h, g)
    ensures h.r.dropped <= g.r.dropped
  {}

  lemma ReadOne(hard: nat, s: Machine, n: nat, d: nat)
    requires Inv(hard, s) && Usable(s) && Lives(s) && 0 < n <= CHUNK_SIZE && n <= |s.wire| && HalfLeft(hard, s.log.r, d)
    ensures var t := Next(hard, s, Read(n));
            OnlyRead(hard, s, t) && t.wire == s.wire[n..] && HalfLeft(hard, t.log.r, d) && |t.log.r.buf| <= hard
  {
    hide Inv, Sound, HalfLeft, Continues, Apply;
    InvIsSound(hard, s);
    NextKeeps(hard, s, Read(n));
    ReadEffect(hard, s.log, s.wire[..n], d);
  }

  lemma {:induction false} ReadsAll(hard: nat, s: Machine, d: nat)
    requires Inv(hard, s) && Usable(s) && Lives(s) && HalfLeft(hard, s.log.r, d)
    ensures var t := RunAll(hard, s, ReadAll(|s.wire|));
            OnlyRead(hard, s, t) && t.wire == [] && HalfLeft(hard, t.log.r, d)
            && (s.wire != [] ==> |t.log.r.buf| <= hard)
    decreases |s.wire|
  {
    hide Inv, HalfLeft, Continues, Next;
    if s.wire == [] {
      ContinuesSame(s.log);
    } else {
      var n := Min(|s.wire|, CHUNK_SIZE);
      ReadOne(hard, s, n, d);
      var s' := Next(hard, s, Read(n));
      ReadsAll(hard, s', d);
      var t := RunAll(hard, s', ReadAll(|s'.wire|));
      ContinuesFurther(s.log, s'.log, t.log);
      assert ReadAll(|s.wire|)[0] == Read(n) && ReadAll(|s.wire|)[1..] == ReadAll(|s'.wire|);
    }
  }

  // ---------------------------------------------------------------- decoded output

  ghost predicate Ascii(s: Bytes) { forall i :: 0 <= i < |s| ==> s[i] < 0x80 }

  /** When everything printed has been read and it ends in ASCII, its text ends in that. */
  lemma DecodedEnd(hard: nat, s: Machine, o: Bytes, x: Bytes)
    requires Inv(hard, s) && Lives(s) && s.wire == [] && Out(s.shell) == o + x && x != [] && Ascii(x)
    ensures Decoded(s.log) == Lossy(o) + x
  {
    hide Inv, Lossy, Out, TailLen, BufferSound, IsUtf8, CharLen;
    InvIsSound(hard, s);
    var a := s.log.accepted;
    assert a + [] == a && a[|a| - 1] == x[|x| - 1];
    AsciiEnd(a);
    assert a[..|a|] == a;
    LeadCut(o, x);
    LossyAppend(o, x);
    AsciiIsUtf8(x);
  }

  lemma AsciiEnd(a: Bytes)
    requires a != [] && a[|a| - 1] < 0x80
    ensures TailLen(a) == 0
  {}

  /** The cursor is inside the text of what was printed. */
  lemma CursorInside(hard: nat, s: Machine)
    requires Inv(hard, s) && Lives(s)
    ensures Cursor(s.log) <= |Decoded(s.log)| <= |Lossy(Out(s.shell))|
  {
    hide Inv, Lossy, Out, TailLen, CharLen, IsUtf8, IsBoundary;
    InvIsSound(hard, s);
    var a := s.log.accepted;
    var done, held := a[..|a| - TailLen(a)], a[|a| - TailLen(a)..];
    TailCut(a, s.wire);
    assert Out(s.shell) == done + (held + s.wire);
    LossyAppend(done, held + s.wire);
  }

  // ---------------------------------------------------------- a drop of unread text

  /** Blank lines. */
  function Blanks(n: nat): Bytes { seq(n, _ => 10) }

  lemma {:induction false} BlanksTrimmed(m: nat, d: Bytes)
    ensures TrimStart(Blanks(m) + d) == TrimStart(d)
    decreases m
  {
    hide SpaceFront;
    var s := Blanks(m) + d;
    if m == 0 {
      assert s == d;
    } else {
      BlankFront(s);
      assert s[1..] == Blanks(m - 1) + d;
      BlanksTrimmed(m - 1, d);
    }
  }

  lemma BlankFront(s: Bytes)
    requires s != [] && s[0] == 10
    ensures SpaceFront(s) == 1
  {}

  lemma BlankCode(m: nat, c: nat)
    requires c <= STATUS_MAX
    ensures ParseCode(Blanks(m) + Dec(c)) == Some(c) && 69 !in Blanks(m) + Dec(c)
  {
    hide Dec, TrimStart, TrimEnd, ParseI32;
    BlanksTrimmed(m, Dec(c));
    CodeOfDigits(c);
    DecPlain(c);
  }

  /** What a background job prints: blank lines, a number, and the suffix; then a prompt. */
  function JobOutput(hard: nat, c: nat): Bytes { Blanks(hard) + JobEnd(c) }

  function JobEnd(c: nat): Bytes { Dec(c) + SUFFIX + PS1 }

  lemma JobIsPlain(hard: nat, c: nat)
    requires c <= STATUS_MAX
    ensures Ascii(JobOutput(hard, c)) && |JobOutput(hard, c)| == hard + |JobEnd(c)| && 0 < |JobEnd(c)| <= 28
  {
    DecShort(c, 3);
    hide Dec;
    var d := Dec(c);
    assert forall i :: 0 <= i < |d| ==> d[i] < 0x80;
  }

  /** A suffix of it that is long enough and not too long. */
  lemma JobSuffix(hard: nat, c: nat, n: nat)
    requires |JobEnd(c)| <= n <= |JobOutput(hard, c)|
    ensures var x := JobOutput(hard, c); x[|x| - n..] == Blanks(n - |JobEnd(c)|) + JobEnd(c)
  {
    hide JobEnd;
  }

  /** After all of it was read: the framing is gone, and blanks stand before the number. */
  lemma JobRead(hard: nat, s: Machine, t: Machine, c: nat, o: Bytes)
    requires Inv(hard, s) && Usable(s) && Lives(s) && c <= STATUS_MAX && o == Out(s.shell)
    requires OnlyRead(hard, s.(shell := t.shell, wire := t.wire), t) && t.wire == []
    requires Out(t.shell) == o + JobOutput(hard, c)
    requires HalfLeft(hard, t.log.r, s.log.r.dropped) && |t.log.r.buf| <= hard
    ensures t.log.r.dropped > s.log.r.dropped
    ensures exists m: nat :: Unread(t.log.r) == Blanks(m) + JobEnd(c)
  {
    hide Inv, Sound, Out, Lossy, JobOutput, JobEnd, Blanks, Unread, Decoded;
    var x := JobOutput(hard, c);
    HardCapOf(hard, t);
    JobIsPlain(hard, c);
    DecodedEnd(hard, t, o, x);
    CursorInside(hard, s);
    UnreadIsEnd(t.log);
    UnreadShort(t.log.r);
    assert t.log.r.dropped > s.log.r.dropped;
    var n := |Unread(t.log.r)|;
    assert n <= |x| && Decoded(t.log)[Cursor(t.log)..] == x[|x| - n..] by {
      EndOf(Lossy(o), x, Cursor(t.log));
    }
    JobSuffix(hard, c, n);
  }

  lemma EndOf(a: Bytes, x: Bytes, i: nat)
    requires |a| <= i <= |a + x|
    ensures (a + x)[i..] == x[|x| - |(a + x)[i..]|..]
  {}

  lemma UnreadShort(r: Reader.State)
    requires Bounded(r)
    ensures |Unread(r)| <= |r.buf|
  {}

  lemma HardCapOf(hard: nat, s: Machine)
    requires Inv(hard, s)
    ensures hard >= MIN_CAP
  {}

  /** Why a drop matters. In any session that has matched the marker of run `k` and not yet
      looked for the suffix, a background job that prints blank lines over the cap, a
      number and a suffix makes the collector drop the rest of the framing; the job's
      number is then returned as the exit code of run `k`. The job prints no marker: output
      that was clean stays clean. */
  lemma FrontDropTakesAnotherCode(hard: nat, s: Machine, c: nat)
    requires Inv(hard, s) && Usable(s) && Lives(s) && s.phase.AwaitSuffix? && s.phase.from == None && c <= STATUS_MAX
    ensures var x := JobOutput(hard, c);
            var t := RunAll(hard, s, [Print(x)] + ReadAll(|s.wire| + |x|) + [RunRound(false), RunRound(false)]);
            && t.phase == Idle && (exists at :: t.done == s.done + [Returned(s.phase.k, c, at, false)])
            && t.shell == s.shell.(tail := s.shell.tail + x) && (Clean(s.shell, s.phase.k) ==> Clean(t.shell, s.phase.k))
  {
    hide Inv, Sound, Out, Next, RunStep, JobOutput, ParseCode, OccursAt, MarkerPrefix, RunAll, Holds, Clean, Unread, HalfLeft, Continues,
         JobEnd, Blanks, ReadAll, Dec, FirstAt;
    var x, chunks := JobOutput(hard, c), ReadAll(|s.wire| + |JobOutput(hard, c)|);
    var s1 := Next(hard, s, Print(x));
    PrintEffect(hard, s, x);
    HalfLeftNow(hard, s1.log.r);
    ReadsAll(hard, s1, s.log.r.dropped);
    var t := RunAll(hard, s1, chunks);
    JobIsPlain(hard, c);
    JobRead(hard, s, t, c, Out(s.shell));
    var m: nat :| Unread(t.log.r) == Blanks(m) + JobEnd(c);
    HardCapOf(hard, s);
    DroppedAtMost(hard, s);
    JobRounds(hard, t, c, m);
    RunsTogether(hard, s, s1, t, Print(x), chunks);
    var v := RunStep(hard, RunStep(hard, t, false), false);
    assert v.done == s.done + [Returned(s.phase.k, c, Cursor(t.log), false)];
    JobStaysClean(hard, s.shell, c, s.phase.k);
  }

  /** What follows the number. */
  const JOB_TAIL: Bytes := SUFFIX + PS1

  /** Three bytes that every marker has. */
  predicate Marks(s: Bytes, p: nat) {
    p + 8 < |s| && s[p] == 69 && s[p + 1] == 88 && s[p + 8] == 83
  }

  lemma MarkerMarks(s: Bytes, k: nat, p: nat)
    ensures OccursAt(s, MarkerPrefix(k), p) ==> Marks(s, p)
  {
    if OccursAt(s, MarkerPrefix(k), p) {
      MarkerStartsWithPrefix(s, k, p);
      OccursInside(s, PREFIX, p);
      PrefixBytes(s, p);
    }
  }

  lemma TailHasNoMarks(i: nat)
    ensures !Marks(JOB_TAIL, i)
  {}

  lemma NoMarksBehind(d: Bytes, p: nat)
    requires 69 !in d
    ensures !Marks(d + JOB_TAIL, p)
  {
    hide JOB_TAIL;
    var s := d + JOB_TAIL;
    if p >= |d| {
      TailHasNoMarks(p - |d|);
      assert Marks(s, p) == Marks(JOB_TAIL, p - |d|);
    } else {
      assert p < |s| && s[p] == d[p];
    }
  }

  lemma JobHasNoMarker(hard: nat, c: nat, k: nat, p: nat)
    requires c <= STATUS_MAX
    ensures !OccursAt(JobOutput(hard, c), MarkerPrefix(k), p)
  {
    hide Dec, Blanks, ParseCode, OccursAt, MarkerPrefix, Marks;
    var d := Blanks(hard) + Dec(c);
    BlankCode(hard, c);
    assert JobOutput(hard, c) == d + JOB_TAIL;
    NoMarksBehind(d, p);
    MarkerMarks(d + JOB_TAIL, k, p);
  }

  /** Nor across the joint: what the job prints begins with a line feed. */
  lemma NoMarkerOverJoint(text: Bytes, hard: nat, c: nat, k: nat, p: int)
    requires hard > 0 && c <= STATUS_MAX && forall q :: !OccursAt(text, MarkerPrefix(k), q)
    ensures !OccursAt(text + JobOutput(hard, c), MarkerPrefix(k), p)
  {
    hide MarkerPrefix, JobOutput, OccursAt;
    var x, m := JobOutput(hard, c), MarkerPrefix(k);
    var s := text + x;
    JobFront(hard, c);
    OccursNegative(s, m, p);
    if p + |m| <= |text| {
      if p >= 0 { OccursInPrefix(text, x, m, p); }
    } else if p >= |text| {
      OccursInSuffix(s, m, |text|, p - |text|);
      assert s[|text|..] == x;
      JobHasNoMarker(hard, c, k, p - |text|);
    } else if p >= 0 {
      MarkerHasNoLine(s, k, p, |text|);
    }
  }

  lemma OccursNegative(s: Bytes, p: Bytes, i: int)
    ensures i < 0 ==> !OccursAt(s, p, i)
  {}

  lemma JobFront(hard: nat, c: nat)
    requires hard > 0
    ensures JobOutput(hard, c) != [] && JobOutput(hard, c)[0] == 10
  {}

  lemma MarkerHasNoLine(s: Bytes, k: nat, p: nat, i: nat)
    requires p <= i < |s| && i < p + |MarkerPrefix(k)| && s[i] == 10
    ensures !OccursAt(s, MarkerPrefix(k), p)
  {
    if OccursAt(s, MarkerPrefix(k), p) {
      OccursIndex(s, MarkerPrefix(k), p, i - p);
    }
  }

  lemma JobStaysClean(hard: nat, sh: Shell, c: nat, k: nat)
    requires hard > 0 && c <= STATUS_MAX
    ensures Clean(sh, k) ==> Clean(sh.(tail := sh.tail + JobOutput(hard, c)), k)
  {
    hide MarkerPrefix, JobOutput, OccursAt;
    if Clean(sh, k) {
      forall p ensures !OccursAt(sh.tail + JobOutput(hard, c), MarkerPrefix(k), p) {
        NoMarkerOverJoint(sh.tail, hard, c, k, p);
      }
    }
  }

  lemma DroppedAtMost(hard: nat, s: Machine)
    requires Inv(hard, s) && s.phase.AwaitSuffix?
    ensures s.phase.droppedAt <= s.log.r.dropped
  {
    var _ := SuffixPhase(hard, s);
  }

  lemma HalfLeftNow(hard: nat, r: Reader.State)
    requires Bounded(r)
    ensures HalfLeft(hard, r, r.dropped)
  {}

  lemma PrintEffect(hard: nat, s: Machine, x: Bytes)
    requires Inv(hard, s) && Usable(s) && Lives(s)
    ensures var t := Next(hard, s, Print(x));
            && Inv(hard, t) && Usable(t) && Lives(t) && t == s.(shell := t.shell, wire := s.wire + x)
            && Out(t.shell) == Out(s.shell) + x && t.shell == s.shell.(tail := s.shell.tail + x)
  {
    hide Inv;
    NextKeeps(hard, s, Print(x));
  }

  /** The two rounds that return the job's number. */
  lemma JobRounds(hard: nat, t: Machine, c: nat, m: nat)
    requires Inv(hard, t) && Usable(t) && Lives(t) && t.phase.AwaitSuffix? && t.phase.from == None && c <= STATUS_MAX
    requires Unread(t.log.r) == Blanks(m) + JobEnd(c)
    ensures var v := RunStep(hard, RunStep(hard, t, false), false);
            Usable(v) && Open(RunStep(hard, t, false)) && v.phase == Idle && v.shell == t.shell
            && v.done == t.done + [Returned(t.phase.k, c, Cursor(t.log), t.log.r.dropped == t.phase.droppedAt)]
  {
    hide Inv, Sound, RunStep, ParseCode, OccursAt, Unread, Blanks, Dec, FirstAt;
    var d := Blanks(m) + Dec(c);
    BlankCode(m, c);
    assert Blanks(m) + JobEnd(c) == d + SUFFIX + PS1;
    FreshCallResumes(t.log.r, [SUFFIX]);
    SuffixRound(hard, t, d, c, PS1, false);
    PromptFirst();
    FreshCallResumes(RunStep(hard, t, false).log.r, [PS1]);
    PromptRound(hard, RunStep(hard, t, false), PS1, 0, false);
  }

  lemma PromptFirst()
    ensures FirstAt(PS1, PS1, 0)
  {
    assert PS1[0..0 + |PS1|] == PS1;
  }

  lemma RunsTogether(hard: nat, s: Machine, s1: Machine, t: Machine, a: Action, chunks: seq<Action>)
    requires Usable(s) && Usable(s1) && Usable(t) && s1 == Next(hard, s, a) && t == RunAll(hard, s1, chunks)
    requires Open(t) && Open(RunStep(hard, t, false))
    ensures RunAll(hard, s, [a] + chunks + [RunRound(false), RunRound(false)])
            == RunStep(hard, RunStep(hard, t, false), false)
  {
    hide *;
    var two := [RunRound(false), RunRound(false)];
    RunAllAppend(hard, s, [a] + chunks, two);
    RunAllAppend(hard, s, [a], chunks);
    RunOne(hard, s, a);
    TwoRounds(hard, t);
  }

  lemma TwoRounds(hard: nat, t: Machine)
    requires Usable(t) && Open(t) && Open(RunStep(hard, t, false))
    ensures RunAll(hard, t, [RunRound(false), RunRound(false)]) == RunStep(hard, RunStep(hard, t, false), false)
  {
    hide Next, RunStep, RunAll;
    var r := RunRound(false);
    assert [r, r] == [r] + [r];
    RunAllAppend(hard, t, [r], [r]);
    RoundIsStep(hard, t, false);
    RunOne(hard, t, r);
    RoundIsStep(hard, RunStep(hard, t, false), false);
    RunOne(hard, RunStep(hard, t, false), r);
  }

  // ------------------------------------------------- a trailing peek in a character

  /** Thirteen letters and an e with an acute accent, of two bytes. */
  function Accent(): Bytes { Letters() + E_ACUTE }

  function Letters(): Bytes { seq(13, _ => 97) }

  const E_ACUTE: Bytes := [0xC3, 0xA9]

  lemma EAcuteIsUtf8()
    ensures IsUtf8(E_ACUTE)
  {
    assert CharLen(E_ACUTE) == 2 && E_ACUTE[2..] == [];
  }

  lemma AccentIsUtf8()
    ensures IsUtf8(Accent()) && TailLen(Accent()) == 0 && |Accent()| == 15 && IsTail(Accent()[14])
  {
    hide IsUtf8, TailLen, Letters;
    EAcuteIsUtf8();
    LettersAreAscii();
    AsciiIsUtf8(Letters());
    Utf8Append(Letters(), E_ACUTE);
    WholeCharacter(Letters());
  }

  lemma LettersAreAscii()
    ensures |Letters()| == 13 && forall i :: 0 <= i < 13 ==> Letters()[i] < 0x80
  {}

  lemma WholeCharacter(a: Bytes)
    ensures TailLen(a + E_ACUTE) == 0
  {}

  /** Reading text with nothing pending and nothing unread. */
  lemma PlainRead(hard: nat, h: Log, x: Bytes)
    requires Sound(hard, h) && |x| <= hard && !h.r.eof && !h.r.closed
    requires Bounded(h.r) && Unread(h.r) == [] && NewText(h.r, x) == x
    ensures var g := Apply(hard, h, Append(x));
            Sound(hard, g) && Decoded(g) == Decoded(h) + x && Cursor(g) == Cursor(h) == |Decoded(h)|
  {
    hide TextSound, Apply, NewText, WellCut, Lossy, TailLen, IsUtf8;
    UnreadIsEnd(h);
    AppendEffect(hard, h, x);
    AppendSizes(hard, h, x);
    ApplySound(hard, h, Append(x));
    ApplyContinues(hard, h, Append(x));
    PassiveTaken(hard, h, Append(x));
  }

  lemma NewTextIs(r: Reader.State, x: Bytes)
    requires r.pending == [] && TailLen(x) == 0 && IsUtf8(x)
    ensures NewText(r, x) == x
  {
    hide *;
    Utf8Kept(x);
    NewTextWhole(r, x);
  }

  lemma NewTextWhole(r: Reader.State, x: Bytes)
    requires r.pending == [] && TailLen(x) == 0
    ensures NewText(r, x) == Lossy(x)
  {
    hide Lossy, TailLen;
    assert [] + x == x && x[..|x|] == x;
  }

  /** An interrupt matches the prompt of a run; the run takes it; text `x` arrives; the
      interrupt is about to ask for the text behind its match. */
  function Peeking(id: nat, x: Bytes): seq<Action> {
    [PeekRound(id, false), RunRound(false), Print(x), Read(|x|)]
  }

  lemma PeekMatches(hard: nat, s: Machine, id: nat)
    requires Holds(hard, s, PS1) && id !in s.peeks
    ensures var t := Next(hard, s, PeekRound(id, false));
            t == s.(peeks := s.peeks[id := Matched(|PS1|)]) && Holds(hard, t, PS1)
  {
    hide Inv, FirstAt, RoundOf, Apply;
    PromptFirst();
    FreshCallResumes(s.log.r, [PS1]);
    RoundFinds(s.log.r, None, PS1, 0, false);
    NextKeeps(hard, s, PeekRound(id, false));
  }

  lemma TextArrives(hard: nat, s: Machine, x: Bytes)
    requires Usable(s) && Lives(s) && s.wire == [] && 0 < |x| <= CHUNK_SIZE
    ensures var t := Next(hard, Next(hard, s, Print(x)), Read(|x|));
            t.log == Apply(hard, s.log, Append(x)) && t.peeks == s.peeks && !t.poisoned
  {
    hide Apply;
    assert [] + x == x && x[..|x|] == x;
  }

  lemma FourSteps(hard: nat, s: Machine, a: Action, b: Action, c: Action, d: Action)
    requires Usable(s)
    ensures RunAll(hard, s, [a, b, c, d]) == Next(hard, Next(hard, Next(hard, Next(hard, s, a), b), c), d)
  {
    hide Next;
    assert [a, b, c, d][1..] == [b, c, d] && [b, c, d][1..] == [c, d] && [c, d][1..] == [d];
    var s1 := Next(hard, s, a);
    var s2 := Next(hard, s1, b);
    assert RunAll(hard, s, [a, b, c, d]) == RunAll(hard, s1, [b, c, d]);
    assert RunAll(hard, s1, [b, c, d]) == RunAll(hard, s2, [c, d]);
    RunOne(hard, Next(hard, s2, c), d);
  }

  /** In any session whose run waits for the prompt that is all its unread text: the text
      behind the match is `x`, and the peek starts 14 bytes too late. */
  lemma PeekComesLate(hard: nat, s: Machine, id: nat, x: Bytes)
    requires Holds(hard, s, PS1) && Lives(s) && s.phase.AwaitPrompt? && s.phase.from == None
    requires s.wire == [] && s.log.r.pending == [] && id !in s.peeks
    requires 0 < |x| <= CHUNK_SIZE && IsUtf8(x) && TailLen(x) == 0
    ensures Usable(s)
    ensures var t := RunAll(hard, s, Peeking(id, x));
            && Sound(hard, t.log) && !t.poisoned && id in t.peeks && t.peeks[id] == Matched(|PS1|)
            && Decoded(t.log) == Decoded(s.log) + x && Cursor(t.log) == Cursor(s.log) + |PS1| == |Decoded(s.log)|
  {
    hide Holds, Inv, Sound, RunAll, Next, RunStep, Unread, PeekLegal, Apply, FirstAt, RoundOf, NewText, IsUtf8, TailLen;
    HoldsIsSound(hard, s, PS1);
    UnreadIsEnd(s.log);
    PromptFirst();
    PeekMatches(hard, s, id);
    var s1 := Next(hard, s, PeekRound(id, false));
    HoldsIsSound(hard, s1, PS1);
    FreshCallResumes(s1.log.r, [PS1]);
    PromptRound(hard, s1, PS1, 0, false);
    RoundIsStep(hard, s1, false);
    var s2 := RunStep(hard, s1, false);
    NothingLeft();
    HoldsIsSound(hard, s2, []);
    StaysAlive(hard, s1);
    TextArrives(hard, s2, x);
    HardCapOf(hard, s2);
    NewTextIs(s2.log.r, x);
    PlainRead(hard, s2.log, x);
    SameText(hard, s1, s2);
    FourSteps(hard, s, PeekRound(id, false), RunRound(false), Print(x), Read(|x|));
  }

  lemma NothingLeft()
    ensures PS1[0 + |PS1|..] == []
  {}

  lemma StaysAlive(hard: nat, s: Machine)
    requires Usable(s) && Lives(s)
    ensures Usable(RunStep(hard, s, false)) && Lives(RunStep(hard, s, false))
  {
    hide RunStep;
    RoundIsStep(hard, s, false);
    NextStaysAlive(hard, s, RunRound(false));
  }

  /** A round that accepts nothing decodes nothing. */
  lemma SameText(hard: nat, s: Machine, t: Machine)
    requires Inv(hard, s) && Lives(s) && t == RunStep(hard, s, false) && Sound(hard, t.log) && Lives(t)
    ensures Decoded(t.log) == Decoded(s.log)
  {
    hide Inv, RunStep, Lossy, TailLen, BufferSound;
    InvIsSound(hard, s);
    RunAccepts1(hard, s);
  }

  lemma RunAccepts1(hard: nat, s: Machine)
    requires Usable(s) && Lives(s)
    ensures RunStep(hard, s, false).log.accepted == s.log.accepted
  {
    hide TurnOf, Apply;
    TurnIsEvent(hard, s.log, s.phase, false);
    var g := RunStep(hard, s, false).log;
    if g != s.log {
      var e: Event :| (e.Take? || e.Discard? || (e.NotifyClose? && (s.log.r.eof || s.log.r.closed))) && g == Apply(hard, s.log, e);
      ApplyAccepts(hard, s.log, e);
    }
  }

  lemma TrailOf(hard: nat, s: Machine, id: nat)
    requires Usable(s) && !s.poisoned && id in s.peeks && s.peeks[id].Matched? && !PeekLegal(s.log.r, s.peeks[id].n)
    ensures Next(hard, s, Trail(id)).poisoned
  {
    hide PeekLegal;
  }

  // ------------------------------------------------------------------ it is reachable

  /** The first run prints its framing with code 0, and a prompt; both are read. */
  function ToPrompt(): seq<Action> {
    [StartRun(true), PrintFrame(0, 0), Print(PS1), Read(|Frame(0, 0)| + |PS1|)]
  }

  lemma ShortRead(hard: nat, x: Bytes)
    requires hard >= MIN_CAP && |x| <= hard && Ascii(x)
    ensures Apply(hard, START, Append(x)).r == START.r.(buf := x)
  {
    hide Lossy, TailLen, Filled;
    FilledAscii(START.r, x);
    assert [] + x == x;
  }

  /** A first run whose framing and prompt have been read. */
  lemma FirstRun(hard: nat)
    requires hard >= MIN_CAP
    ensures var s := RunAll(hard, INIT, ToPrompt());
            Holds(hard, s, Frame(0, 0) + PS1) && !s.log.r.eof && s.phase == AwaitMarker(0, None)
            && s.wire == [] && s.log.r.pending == [] && s.peeks == map[]
  {
    hide Inv, Apply, Frame, RunAll;
    InitInv(hard);
    RunAllKeeps(hard, INIT, ToPrompt());
    var x := Frame(0, 0) + PS1;
    FrameIsShort();
    ShortRead(hard, x);
    FirstSteps(hard, x);
  }

  lemma FrameIsShort()
    ensures |Frame(0, 0)| == 27 && Ascii(Frame(0, 0) + PS1)
  {
    var x := Frame(0, 0) + PS1;
    assert forall i :: 0 <= i < |x| ==> x[i] < 0x80;
  }

  lemma FirstSteps(hard: nat, x: Bytes)
    requires x == Frame(0, 0) + PS1 && |x| == 41 && Apply(hard, START, Append(x)).r == START.r.(buf := x)
    ensures var s := RunAll(hard, INIT, ToPrompt());
            s.log.r == START.r.(buf := x) && s.phase == AwaitMarker(0, None)
            && s.wire == [] && s.peeks == map[] && !s.poisoned
  {
    hide Apply, Frame;
    var s1 := Next(hard, INIT, StartRun(true));
    var s2 := Next(hard, s1, PrintFrame(0, 0));
    var s3 := Next(hard, s2, Print(PS1));
    var s4 := Next(hard, s3, Read(41));
    assert s3.wire == x && x[..41] == x;
    FourSteps(hard, INIT, StartRun(true), PrintFrame(0, 0), Print(PS1), Read(41));
  }

  /** From there, the run that waits for its prompt. */
  function Prompted(): seq<Action> { ToPrompt() + [RunRound(false), RunRound(false)] }

  lemma ReachPrompt(hard: nat)
    requires hard >= MIN_CAP
    ensures var s := RunAll(hard, INIT, Prompted());
            Holds(hard, s, PS1) && Lives(s) && s.phase.AwaitPrompt? && s.phase.from == None
            && s.wire == [] && s.log.r.pending == [] && s.peeks == map[]
  {
    hide Holds, RunAll, Next, RunStep, Frame, ParseCode, MarkerPrefix, OccursAt;
    FirstRun(hard);
    var s := RunAll(hard, INIT, ToPrompt());
    assert [] + Frame(0, 0) + PS1 == Frame(0, 0) + PS1;
    NothingOccurs(0);
    FreshCallResumes(s.log.r, [MarkerPrefix(0)]);
    MarkerRound(hard, s, [], 0, PS1, false);
    var s1 := RunStep(hard, s, false);
    CodeOfDigits(0);
    DecPlain(0);
    FreshCallResumes(s1.log.r, [SUFFIX]);
    SuffixRound(hard, s1, Dec(0), 0, PS1, false);
    HoldsIsSound(hard, s, Frame(0, 0) + PS1);
    HoldsIsSound(hard, s1, Dec(0) + SUFFIX + PS1);
    StaysAlive(hard, s);
    StaysAlive(hard, s1);
    TwoRounds(hard, s);
    RunAllAppend(hard, INIT, ToPrompt(), [RunRound(false), RunRound(false)]);
  }

  /** An ordinary history in which an interrupt takes the session down, for every cap:
      every later use of the reader panics. */
  lemma PeekCanPoison(cap: nat, id: nat)
    ensures RunAll(HardCap(cap), INIT, Prompted() + Peeking(id, Accent()) + [Trail(id)]).poisoned
  {
    hide Holds, RunAll, Next, PeekLegal, HardCap, Sound, IsUtf8, TailLen, Peeking, Prompted, Accent;
    var hard := HardCap(cap);
    ReachPrompt(hard);
    var s := RunAll(hard, INIT, Prompted());
    AccentIsUtf8();
    PeekComesLate(hard, s, id, Accent());
    var t := RunAll(hard, s, Peeking(id, Accent()));
    PeekLegalExactly(hard, t.log, 14);
    TrailOf(hard, t, id);
    RunAllAppend(hard, INIT, Prompted(), Peeking(id, Accent()));
    RunAllAppend(hard, INIT, Prompted() + Peeking(id, Accent()), [Trail(id)]);
    RunOne(hard, t, Trail(id));
  }

  /** The text behind the prompt that ends at `behind` is `x`. */
  ghost predicate BehindPrompt(text: Bytes, behind: nat, x: Bytes) {
    |PS1| <= behind <= |text| && text[behind - |PS1|..behind] == PS1 && text[behind..] == x
  }

  /** The same history with ASCII text: the peek leaves out the first 14 bytes of the text
      behind the match. */
  lemma PeekCanSkip(cap: nat, id: nat, x: Bytes)
    requires 0 < |x| <= CHUNK_SIZE && Ascii(x)
    ensures var t := RunAll(HardCap(cap), INIT, Prompted() + Peeking(id, x));
            && id in t.peeks && t.peeks[id] == Matched(|PS1|) && PeekText(t.log, |PS1|) == Some(x[Min(|PS1|, |x|)..])
            && exists behind: nat :: BehindPrompt(Decoded(t.log), behind, x)
  {
    hide Holds, RunAll, Next, HardCap, Sound, IsUtf8, TailLen, Peeking, Prompted, Unread;
    var hard := HardCap(cap);
    ReachPrompt(hard);
    var s := RunAll(hard, INIT, Prompted());
    AsciiIsUtf8(x);
    PeekComesLate(hard, s, id, x);
    var t := RunAll(hard, s, Peeking(id, x));
    RunAllAppend(hard, INIT, Prompted(), Peeking(id, x));
    HoldsIsSound(hard, s, PS1);
    UnreadIsEnd(s.log);
    LateText(hard, t.log, Decoded(s.log), x);
  }

  lemma LateText(hard: nat, g: Log, before: Bytes, x: Bytes)
    requires Sound(hard, g) && Decoded(g) == before + x && Cursor(g) == |before| && Ascii(x)
    requires |before| >= |PS1| && before[|before| - |PS1|..] == PS1
    ensures PeekText(g, |PS1|) == Some(x[Min(|PS1|, |x|)..])
    ensures exists behind: nat :: BehindPrompt(Decoded(g), behind, x)
  {
    hide Sound, PeekLegal, Decoded;
    PeekLegalExactly(hard, g, |PS1|);
    assert BehindPrompt(Decoded(g), |before|, x);
    assert Decoded(g)[Min(Cursor(g) + |PS1|, |Decoded(g)|)..] == x[Min(|PS1|, |x|)..];
  }

  /** Waiting for the suffix of the first run. */
  function Marked(): seq<Action> { ToPrompt() + [RunRound(false)] }

  lemma ReachSuffix(hard: nat)
    requires hard >= MIN_CAP
    ensures var s := RunAll(hard, INIT, Marked());
            && Inv(hard, s) && Usable(s) && Lives(s) && s.phase.AwaitSuffix? && s.phase.k == 0 && s.phase.from == None
            && s.wire == [] && s.done == [] && s.shell == Shell([Printed([], 0, 0)], PS1)
  {
    hide Holds, RunAll, Next, RunStep, Frame, MarkerPrefix, OccursAt, Resumable, RoundOf;
    FirstRun(hard);
    FirstShell(hard);
    var s := RunAll(hard, INIT, ToPrompt());
    assert [] + Frame(0, 0) + PS1 == Frame(0, 0) + PS1;
    NothingOccurs(0);
    FreshCallResumes(s.log.r, [MarkerPrefix(0)]);
    MarkerRound(hard, s, [], 0, PS1, false);
    HoldsIsSound(hard, s, Frame(0, 0) + PS1);
    HoldsIsSound(hard, RunStep(hard, s, false), Dec(0) + SUFFIX + PS1);
    StaysAlive(hard, s);
    RunAllAppend(hard, INIT, ToPrompt(), [RunRound(false)]);
    RunOne(hard, s, RunRound(false));
    RoundIsStep(hard, s, false);
  }

  lemma FirstShell(hard: nat)
    ensures var s := RunAll(hard, INIT, ToPrompt()); s.done == [] && s.shell == Shell([Printed([], 0, 0)], PS1)
  {
    hide Apply, Frame;
    FourSteps(hard, INIT, StartRun(true), PrintFrame(0, 0), Print(PS1), Read(|Frame(0, 0)| + |PS1|));
  }

  lemma PromptHasNoMarker(k: nat)
    ensures forall p :: !OccursAt(PS1, MarkerPrefix(k), p)
  {
    hide OccursAt, MarkerPrefix;
    forall p ensures !OccursAt(PS1, MarkerPrefix(k), p) {
      OccursNegative(PS1, MarkerPrefix(k), p);
      if p >= 0 {
        PromptHasNoMarks(p);
        MarkerMarks(PS1, k, p);
      }
    }
  }

  lemma PromptHasNoMarks(i: nat)
    ensures !Marks(PS1, i)
  {}

  /** The promise broken: for every cap and every exit status but 0, a history from the start
      of a session in which the first command prints one framing with code 0, nobody else
      prints its marker, and the code returned for it is another. */
  lemma CodeCanBeWrong(cap: nat, c: nat)
    requires 0 < c <= STATUS_MAX
    ensures var hard := HardCap(cap);
            var x := JobOutput(hard, c);
            var t := RunAll(hard, INIT, Marked() + ([Print(x)] + ReadAll(|x|) + [RunRound(false), RunRound(false)]));
            && Clean(t.shell, 0) && OnlyFrame(t.shell, 0, 0) && t.shell.parts[0].code == 0
            && exists at :: t.done == [Returned(0, c, at, false)]
  {
    hide HardCap, JobOutput, ReadAll, RunAll, Marked, MarkerPrefix, OccursAt, Inv, Next, RunStep;
    var hard, x := HardCap(cap), JobOutput(HardCap(cap), c);
    var job := [Print(x)] + ReadAll(|x|) + [RunRound(false), RunRound(false)];
    ReachSuffix(hard);
    var s := RunAll(hard, INIT, Marked());
    NothingOccurs(0);
    PromptHasNoMarker(0);
    assert |s.wire| + |x| == |x|;
    FrontDropTakesAnotherCode(hard, s, c);
    RunAllAppend(hard, INIT, Marked(), job);
    assert s.done == [];
  }

  lemma NothingOccurs(k: nat)
    ensures forall p :: !OccursAt([], MarkerPrefix(k), p)
  {
    MarkerIsPlain(k);
  }
}
