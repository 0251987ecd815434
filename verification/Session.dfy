/** A session as a state machine: the shell prints, the reader thread reads, one checked
    run at a time goes through its expects, interrupts peek. Every interleaving is a list
    of actions. */
module Session {
  import opened Text
  import opened Utf8
  import opened Decoders
  import opened Framing
  import opened Search
  import opened Reader
  import opened Expect
  import opened Protocol

  /** `SHELLPS1PREFIX` */
  const PS1: Bytes := [83, 72, 69, 76, 76, 80, 83, 49, 80, 82, 69, 70, 73, 88]

  /** Where the run that holds the run lock is. `from` is the offset its current expect
      remembers. `AwaitSuffix` also remembers `dropped_total` at the marker. `AwaitPrompt`
      has the code, the offset in the decoded text where it was read, and whether
      `dropped_total` was still the same then. */
  datatype Phase =
    | Idle
    | AwaitMarker(k: nat, from: Option<nat>)
    | AwaitSuffix(k: nat, from: Option<nat>, droppedAt: nat)
    | AwaitPrompt(k: nat, from: Option<nat>, code: int, at: nat, intact: bool)
    | Recovering(from: Option<nat>)
    | Draining

  /** An exit code handed to the caller of run `k`, and the offset in the decoded text where
      it was read. `intact`: no unread text was dropped between the match of the marker
      and the match of the suffix. */
  datatype Returned = Returned(k: nat, code: int, at: nat, intact: bool)

  /** An interrupt: its expect waits, or has matched, `n` being the length of `before` and
      the match. */
  datatype Peek = Waits(from: Option<nat>) | Matched(n: nat)

  /** `dead` is the session's own closed flag. `poisoned`: a thread panicked while it held
      the reader's lock, so every later use of the lock panics. */
  datatype Machine = Machine(
    shell: Shell, wire: Bytes, log: Log, seqno: nat, phase: Phase,
    peeks: map<nat, Peek>, done: seq<Returned>, dead: bool, poisoned: bool)

  datatype Action =
    | Print(text: Bytes)                  // the shell or a command prints
    | PrintFrame(k: nat, code: nat)       // the shell runs the echo of submission k
    | Read(n: nat)                        // the reader thread reads n bytes
    | ReadEof
    | CloseSession
    | StartRun(written: bool)             // run_checked up to its write
    | RunRound(late: bool)                // one round of the run's expect or sleep
    | PeekRound(id: nat, late: bool)      // one round of an interrupt's expect
    | Trail(id: nat)                      // the trailing peek of an interrupt that matched

  const INIT := Machine(Shell([], []), [], START, 0, Idle, map[], [], false, false)

  // ----------------------------------------------------------------------- rounds

  /** The end of one round of `expect_blocking`. */
  datatype Round = Found(hit: Hit) | Again(from: nat) | Expired | AtEof | IsClosed

  function RoundOf(r: Reader.State, from: Option<nat>, pat: Bytes, late: bool): (o: Round)
    requires Bounded(r)
    ensures o.Found? ==> r.consumed <= o.hit.pos <= |r.buf| && OccursAt(r.buf, pat, o.hit.pos)
    ensures (o.AtEof? ==> r.eof) && (o.IsClosed? ==> r.closed)
  {
    if r.closed then IsClosed
    else match Scan(r, from, [pat])
      case Some(hit) => ScanBounds(r, from, [pat]); Found(hit)
      case None =>
        if r.eof then AtEof
        else if late then Expired
        else Again(NextFrom(|r.buf|, r.consumed, [pat]))
  }

  predicate Usable(s: Machine) { Bounded(s.log.r) }

  function TakeHit(hard: nat, h: Log, hit: Hit, pat: Bytes): (g: Log)
    requires Bounded(h.r)
    ensures Bounded(g.r)
  {
    Apply(hard, h, Take(hit.pos + |pat|))
  }

  /** What a round of the run does: to the buffer, where the run stands then, whether it
      found the shell dead, and the code it hands to its caller. */
  datatype Turn = Turn(log: Log, phase: Phase, died: bool, returned: seq<Returned>)

  function MoveOn(log: Log, phase: Phase): Turn { Turn(log, phase, false, []) }

  /** `mark_dead`. */
  function Die(hard: nat, h: Log): Turn
    requires Bounded(h.r)
  {
    Turn(Apply(hard, h, NotifyClose), Idle, true, [])
  }

  /** `run_checked` up to the marker. */
  function MarkerTurn(hard: nat, h: Log, k: nat, from: Option<nat>, late: bool): (u: Turn)
    requires Bounded(h.r)
    ensures Bounded(u.log.r)
  {
    match RoundOf(h.r, from, MarkerPrefix(k), late)
    case Found(hit) => MoveOn(TakeHit(hard, h, hit, MarkerPrefix(k)), AwaitSuffix(k, None, h.r.dropped))
    case Again(f) => MoveOn(h, AwaitMarker(k, Some(f)))
    case Expired => MoveOn(h, Recovering(None))
    case AtEof => Die(hard, h)
    case IsClosed => Die(hard, h)
  }

  /** Parse what stands before the suffix. */
  function AfterSuffix(h: Log, k: nat, droppedAt: nat, hit: Hit): Phase
    requires h.r.consumed <= hit.pos <= |h.r.buf|
  {
    match ParseCode(h.r.buf[h.r.consumed..hit.pos])
    case Some(code) => AwaitPrompt(k, None, code, Cursor(h), h.r.dropped == droppedAt)
    case None => Idle
  }

  /** `extract_exit_code` up to the suffix. */
  function SuffixTurn(hard: nat, h: Log, k: nat, from: Option<nat>, droppedAt: nat, late: bool): (u: Turn)
    requires Bounded(h.r)
    ensures Bounded(u.log.r)
  {
    match RoundOf(h.r, from, SUFFIX, late)
    case Found(hit) => MoveOn(TakeHit(hard, h, hit, SUFFIX), AfterSuffix(h, k, droppedAt, hit))
    case Again(f) => MoveOn(h, AwaitSuffix(k, Some(f), droppedAt))
    case Expired => MoveOn(h, Idle)
    case AtEof => Die(hard, h)
    case IsClosed => Die(hard, h)
  }

  /** `extract_exit_code` up to the prompt; `o` is what it then returns. */
  function PromptTurn(hard: nat, h: Log, o: Returned, from: Option<nat>, late: bool): (u: Turn)
    requires Bounded(h.r)
    ensures Bounded(u.log.r)
  {
    match RoundOf(h.r, from, PS1, late)
    case Found(hit) => Turn(TakeHit(hard, h, hit, PS1), Idle, false, [o])
    case Again(f) => MoveOn(h, AwaitPrompt(o.k, Some(f), o.code, o.at, o.intact))
    case Expired => MoveOn(h, Idle)
    case AtEof => Die(hard, h)
    case IsClosed => Die(hard, h)
  }

  /** `recover_timed_out_command` up to its discard. */
  function RecoveryTurn(hard: nat, h: Log, from: Option<nat>, late: bool): (u: Turn)
    requires Bounded(h.r)
    ensures Bounded(u.log.r)
  {
    match RoundOf(h.r, from, PS1, late)
    case Found(hit) => MoveOn(TakeHit(hard, h, hit, PS1), Draining)
    case Again(f) => MoveOn(h, Recovering(Some(f)))
    case Expired => MoveOn(h, Draining)
    case AtEof => MoveOn(h, Draining)
    case IsClosed => MoveOn(h, Draining)
  }

  /** One round of the run, without custom expect strings. */
  function TurnOf(hard: nat, h: Log, phase: Phase, late: bool): (u: Turn)
    requires Bounded(h.r)
    ensures Bounded(u.log.r)
  {
    match phase
    case Idle => MoveOn(h, Idle)
    case AwaitMarker(k, from) => MarkerTurn(hard, h, k, from, late)
    case AwaitSuffix(k, from, droppedAt) => SuffixTurn(hard, h, k, from, droppedAt, late)
    case AwaitPrompt(k, from, code, at, intact) => PromptTurn(hard, h, Returned(k, code, at, intact), from, late)
    case Recovering(from) => RecoveryTurn(hard, h, from, late)
    case Draining => MoveOn(Apply(hard, h, Discard), Idle)
  }

  function After(s: Machine, u: Turn): Machine {
    s.(log := u.log, phase := u.phase, dead := s.dead || u.died, done := s.done + u.returned)
  }

  function RunStep(hard: nat, s: Machine, late: bool): (t: Machine)
    requires Usable(s)
    ensures Usable(t)
  {
    After(s, TurnOf(hard, s.log, s.phase, late))
  }

  /** One round of an interrupt: it peeks, and closes the session only on a dead shell. */
  function PeekStep(hard: nat, s: Machine, id: nat, late: bool): (t: Machine)
    requires Usable(s)
    ensures Usable(t)
  {
    var from := if id in s.peeks && s.peeks[id].Waits? then s.peeks[id].from else None;
    match RoundOf(s.log.r, from, PS1, late)
    case Found(hit) => s.(peeks := s.peeks[id := Matched(hit.pos - s.log.r.consumed + |PS1|)])
    case Again(f) => s.(peeks := s.peeks[id := Waits(Some(f))])
    case Expired => s.(peeks := s.peeks - {id})
    case AtEof => s.(peeks := s.peeks - {id}, log := Apply(hard, s.log, NotifyClose), dead := true)
    case IsClosed => s.(peeks := s.peeks - {id}, log := Apply(hard, s.log, NotifyClose), dead := true)
  }

  /** The trailing peek does not panic. */
  predicate TrailLegal(s: Machine, id: nat) {
    id in s.peeks && s.peeks[id].Matched? ==> PeekLegal(s.log.r, s.peeks[id].n)
  }

  function TrailStep(s: Machine, id: nat): Machine {
    s.(peeks := s.peeks - {id}, poisoned := !TrailLegal(s, id))
  }

  /** With the lock poisoned, for a run that is not left waiting for ever: its expect reports
      a closed reader, `mark_dead` sets the flag and panics; recovery goes on to its discard
      and panics there. The reader thread and everyone else who takes the lock panics. */
  function Panicked(s: Machine, a: Action): Machine {
    match a
    case StartRun(_) => if s.phase == Idle && !s.dead then s.(seqno := s.seqno + 1) else s
    case RunRound(_) => s.(phase := Idle, dead := s.dead || !(s.phase.Idle? || s.phase.Recovering? || s.phase.Draining?))
    case PeekRound(id, _) => s.(peeks := s.peeks - {id}, dead := true)
    case Trail(id) => s.(peeks := s.peeks - {id})
    case CloseSession => s.(dead := true)
    case _ => s
  }

  /** Framings come in the order of the submissions. */
  predicate MayPrint(sh: Shell, k: nat) {
    forall i :: 0 <= i < |sh.parts| ==> sh.parts[i].seqno < k
  }

  /** Actions that are not possible in a state do nothing. */
  function Next(hard: nat, s: Machine, a: Action): (t: Machine)
    requires Usable(s)
    ensures Usable(t)
  {
    if a.Print? then Emit(s, s.shell.(tail := s.shell.tail + a.text), a.text)
    else if a.PrintFrame? then
      if a.k < s.seqno && MayPrint(s.shell, a.k) && a.code <= STATUS_MAX
      then Emit(s, WithFrame(s.shell, a.k, a.code), Frame(a.k, a.code))
      else s
    else if s.poisoned then Panicked(s, a)
    else Locked(hard, s, a)
  }

  function WithFrame(sh: Shell, k: nat, code: nat): Shell {
    Shell(sh.parts + [Printed(sh.tail, k, code)], [])
  }

  function Emit(s: Machine, sh: Shell, more: Bytes): Machine {
    s.(shell := sh, wire := s.wire + more)
  }

  /** The reader thread and the close. */
  function ReaderStep(hard: nat, s: Machine, a: Action): (t: Machine)
    requires Usable(s)
    ensures Usable(t)
  {
    match a
    case Read(n) =>
      if 0 < n <= CHUNK_SIZE && n <= |s.wire| && !s.log.r.eof && !s.log.r.closed
      then s.(log := Apply(hard, s.log, Append(s.wire[..n])), wire := s.wire[n..])
      else s
    case ReadEof => s.(log := Apply(hard, s.log, MarkEof))
    case CloseSession => s.(log := Apply(hard, s.log, NotifyClose), dead := true)
    case _ => s
  }

  function StartStep(s: Machine, written: bool): Machine {
    if s.phase == Idle && !s.dead
    then s.(seqno := s.seqno + 1, phase := if written then AwaitMarker(s.seqno, None) else Idle)
    else s
  }

  /** What uses the reader's lock. */
  function Locked(hard: nat, s: Machine, a: Action): (t: Machine)
    requires Usable(s)
    ensures Usable(t)
  {
    match a
    case StartRun(written) => StartStep(s, written)
    case RunRound(late) => RunStep(hard, s, late)
    case PeekRound(id, late) => PeekStep(hard, s, id, late)
    case Trail(id) => TrailStep(s, id)
    case _ => ReaderStep(hard, s, a)
  }

  function RunAll(hard: nat, s: Machine, acts: seq<Action>): (t: Machine)
    requires Usable(s)
    ensures Usable(t)
    decreases |acts|
  {
    if acts == [] then s else RunAll(hard, Next(hard, s, acts[0]), acts[1..])
  }

  // -------------------------------------------------------------------- invariants

  /** The reader has a prefix of what the shell printed; the rest is on the wire. */
  ghost predicate Piped(hard: nat, s: Machine) {
    Sound(hard, s.log) && s.log.accepted + s.wire == Out(s.shell)
  }

  /** The marker of `k` stands at `m` in the text, right in front of the cursor; or unread
      text was dropped since, and then at least the rest of the framing is gone too. */
  ghost predicate BehindMarker(h: Log, k: nat, droppedAt: nat, m: nat) {
    && OccursAt(Decoded(h), MarkerPrefix(k), m) && droppedAt <= h.r.dropped
    && (h.r.dropped == droppedAt ==> Cursor(h) == m + |MarkerPrefix(k)|)
    && (h.r.dropped > droppedAt ==> Cursor(h) >= m + |MarkerPrefix(k)| + 14)
  }

  /** Where a code came from: read at `at` right behind the marker of framing `k` and equal
      to its code; or, after a drop, behind the whole framing, in text printed since. */
  ghost predicate From(sh: Shell, k: nat, code: int, at: nat, intact: bool, c: nat, m: nat) {
    && StandsAt(sh, k, c, m)
    && (if intact then code == c && at == m + |MarkerPrefix(k)|
        else at >= m + |Frame(k, c)| && !QuietSince(sh, k))
  }

  ghost predicate Origin(sh: Shell, k: nat, code: int, at: nat, intact: bool) {
    Clean(sh, k) ==> exists c: nat, m: nat :: From(sh, k, code, at, intact, c, m)
  }

  ghost predicate PhaseSound(s: Machine) {
    match s.phase
    case AwaitSuffix(k, _, droppedAt) => exists m: nat :: BehindMarker(s.log, k, droppedAt, m)
    case AwaitPrompt(k, _, code, at, intact) => Origin(s.shell, k, code, at, intact)
    case _ => true
  }

  ghost predicate DoneSound(s: Machine) {
    forall o :: o in s.done ==> Origin(s.shell, o.k, o.code, o.at, o.intact)
  }

  /** The run in progress is the latest one started, and later than every one that returned. */
  ghost predicate Current(s: Machine, k: nat) {
    k + 1 == s.seqno && forall i :: 0 <= i < |s.done| ==> s.done[i].k < k
  }

  /** No number is used twice: not by framings, not by codes returned. */
  ghost predicate Fresh(s: Machine) {
    && (forall i :: 0 <= i < |s.shell.parts| ==> s.shell.parts[i].seqno < s.seqno)
    && (forall i :: 0 <= i < |s.done| ==> s.done[i].k < s.seqno)
    && (forall i, j :: 0 <= i < j < |s.done| ==> s.done[i].k < s.done[j].k)
    && match s.phase
       case AwaitMarker(k, _) => Current(s, k)
       case AwaitSuffix(k, _, _) => Current(s, k)
       case AwaitPrompt(k, _, _, _, _) => Current(s, k)
       case _ => true
  }

  ghost predicate Inv(hard: nat, s: Machine) {
    && hard >= MIN_CAP && Piped(hard, s) && PhaseSound(s) && DoneSound(s)
    && Ordered(s.shell) && Fresh(s)
  }

  // -------------------------------------------------------------- reading the code

  /** The heart of it: between the marker of `k` and any later suffix in the decoded
      text, whatever parses is the code of the framing numbered `k`. */
  lemma ExitCodeRead(sh: Shell, b: Bytes, k: nat, m: nat, q: nat)
    requires b <= Out(sh) && Clean(sh, k) && OccursAt(Lossy(b), MarkerPrefix(k), m)
    requires m + |MarkerPrefix(k)| <= q && OccursAt(Lossy(b), SUFFIX, q)
    ensures match ParseCode(Lossy(b)[m + |MarkerPrefix(k)|..q])
            case Some(code) => code >= 0 && StandsAt(sh, k, code, m)
            case None => true
  {
    hide Lossy, MarkerPrefix, ParseCode, Frame, OccursAt, Clean, Plain, HasFrame, Out;
    var p := MarkerPrefix(k);
    var cur := m + |p|;
    OccursInside(Lossy(b), SUFFIX, q);
    var code, r := MarkerShows(sh, b, k, m);
    OccursInside(b, p, r);
    var w := b[r + |p|..];
    assert b[r..] == p + w by { OccursSplit(b, p, r); }
    TextBehind(b, p, r, m, k);
    assert Out(sh)[r..][..|b| - r] == b[r..];
    FrameBehindMarker(Out(sh)[r..], b[r..], k, code);
    OccursInSuffix(Lossy(b), SUFFIX, cur, q - cur);
    CodeBeforeSuffix(w, code, q - cur);
    assert Lossy(b)[cur..q] == Lossy(w)[..q - cur];
  }

  /** The decoded text behind a marker is the decoding of the bytes behind it. */
  lemma TextBehind(b: Bytes, p: Bytes, r: nat, m: nat, k: nat)
    requires p == MarkerPrefix(k) && OccursAt(b, p, r) && |Lossy(b[..r])| == m
    ensures r + |p| <= |b| && m + |p| <= |Lossy(b)| && Lossy(b)[m + |p|..] == Lossy(b[r + |p|..])
  {
    hide *;
    MarkerIsPlain(k);
    OccursInside(b, p, r);
    OccursSplit(b, p, r);
    var w, rest := b[r + |p|..], b[r..];
    assert b == b[..r] + rest && rest[0] == p[0];
    CutBeforeE(b[..r], rest);
    LossyAppend(b[..r], rest);
    PlainThenRest(p, w);
    assert Lossy(b) == Lossy(b[..r]) + (p + Lossy(w));
  }

  lemma CutBeforeE(p: Bytes, x: Bytes)
    requires x != [] && x[0] == 69
    ensures CleanCut(p, x)
  {
    LeadCut(p, x);
  }

  lemma OccursSplit(s: Bytes, p: Bytes, i: nat)
    requires OccursAt(s, p, i)
    ensures s[i..] == p + s[i + |p|..]
  {}

  /** Behind the marker stand the digits and the suffix, as far as they have arrived. */
  lemma FrameBehindMarker(full: Bytes, got: Bytes, k: nat, code: nat)
    requires Frame(k, code) <= full && got <= full && MarkerPrefix(k) <= got
    ensures var w, d := got[|MarkerPrefix(k)|..], Dec(code) + SUFFIX; w <= d || d <= w
  {
    hide Dec;
    var m, d := MarkerPrefix(k), Dec(code) + SUFFIX;
    assert Frame(k, code) == m + d;
    var w, x := got[|m|..], full[|m|..];
    assert d <= x by { assert full[..|m| + |d|][|m|..] == x[..|d|]; }
    assert w <= x;
    if |w| <= |d| { assert x[..|d|][..|w|] == x[..|w|]; } else { assert x[..|w|][..|d|] == x[..|d|]; }
  }

  /** After a drop, a suffix is found only behind the whole framing, in text that was
      printed since and contains one of its own. */
  lemma CodeReadLate(sh: Shell, b: Bytes, k: nat, code: int, m: nat, cur: nat, q: nat)
    requires b <= Out(sh) && Ordered(sh) && forall i :: 0 <= i < |sh.parts| ==> sh.parts[i].seqno <= k
    requires OccursAt(Lossy(b), MarkerPrefix(k), m) && OccursAt(Lossy(b), SUFFIX, q)
    requires m + |MarkerPrefix(k)| + 14 <= cur <= q
    ensures Origin(sh, k, code, cur, false)
  {
    hide Lossy, MarkerPrefix, Frame, OccursAt, Clean, HasFrame, Out, QuietSince, Ordered, ShownFrom;
    if Clean(sh, k) {
      var c, r := MarkerShows(sh, b, k, m);
      StatusOfFrame(sh, k, c);
      if QuietSince(sh, k) { NoSuffixBehind(sh, b, k, m, q); }
      assert From(sh, k, code, cur, false, c, m);
    }
  }

  // ------------------------------------------------------------ every step keeps them

  /** More output: framings stay, and clean or quiet output was so before. */
  ghost predicate Prints(sh: Shell, sh': Shell, more: Bytes) {
    && Out(sh') == Out(sh) + more
    && (forall k :: Clean(sh', k) ==> Clean(sh, k))
    && (forall k :: QuietSince(sh', k) ==> QuietSince(sh, k))
    && (forall k, code :: HasFrame(sh, k, code) ==> HasFrame(sh', k, code))
  }

  lemma PrintsText(sh: Shell, text: Bytes)
    ensures Prints(sh, sh.(tail := sh.tail + text), text)
  {
    hide MarkerPrefix, Printout, Frame;
    var sh' := sh.(tail := sh.tail + text);
    forall k | Clean(sh', k) ensures Clean(sh, k) {
      forall p ensures !OccursAt(sh.tail, MarkerPrefix(k), p) { StillOccurs(sh.tail, text, MarkerPrefix(k), p); }
    }
    forall k | QuietSince(sh', k) ensures QuietSince(sh, k) {
      assert PrintedSince(sh, k) ==> PrintedSince(sh', k);
      forall p ensures OccursAt(sh.tail, SUFFIX, p) ==> OccursAt(sh'.tail, SUFFIX, p) {
        StillOccurs(sh.tail, text, SUFFIX, p);
      }
    }
    forall k, code | HasFrame(sh, k, code) ensures HasFrame(sh', k, code) {
      var i :| 0 <= i < |sh.parts| && sh.parts[i].seqno == k && sh.parts[i].code == code;
      assert sh'.parts[i].seqno == k;
    }
  }

  lemma StillOccurs(s: Bytes, t: Bytes, p: Bytes, i: int)
    ensures OccursAt(s, p, i) ==> OccursAt(s + t, p, i)
  {
    if OccursAt(s, p, i) { OccursInPrefix(s, t, p, i); }
  }

  lemma PrintsFrame(sh: Shell, j: nat, c: nat)
    requires MayPrint(sh, j)
    ensures Prints(sh, WithFrame(sh, j, c), Frame(j, c))
  {
    hide MarkerPrefix, Frame, OccursAt;
    var n, sh' := |sh.parts|, WithFrame(sh, j, c);
    assert sh'.parts[..n] == sh.parts && sh'.parts[n] == Printed(sh.tail, j, c);
    assert Printout(sh'.parts) == Printout(sh.parts) + sh.tail + Frame(j, c);
    hide Printout;
    assert forall i :: 0 <= i < n ==> sh'.parts[i] == sh.parts[i];
    forall k | QuietSince(sh', k) ensures QuietSince(sh, k) {
      if PrintedSince(sh, k) {
        var i :| 0 <= i < n && sh.parts[i].seqno >= k;
        assert sh'.parts[n].seqno > k;
      }
    }
  }

  lemma OriginStays(sh: Shell, sh': Shell, more: Bytes, k: nat, code: int, at: nat, intact: bool)
    requires Prints(sh, sh', more) && Origin(sh, k, code, at, intact)
    ensures Origin(sh', k, code, at, intact)
  {
    hide Clean, QuietSince, HasFrame, Out, Frame, MarkerPrefix, ShownFrom;
    if Clean(sh', k) {
      var c: nat, m: nat :| From(sh, k, code, at, intact, c, m);
      var r: nat :| ShownFrom(sh, k, c, m, r);
      ShownStays(sh, sh', more, k, c, m, r);
      assert From(sh', k, code, at, intact, c, m);
    }
  }

  lemma ShownStays(sh: Shell, sh': Shell, more: Bytes, k: nat, c: nat, m: nat, r: nat)
    requires Out(sh') == Out(sh) + more && ShownFrom(sh, k, c, m, r)
    ensures ShownFrom(sh', k, c, m, r)
  {
    hide Out, Frame, Lossy;
    assert Out(sh')[..r] == Out(sh)[..r] && Out(sh')[r..] == Out(sh)[r..] + more;
  }

  /** More output changes nothing that was established. */
  lemma PrintKeeps(hard: nat, s: Machine, sh': Shell, more: Bytes)
    requires Piped(hard, s) && PhaseSound(s) && DoneSound(s) && Prints(s.shell, sh', more)
    ensures var t := Emit(s, sh', more);
            Piped(hard, t) && PhaseSound(t) && DoneSound(t)
  {
    hide Sound, Origin, Prints, Out;
    var t := Emit(s, sh', more);
    OutGrows(s.shell, sh', more);
    assert s.log.accepted + (s.wire + more) == (s.log.accepted + s.wire) + more;
    match s.phase {
      case AwaitPrompt(k, _, code, at, intact) => OriginStays(s.shell, sh', more, k, code, at, intact);
      case _ =>
    }
    forall o | o in t.done ensures Origin(t.shell, o.k, o.code, o.at, o.intact) {
      OriginStays(s.shell, sh', more, o.k, o.code, o.at, o.intact);
    }
  }

  lemma OutGrows(sh: Shell, sh': Shell, more: Bytes)
    requires Prints(sh, sh', more)
    ensures Out(sh') == Out(sh) + more
  {}

  /** The same reader, run and output: interrupts and flags do not matter. */
  lemma BookkeepingKeeps(hard: nat, s: Machine, t: Machine)
    requires Inv(hard, s) && t == s.(peeks := t.peeks, dead := t.dead, poisoned := t.poisoned)
    ensures Inv(hard, t)
  {
    hide Sound, Origin, Out, BehindMarker, Ordered;
  }

  /** Text that arrives, or a flag that is set: an append that drops unread text drops
      more than half the cap. */
  lemma BehindMarkerStays(hard: nat, s: Machine, e: Event, k: nat, droppedAt: nat, m: nat)
    requires hard >= MIN_CAP && Sound(hard, s.log) && (e.Append? || e.MarkEof? || e.NotifyClose?)
    requires BehindMarker(s.log, k, droppedAt, m)
    ensures BehindMarker(Apply(hard, s.log, e), k, droppedAt, m)
  {
    hide TextSound, MarkerPrefix, OccursAt, IsUtf8, IsBoundary, Gc, Lossy, TailLen;
    var log := Apply(hard, s.log, e);
    ApplyContinues(hard, s.log, e);
    assert Decoded(log) == Decoded(s.log) + Decoded(log)[|Decoded(s.log)|..];
    OccursInside(Decoded(s.log), MarkerPrefix(k), m);
    OccursInPrefix(Decoded(s.log), Decoded(log)[|Decoded(s.log)|..], MarkerPrefix(k), m);
    PassiveTaken(hard, s.log, e);
    hide Apply;
    if e.Append? && !s.log.r.closed && !s.log.r.eof { AppendSizes(hard, s.log, e.chunk); }
  }

  lemma PassiveTaken(hard: nat, h: Log, e: Event)
    requires Bounded(h.r) && (e.Append? || e.MarkEof? || e.NotifyClose?)
    ensures Apply(hard, h, e).taken == h.taken
    ensures !e.Append? || h.r.closed || h.r.eof ==> Apply(hard, h, e).r.dropped == h.r.dropped
  {}

  /** The reader thread and the closing flags. */
  lemma PassiveKeeps(hard: nat, s: Machine, e: Event, wire: Bytes)
    requires Inv(hard, s) && (e.Append? || e.MarkEof? || e.NotifyClose?)
    requires Apply(hard, s.log, e).accepted + wire == Out(s.shell)
    ensures Inv(hard, s.(log := Apply(hard, s.log, e), wire := wire))
  {
    hide Sound, Origin, Out, BehindMarker, Ordered, Apply;
    SoundIsBounded(hard, s.log);
    ApplySound(hard, s.log, e);
    var t := s.(log := Apply(hard, s.log, e), wire := wire);
    match s.phase
    case AwaitSuffix(k, _, droppedAt) =>
      var m: nat :| BehindMarker(s.log, k, droppedAt, m);
      BehindMarkerStays(hard, s, e, k, droppedAt, m);
    case _ =>
  }

  /** A legal advance of the cursor to the end of an occurrence of `pat`. */
  ghost predicate Advanced(h: Log, log: Log, pat: Bytes, pos: nat) {
    && h.r.consumed <= pos <= |h.r.buf|
    && Decoded(log) == Decoded(h) && log.r.dropped == h.r.dropped && log.accepted == h.accepted
    && Cursor(log) == |h.gone| + pos + |pat|
    && OccursAt(Decoded(h), pat, |h.gone| + pos)
    && Decoded(h)[Cursor(h)..|h.gone| + pos] == h.r.buf[h.r.consumed..pos]
  }

  lemma TakeAdvances(hard: nat, h: Log, pat: Bytes, pos: nat)
    requires Sound(hard, h) && h.r.consumed <= pos && OccursAt(h.r.buf, pat, pos) && IsBoundary(h.r.buf, pos + |pat|)
    ensures var log := Apply(hard, h, Take(pos + |pat|));
            Sound(hard, log) && Advanced(h, log, pat, pos)
  {
    hide TextSound, IsUtf8, IsBoundary, OccursAt, Apply;
    OccursInside(h.r.buf, pat, pos);
    ApplySound(hard, h, Take(pos + |pat|));
    LegalTake(hard, h, pos + |pat|);
    InBuffer(h, pat, h.r.consumed, pos);
  }

  /** A match of the run's expect. */
  lemma FoundKeeps(hard: nat, s: Machine, from: Option<nat>, pat: Bytes, late: bool)
    requires Piped(hard, s) && IsUtf8(pat) && pat != [] && RoundOf(s.log.r, from, pat, late).Found?
    ensures var hit := RoundOf(s.log.r, from, pat, late).hit;
            var log := TakeHit(hard, s.log, hit, pat);
            Sound(hard, log) && Advanced(s.log, log, pat, hit.pos)
  {
    hide TextSound, IsUtf8, IsBoundary, Apply, Advanced, OccursAt, Out, Scan, RoundOf;
    ScanOfRound(s.log.r, from, pat, late);
    var hit := RoundOf(s.log.r, from, pat, late).hit;
    MatchIsLegal(s.log.r, from, [pat]);
    TakeAdvances(hard, s.log, pat, hit.pos);
  }

  lemma ScanOfRound(r: Reader.State, from: Option<nat>, pat: Bytes, late: bool)
    requires Bounded(r) && RoundOf(r, from, pat, late).Found?
    ensures Scan(r, from, [pat]) == Some(RoundOf(r, from, pat, late).hit)
    ensures OccursAt(r.buf, pat, RoundOf(r, from, pat, late).hit.pos)
  {
    ScanBounds(r, from, [pat]);
  }

  /** Offsets in the buffer and in the decoded text. */
  lemma InBuffer(h: Log, pat: Bytes, i: nat, j: nat)
    requires i <= j <= |h.r.buf|
    ensures OccursAt(Decoded(h), pat, |h.gone| + j) <==> OccursAt(h.r.buf, pat, j)
    ensures Decoded(h)[|h.gone| + i..|h.gone| + j] == h.r.buf[i..j]
  {
    assert Decoded(h)[|h.gone|..] == h.r.buf;
    OccursInSuffix(Decoded(h), pat, |h.gone|, j);
    assert Decoded(h)[|h.gone|..][i..j] == Decoded(h)[|h.gone| + i..|h.gone| + j];
  }

  lemma Ps1IsPlain()
    ensures Plain(PS1) && PS1 != []
  {}

  lemma MarkersAreUtf8(k: nat)
    ensures IsUtf8(MarkerPrefix(k)) && MarkerPrefix(k) != []
    ensures IsUtf8(SUFFIX) && SUFFIX != []
    ensures IsUtf8(PS1) && PS1 != []
  {
    hide IsUtf8, Plain, MarkerPrefix;
    MarkerIsPlain(k);
    PlainIsUtf8(MarkerPrefix(k));
    SuffixIsPlain();
    PlainIsUtf8(SUFFIX);
    Ps1IsPlain();
    PlainIsUtf8(PS1);
  }

  /** The bytes behind the decoded text are a prefix of what the shell printed. */
  lemma DecodedOfOutput(hard: nat, s: Machine)
    requires Piped(hard, s)
    ensures DecodedBytes(s.log) <= Out(s.shell) && Decoded(s.log) == Lossy(DecodedBytes(s.log))
  {
    hide Lossy, TailLen, Out, BufferSound;
    var a := s.log.accepted;
    assert a <= Out(s.shell) by { assert Out(s.shell)[..|a|] == a; }
  }

  /** The suffix matched: where the code came from. */
  lemma SuffixTellsOrigin(hard: nat, s: Machine, late: bool)
    requires Inv(hard, s) && s.phase.AwaitSuffix? && RoundOf(s.log.r, s.phase.from, SUFFIX, late).Found?
    ensures var hit := RoundOf(s.log.r, s.phase.from, SUFFIX, late).hit;
            match ParseCode(s.log.r.buf[s.log.r.consumed..hit.pos])
            case Some(code) =>
              Origin(s.shell, s.phase.k, code, Cursor(s.log), s.log.r.dropped == s.phase.droppedAt)
            case None => true
  {
    hide Sound, IsUtf8, MarkerPrefix, Lossy, Clean, Out, ParseCode, OccursAt, Apply, RoundOf, TailLen, From, Ordered;
    var AwaitSuffix(k, from, droppedAt) := s.phase;
    MarkersAreUtf8(k);
    FoundKeeps(hard, s, from, SUFFIX, late);
    DecodedOfOutput(hard, s);
    var hit := RoundOf(s.log.r, from, SUFFIX, late).hit;
    var m: nat :| BehindMarker(s.log, k, droppedAt, m);
    var b, q := DecodedBytes(s.log), |s.log.gone| + hit.pos;
    match ParseCode(s.log.r.buf[s.log.r.consumed..hit.pos])
    case None =>
    case Some(code) =>
      if s.log.r.dropped > droppedAt {
        CodeReadLate(s.shell, b, k, code, m, Cursor(s.log), q);
      } else if Clean(s.shell, k) {
        ExitCodeRead(s.shell, b, k, m, q);
        OwnCode(s.shell, k, code, m);
      }
  }

  lemma OwnCode(sh: Shell, k: nat, code: int, m: nat)
    requires code >= 0 && StandsAt(sh, k, code, m)
    ensures From(sh, k, code, m + |MarkerPrefix(k)|, true, code, m)
  {}

  /** A turn that returns nothing, to a phase that claims nothing. */
  lemma PlainTurnKeeps(hard: nat, s: Machine, u: Turn)
    requires Inv(hard, s) && Sound(hard, u.log) && u.log.accepted == s.log.accepted && u.returned == []
    requires var p := u.phase;
             p.Idle? || p.Recovering? || p.Draining? || (p.AwaitMarker? && Current(s, p.k))
    ensures Inv(hard, After(s, u))
  {
    hide Sound, Origin, Out, Ordered;
    var t := After(s, u);
    assert t.shell == s.shell && t.done == s.done;
  }

  lemma DeathKeeps(hard: nat, s: Machine)
    requires Inv(hard, s)
    ensures Usable(s) && Inv(hard, After(s, Die(hard, s.log)))
  {
    hide Inv, Sound, After;
    InvIsSound(hard, s);
    ApplySound(hard, s.log, NotifyClose);
    PlainTurnKeeps(hard, s, Die(hard, s.log));
  }

  lemma InvIsSound(hard: nat, s: Machine)
    requires Inv(hard, s)
    ensures Sound(hard, s.log) && Bounded(s.log.r) && Piped(hard, s) && hard >= MIN_CAP
    ensures s.log.accepted + s.wire == Out(s.shell)
  {}

  lemma SuffixPhase(hard: nat, s: Machine) returns (m: nat)
    requires Inv(hard, s) && s.phase.AwaitSuffix?
    ensures BehindMarker(s.log, s.phase.k, s.phase.droppedAt, m)
  {
    hide BehindMarker;
    m :| BehindMarker(s.log, s.phase.k, s.phase.droppedAt, m);
  }

  lemma PromptPhase(hard: nat, s: Machine)
    requires Inv(hard, s) && s.phase.AwaitPrompt?
    ensures Origin(s.shell, s.phase.k, s.phase.code, s.phase.at, s.phase.intact)
  {
    hide Origin;
  }

  lemma MarkerTurnKeeps(hard: nat, s: Machine, late: bool)
    requires Inv(hard, s) && s.phase.AwaitMarker?
    ensures Usable(s) && Inv(hard, RunStep(hard, s, late))
  {
    hide Inv, Sound, RoundOf, Apply, OccursAt, MarkerPrefix, IsUtf8, Advanced, BehindMarker, After, TakeHit;
    InvIsSound(hard, s);
    var AwaitMarker(k, from) := s.phase;
    CurrentRun(hard, s);
    match RoundOf(s.log.r, from, MarkerPrefix(k), late)
    case Found(hit) =>
      MarkersAreUtf8(k);
      FoundKeeps(hard, s, from, MarkerPrefix(k), late);
      var log := TakeHit(hard, s.log, hit, MarkerPrefix(k));
      AdvancedBehind(s.log, log, k, hit.pos);
      RunTurnKeeps(hard, s, MoveOn(log, AwaitSuffix(k, None, s.log.r.dropped)), |s.log.gone| + hit.pos);
    case Again(f) => PlainTurnKeeps(hard, s, MoveOn(s.log, AwaitMarker(k, Some(f))));
    case Expired => PlainTurnKeeps(hard, s, MoveOn(s.log, Recovering(None)));
    case AtEof => DeathKeeps(hard, s);
    case IsClosed => DeathKeeps(hard, s);
  }

  lemma AdvancedBehind(h: Log, log: Log, k: nat, pos: nat)
    requires Advanced(h, log, MarkerPrefix(k), pos)
    ensures BehindMarker(log, k, h.r.dropped, |h.gone| + pos) && log.accepted == h.accepted
  {
    hide MarkerPrefix, OccursAt;
  }

  lemma AdvancedAccepts(h: Log, log: Log, pat: Bytes, pos: nat)
    requires Advanced(h, log, pat, pos)
    ensures log.accepted == h.accepted
  {}

  lemma CurrentRun(hard: nat, s: Machine)
    requires Inv(hard, s)
    ensures s.phase.AwaitMarker? || s.phase.AwaitSuffix? || s.phase.AwaitPrompt? ==> Current(s, s.phase.k)
  {}

  /** A turn that returns nothing, to a phase that claims something. */
  lemma RunTurnKeeps(hard: nat, s: Machine, u: Turn, m: nat)
    requires Inv(hard, s) && Sound(hard, u.log) && u.log.accepted == s.log.accepted && u.returned == []
    requires var p := u.phase;
             (p.AwaitSuffix? && BehindMarker(u.log, p.k, p.droppedAt, m))
             || (p.AwaitPrompt? && Origin(s.shell, p.k, p.code, p.at, p.intact))
    requires Current(s, u.phase.k)
    ensures Inv(hard, After(s, u))
  {
    hide Sound, Origin, Out, Ordered, BehindMarker;
    var t := After(s, u);
    assert t.shell == s.shell && t.done == s.done;
  }

  lemma SuffixTurnKeeps(hard: nat, s: Machine, late: bool)
    requires Inv(hard, s) && s.phase.AwaitSuffix?
    ensures Usable(s) && Inv(hard, RunStep(hard, s, late))
  {
    hide Inv, Sound, Origin, RoundOf, Apply, IsUtf8, ParseCode, BehindMarker, OccursAt, Advanced, After, TakeHit;
    InvIsSound(hard, s);
    var AwaitSuffix(k, from, droppedAt) := s.phase;
    var m := SuffixPhase(hard, s);
    CurrentRun(hard, s);
    match RoundOf(s.log.r, from, SUFFIX, late)
    case Found(hit) =>
      MarkersAreUtf8(k);
      FoundKeeps(hard, s, from, SUFFIX, late);
      SuffixTellsOrigin(hard, s, late);
      var log := TakeHit(hard, s.log, hit, SUFFIX);
      AdvancedAccepts(s.log, log, SUFFIX, hit.pos);
      match ParseCode(s.log.r.buf[s.log.r.consumed..hit.pos]) {
        case Some(code) => RunTurnKeeps(hard, s, MoveOn(log, AfterSuffix(s.log, k, droppedAt, hit)), m);
        case None => PlainTurnKeeps(hard, s, MoveOn(log, Idle));
      }
    case Again(f) => RunTurnKeeps(hard, s, MoveOn(s.log, AwaitSuffix(k, Some(f), droppedAt)), m);
    case Expired => PlainTurnKeeps(hard, s, MoveOn(s.log, Idle));
    case AtEof => DeathKeeps(hard, s);
    case IsClosed => DeathKeeps(hard, s);
  }

  lemma PromptTurnKeeps(hard: nat, s: Machine, late: bool)
    requires Inv(hard, s) && s.phase.AwaitPrompt?
    ensures Usable(s) && Inv(hard, RunStep(hard, s, late))
  {
    hide Inv, Sound, Origin, RoundOf, Apply, OccursAt, IsUtf8, Advanced, After, TakeHit;
    InvIsSound(hard, s);
    var AwaitPrompt(k, from, code, at, intact) := s.phase;
    PromptPhase(hard, s);
    CurrentRun(hard, s);
    match RoundOf(s.log.r, from, PS1, late)
    case Found(hit) =>
      MarkersAreUtf8(k);
      FoundKeeps(hard, s, from, PS1, late);
      var log := TakeHit(hard, s.log, hit, PS1);
      AdvancedAccepts(s.log, log, PS1, hit.pos);
      ReturnKeeps(hard, s, log);
    case Again(f) => RunTurnKeeps(hard, s, MoveOn(s.log, AwaitPrompt(k, Some(f), code, at, intact)), 0);
    case Expired => PlainTurnKeeps(hard, s, MoveOn(s.log, Idle));
    case AtEof => DeathKeeps(hard, s);
    case IsClosed => DeathKeeps(hard, s);
  }

  lemma ReturnKeeps(hard: nat, s: Machine, log: Log)
    requires Inv(hard, s) && s.phase.AwaitPrompt? && Sound(hard, log) && log.accepted == s.log.accepted
    ensures var p := s.phase;
            Inv(hard, After(s, Turn(log, Idle, false, [Returned(p.k, p.code, p.at, p.intact)])))
  {
    hide Sound, Origin, Out, Ordered;
    var p := s.phase;
    var o := Returned(p.k, p.code, p.at, p.intact);
    var t := After(s, Turn(log, Idle, false, [o]));
    forall x | x in t.done ensures Origin(t.shell, x.k, x.code, x.at, x.intact) { assert x in s.done || x == o; }
  }

  lemma RecoveryTurnKeeps(hard: nat, s: Machine, late: bool)
    requires Inv(hard, s) && s.phase.Recovering?
    ensures Usable(s) && Inv(hard, RunStep(hard, s, late))
  {
    hide Inv, Sound, RoundOf, Apply, OccursAt, IsUtf8, Advanced, After, TakeHit;
    InvIsSound(hard, s);
    var Recovering(from) := s.phase;
    match RoundOf(s.log.r, from, PS1, late)
    case Found(hit) =>
      MarkersAreUtf8(0);
      FoundKeeps(hard, s, from, PS1, late);
      var log := TakeHit(hard, s.log, hit, PS1);
      AdvancedAccepts(s.log, log, PS1, hit.pos);
      PlainTurnKeeps(hard, s, MoveOn(log, Draining));
    case Again(f) => PlainTurnKeeps(hard, s, MoveOn(s.log, Recovering(Some(f))));
    case Expired => PlainTurnKeeps(hard, s, MoveOn(s.log, Draining));
    case AtEof => PlainTurnKeeps(hard, s, MoveOn(s.log, Draining));
    case IsClosed => PlainTurnKeeps(hard, s, MoveOn(s.log, Draining));
  }

  lemma RunStepKeeps(hard: nat, s: Machine, late: bool)
    requires Inv(hard, s)
    ensures Usable(s) && Inv(hard, RunStep(hard, s, late))
  {
    hide Inv, Sound, MarkerTurn, SuffixTurn, PromptTurn, RecoveryTurn, Apply, After;
    InvIsSound(hard, s);
    match s.phase
    case Idle => PlainTurnKeeps(hard, s, MoveOn(s.log, Idle));
    case AwaitMarker(_, _) => MarkerTurnKeeps(hard, s, late);
    case AwaitSuffix(_, _, _) => SuffixTurnKeeps(hard, s, late);
    case AwaitPrompt(_, _, _, _, _) => PromptTurnKeeps(hard, s, late);
    case Recovering(_) => RecoveryTurnKeeps(hard, s, late);
    case Draining =>
      ApplySound(hard, s.log, Discard);
      DiscardAccepts(hard, s.log);
      PlainTurnKeeps(hard, s, MoveOn(Apply(hard, s.log, Discard), Idle));
  }

  lemma DiscardAccepts(hard: nat, h: Log)
    requires Bounded(h.r)
    ensures var g := Apply(hard, h, Discard); g.accepted == h.accepted && Cursor(g) == |Decoded(g)|
  {}

  lemma PeekStepKeeps(hard: nat, s: Machine, id: nat, late: bool)
    requires Inv(hard, s)
    ensures Inv(hard, PeekStep(hard, s, id, late))
  {
    hide Inv, Sound, RoundOf;
    InvIsSound(hard, s);
    var t := PeekStep(hard, s, id, late);
    if t.log == s.log {
      BookkeepingKeeps(hard, s, t);
    } else {
      PassiveKeeps(hard, s, NotifyClose, s.wire);
      BookkeepingKeeps(hard, s.(log := Apply(hard, s.log, NotifyClose), wire := s.wire), t);
    }
  }

  lemma ReadKeeps(hard: nat, s: Machine, n: nat)
    requires Inv(hard, s) && 0 < n <= |s.wire| && !s.log.r.eof && !s.log.r.closed
    ensures Inv(hard, s.(log := Apply(hard, s.log, Append(s.wire[..n])), wire := s.wire[n..]))
  {
    hide *;
    InvIsSound(hard, s);
    ApplyAccepts(hard, s.log, Append(s.wire[..n]));
    assert (s.log.accepted + s.wire[..n]) + s.wire[n..] == s.log.accepted + s.wire;
    PassiveKeeps(hard, s, Append(s.wire[..n]), s.wire[n..]);
  }

  lemma StartKeeps(hard: nat, s: Machine, phase: Phase)
    requires Inv(hard, s) && s.phase == Idle && (phase == Idle || phase == AwaitMarker(s.seqno, None))
    ensures Inv(hard, s.(seqno := s.seqno + 1, phase := phase))
  {
    hide Sound, Origin, Out, Ordered;
  }

  lemma NothingReturned(s: Machine, t: Machine)
    requires t == s.(phase := Idle, dead := t.dead) && (s.dead ==> t.dead)
    ensures t == After(s, Turn(s.log, Idle, t.dead, []))
  {
    assert s.done + [] == s.done;
  }

  lemma PanickedKeeps(hard: nat, s: Machine, a: Action)
    requires Inv(hard, s)
    ensures Inv(hard, Panicked(s, a))
  {
    hide Inv, Sound;
    InvIsSound(hard, s);
    var t := Panicked(s, a);
    match a
    case StartRun(_) => if s.phase == Idle && !s.dead { StartKeeps(hard, s, Idle); }
    case RunRound(_) =>
      PlainTurnKeeps(hard, s, Turn(s.log, Idle, t.dead, []));
      NothingReturned(s, t);
    case PeekRound(_, _) => BookkeepingKeeps(hard, s, t);
    case Trail(_) => BookkeepingKeeps(hard, s, t);
    case CloseSession => BookkeepingKeeps(hard, s, t);
    case _ =>
  }

  lemma ReaderStepKeeps(hard: nat, s: Machine, a: Action)
    requires Inv(hard, s)
    ensures Usable(s) && Inv(hard, ReaderStep(hard, s, a))
  {
    hide Inv, Sound, Apply, Out;
    InvIsSound(hard, s);
    match a
    case Read(n) =>
      if 0 < n <= |s.wire| && !s.log.r.eof && !s.log.r.closed { ReadKeeps(hard, s, n); }
    case ReadEof =>
      ApplyAccepts(hard, s.log, MarkEof);
      PassiveKeeps(hard, s, MarkEof, s.wire);
    case CloseSession =>
      ApplyAccepts(hard, s.log, NotifyClose);
      PassiveKeeps(hard, s, NotifyClose, s.wire);
      BookkeepingKeeps(hard, s.(log := Apply(hard, s.log, NotifyClose), wire := s.wire), ReaderStep(hard, s, a));
    case _ =>
  }

  lemma LockedKeeps(hard: nat, s: Machine, a: Action)
    requires Inv(hard, s)
    ensures Usable(s) && Inv(hard, Locked(hard, s, a))
  {
    hide Inv, Sound, RunStep, PeekStep, TrailLegal, ReaderStep;
    InvIsSound(hard, s);
    match a
    case StartRun(written) =>
      if s.phase == Idle && !s.dead { StartKeeps(hard, s, StartStep(s, written).phase); }
    case RunRound(late) => RunStepKeeps(hard, s, late);
    case PeekRound(id, late) => PeekStepKeeps(hard, s, id, late);
    case Trail(id) => BookkeepingKeeps(hard, s, TrailStep(s, id));
    case _ => ReaderStepKeeps(hard, s, a);
  }

  lemma EmitKeeps(hard: nat, s: Machine, sh': Shell, more: Bytes)
    requires Inv(hard, s) && Prints(s.shell, sh', more) && Ordered(sh')
    requires forall i :: 0 <= i < |sh'.parts| ==> sh'.parts[i].seqno < s.seqno
    ensures Inv(hard, Emit(s, sh', more))
  {
    hide Piped, PhaseSound, DoneSound, Prints, Ordered;
    PrintKeeps(hard, s, sh', more);
  }

  lemma ShellKeeps(hard: nat, s: Machine, a: Action)
    requires Inv(hard, s) && (a.Print? || a.PrintFrame?)
    ensures Usable(s) && Inv(hard, Next(hard, s, a))
  {
    hide Piped, PhaseSound, DoneSound, Prints, Out, Frame, Emit;
    InvIsSound(hard, s);
    if a.Print? {
      PrintsText(s.shell, a.text);
      EmitKeeps(hard, s, s.shell.(tail := s.shell.tail + a.text), a.text);
    } else if a.k < s.seqno && MayPrint(s.shell, a.k) && a.code <= STATUS_MAX {
      PrintsFrame(s.shell, a.k, a.code);
      EmitKeeps(hard, s, WithFrame(s.shell, a.k, a.code), Frame(a.k, a.code));
    }
  }

  /** Every action keeps the invariant. */
  lemma NextKeeps(hard: nat, s: Machine, a: Action)
    requires Inv(hard, s)
    ensures Usable(s) && Inv(hard, Next(hard, s, a))
  {
    hide Inv, Locked, Panicked;
    InvIsSound(hard, s);
    if a.Print? || a.PrintFrame? {
      ShellKeeps(hard, s, a);
    } else if s.poisoned {
      PanickedKeeps(hard, s, a);
    } else {
      LockedKeeps(hard, s, a);
    }
  }

  lemma InitInv(hard: nat)
    requires hard >= MIN_CAP
    ensures Inv(hard, INIT)
  {
    StartSound(hard);
    assert Out(INIT.shell) == [];
  }

  lemma {:induction false} RunAllKeeps(hard: nat, s: Machine, acts: seq<Action>)
    requires Inv(hard, s)
    ensures Usable(s) && Inv(hard, RunAll(hard, s, acts))
    decreases |acts|
  {
    hide Inv, Next;
    InvIsSound(hard, s);
    if acts != [] {
      NextKeeps(hard, s, acts[0]);
      RunAllKeeps(hard, Next(hard, s, acts[0]), acts[1..]);
    }
  }

  /** The framing numbered `k`, and nothing else, is printed at `i`. */
  ghost predicate OnlyFrame(sh: Shell, k: nat, i: nat) {
    i < |sh.parts| && sh.parts[i].seqno == k
    && forall j :: 0 <= j < |sh.parts| && j != i ==> sh.parts[j].seqno != k
  }

  /** Where the code of run `k` was read: `digits` is the offset of the framing's own
      digits in the decoded output. */
  ghost predicate ReadFrom(sh: Shell, o: Returned, i: nat, digits: nat) {
    && OnlyFrame(sh, o.k, i)
    && digits >= |MarkerPrefix(o.k)| && StandsAt(sh, o.k, sh.parts[i].code, digits - |MarkerPrefix(o.k)|)
    && (o.intact <==> o.at == digits)
    && (o.intact ==> o.code == sh.parts[i].code)
    && (!o.intact ==> o.at >= digits + |Dec(sh.parts[i].code)| + |SUFFIX| && !QuietSince(sh, o.k))
  }

  lemma OriginReadFrom(sh: Shell, o: Returned)
    requires Ordered(sh) && Clean(sh, o.k) && Origin(sh, o.k, o.code, o.at, o.intact)
    ensures exists i: nat, digits: nat :: ReadFrom(sh, o, i, digits)
  {
    hide Clean, QuietSince, ShownFrom, Out, Dec, Frame;
    var c: nat, m: nat :| From(sh, o.k, o.code, o.at, o.intact, c, m);
    var i: nat :| i < |sh.parts| && sh.parts[i].seqno == o.k && sh.parts[i].code == c;
    FrameLength(o.k, c);
    assert ReadFrom(sh, o, i, m + |MarkerPrefix(o.k)|);
  }

  /** The exit code of a command is its own. In every interleaving of prints, reads, runs,
      timeouts with their recovery, late framings, closes and interrupts, if command
      output never prints the marker of `k`: one framing `k` was printed, and a code
      returned for `k` was read from that framing's digits, and is its code, exactly when
      no unread text was dropped between the marker and the suffix; otherwise it was read
      behind the whole framing. If no text printed after the framing contains a suffix,
      the latter cannot happen. */
  lemma ExitCodeIsItsOwn(cap: nat, acts: seq<Action>, o: Returned)
    ensures var s := RunAll(HardCap(cap), INIT, acts);
            o in s.done && Clean(s.shell, o.k) ==>
              && (exists i: nat, digits: nat :: ReadFrom(s.shell, o, i, digits))
              && (o.intact || QuietSince(s.shell, o.k) ==> exists i: nat :: OnlyFrame(s.shell, o.k, i) && s.shell.parts[i].code == o.code)
  {
    hide Sound, PhaseSound, Clean, QuietSince, RunAll, Origin, StandsAt, HardCap, Ordered;
    var hard := HardCap(cap);
    InitInv(hard);
    RunAllKeeps(hard, INIT, acts);
    var s := RunAll(hard, INIT, acts);
    if o in s.done && Clean(s.shell, o.k) {
      OriginReadFrom(s.shell, o);
      var i: nat, digits: nat :| ReadFrom(s.shell, o, i, digits);
      assert OnlyFrame(s.shell, o.k, i);
    }
  }

  /** Sequence numbers are never reused: at most one code is returned per number, codes
      come back in the order the runs were started, and every framing printed and every
      code returned carries a number that was handed out. */
  lemma NumbersAreFresh(cap: nat, acts: seq<Action>)
    ensures var s := RunAll(HardCap(cap), INIT, acts); Fresh(s) && Ordered(s.shell)
  {
    InitInv(HardCap(cap));
    RunAllKeeps(HardCap(cap), INIT, acts);
  }

  // ------------------------------------------------------------------ forward only

  /** What an action does to the buffer is one of its operations, or nothing. */
  lemma NextIsEvent(hard: nat, s: Machine, a: Action)
    requires Usable(s)
    ensures OneEvent(hard, s.log, Next(hard, s, a).log)
  {
    hide Apply, RoundOf, TurnOf, PeekLegal, MayPrint, Frame;
    if a.RunRound? { TurnIsEvent(hard, s.log, s.phase, a.late); }
  }

  ghost predicate OneEvent(hard: nat, h: Log, g: Log)
    requires Bounded(h.r)
  {
    g == h || exists e :: g == Apply(hard, h, e)
  }

  /** A run consumes, discards, or closes a session whose reader has ended. */
  ghost predicate RunEvent(hard: nat, h: Log, g: Log)
    requires Bounded(h.r)
  {
    g == h || exists e: Event ::
      (e.Take? || e.Discard? || (e.NotifyClose? && (h.r.eof || h.r.closed))) && g == Apply(hard, h, e)
  }

  lemma TurnIsEvent(hard: nat, h: Log, phase: Phase, late: bool)
    requires Bounded(h.r)
    ensures RunEvent(hard, h, TurnOf(hard, h, phase, late).log)
  {
    hide Apply, RoundOf, MarkerPrefix, AfterSuffix;
  }

  lemma NextContinues(hard: nat, s: Machine, a: Action)
    requires Inv(hard, s)
    ensures Usable(s) && Continues(s.log, Next(hard, s, a).log)
  {
    hide Inv, Next, Continues, Apply, TextSound;
    InvIsSound(hard, s);
    NextIsEvent(hard, s, a);
    ContinuesSame(s.log);
    var log := Next(hard, s, a).log;
    if log != s.log {
      var e :| log == Apply(hard, s.log, e);
      ApplyContinues(hard, s.log, e);
    }
  }

  /** Text only grows at its end and the cursor only moves forward, in every history. */
  lemma {:induction false} RunAllContinues(hard: nat, s: Machine, acts: seq<Action>)
    requires Inv(hard, s)
    ensures Usable(s) && Continues(s.log, RunAll(hard, s, acts).log)
    decreases |acts|
  {
    hide Inv, Next, Continues;
    InvIsSound(hard, s);
    ContinuesSame(s.log);
    if acts != [] {
      var t := Next(hard, s, acts[0]);
      NextContinues(hard, s, acts[0]);
      NextKeeps(hard, s, acts[0]);
      RunAllContinues(hard, t, acts[1..]);
      ContinuesFurther(s.log, t.log, RunAll(hard, t, acts[1..]).log);
    }
  }

  // ------------------------------------------------------------- timeout recovery

  /** The recovery of a timed-out command is still under way after every action. */
  ghost predicate InRecovery(hard: nat, s: Machine, acts: seq<Action>)
    requires Usable(s)
    decreases |acts|
  {
    && (s.phase.Recovering? || s.phase.Draining?)
    && (acts == [] || InRecovery(hard, Next(hard, s, acts[0]), acts[1..]))
  }

  lemma StepInRecovery(hard: nat, s: Machine, a: Action)
    requires Usable(s) && (s.phase.Recovering? || s.phase.Draining?)
    ensures var t := Next(hard, s, a);
            t.done == s.done && (t.phase == Idle && !t.poisoned ==> t.log == Apply(hard, s.log, Discard))
  {
    hide Apply, RoundOf, MayPrint, Frame, PeekLegal, MarkerTurn, SuffixTurn, PromptTurn;
  }

  lemma {:induction false} RecoveryDone(hard: nat, s: Machine, acts: seq<Action>)
    requires Usable(s) && InRecovery(hard, s, acts)
    ensures var t := RunAll(hard, s, acts); t.done == s.done && (t.phase.Recovering? || t.phase.Draining?)
    decreases |acts|
  {
    hide Next;
    if acts != [] {
      StepInRecovery(hard, s, acts[0]);
      RecoveryDone(hard, Next(hard, s, acts[0]), acts[1..]);
    }
  }

  /** Every recovery can end: the deadline of its expect and the end of its sleep. */
  lemma RecoveryEnds(hard: nat, s: Machine)
    requires Usable(s) && s.phase.Recovering? && !s.poisoned
    ensures InRecovery(hard, s, [RunRound(true)])
    ensures var t := Next(hard, RunAll(hard, s, [RunRound(true)]), RunRound(true)); t.phase == Idle && !t.poisoned
  {
    hide Apply, RoundOf;
    LateRound(s.log.r, s.phase.from);
    var r := RunRound(true);
    assert [r][1..] == [];
    assert Next(hard, s, r).phase == Draining;
  }

  lemma LateRound(r: Reader.State, from: Option<nat>)
    requires Bounded(r)
    ensures !RoundOf(r, from, PS1, true).Again?
  {
    hide Scan;
  }

  /** The next command starts clean. Whatever is printed, read and peeked while a
      timed-out command is recovered: when the recovery is over, no code has been returned
      for it, nothing is unread, and every marker read so far is behind the cursor, where
      it stays in every continuation. */
  lemma RecoveryForgets(hard: nat, s: Machine, acts: seq<Action>, a: Action, more: seq<Action>)
    requires Inv(hard, s) && Usable(s) && InRecovery(hard, s, acts)
    requires var t := Next(hard, RunAll(hard, s, acts), a); t.phase == Idle && !t.poisoned
    ensures var t := Next(hard, RunAll(hard, s, acts), a);
            && t.done == s.done && Cursor(t.log) == |Decoded(t.log)|
            && var u := RunAll(hard, t, more).log;
               Decoded(t.log) <= Decoded(u) && Cursor(u) >= |Decoded(t.log)|
               && forall j, p :: OccursAt(Decoded(t.log), MarkerPrefix(j), p) ==> p + |MarkerPrefix(j)| <= Cursor(u)
  {
    hide Inv, Next, RunAll, InRecovery, MarkerPrefix, OccursAt, Apply;
    var e := RunAll(hard, s, acts);
    RecoveryDone(hard, s, acts);
    StepInRecovery(hard, e, a);
    RunAllKeeps(hard, s, acts);
    NextKeeps(hard, e, a);
    var t := Next(hard, e, a);
    DiscardAccepts(hard, e.log);
    RunAllContinues(hard, t, more);
    forall j, p | OccursAt(Decoded(t.log), MarkerPrefix(j), p) ensures p + |MarkerPrefix(j)| <= |Decoded(t.log)| {
      OccursInside(Decoded(t.log), MarkerPrefix(j), p);
    }
  }

  /** Run `k` is over and returned nothing. */
  ghost predicate Abandoned(s: Machine, k: nat) {
    && k < s.seqno && (forall i :: 0 <= i < |s.done| ==> s.done[i].k != k)
    && match s.phase
       case AwaitMarker(j, _) => j != k
       case AwaitSuffix(j, _, _) => j != k
       case AwaitPrompt(j, _, _, _, _) => j != k
       case _ => true
  }

  /** A turn goes on with the same run, or ends it; a code is returned for that run only. */
  lemma TurnFollows(hard: nat, h: Log, phase: Phase, late: bool)
    requires Bounded(h.r)
    ensures var u := TurnOf(hard, h, phase, late);
            && (u.phase.AwaitMarker? ==> phase.AwaitMarker? && u.phase.k == phase.k)
            && (u.phase.AwaitSuffix? ==> (phase.AwaitMarker? || phase.AwaitSuffix?) && u.phase.k == phase.k)
            && (u.phase.AwaitPrompt? ==> (phase.AwaitSuffix? || phase.AwaitPrompt?) && u.phase.k == phase.k)
            && (u.returned == [] || (phase.AwaitPrompt? && |u.returned| == 1 && u.returned[0].k == phase.k))
  {
    hide Apply, RoundOf, MarkerPrefix, ParseCode;
  }

  lemma NextAbandons(hard: nat, s: Machine, a: Action, k: nat)
    requires Usable(s) && Abandoned(s, k)
    ensures Abandoned(Next(hard, s, a), k)
  {
    hide Apply, TurnOf, RoundOf, MayPrint, Frame, PeekLegal;
    if a.RunRound? { TurnFollows(hard, s.log, s.phase, a.late); }
  }

  lemma {:induction false} RunAllAbandons(hard: nat, s: Machine, acts: seq<Action>, k: nat)
    requires Usable(s) && Abandoned(s, k)
    ensures Abandoned(RunAll(hard, s, acts), k)
    decreases |acts|
  {
    hide Next, Abandoned;
    if acts != [] {
      NextAbandons(hard, s, acts[0], k);
      RunAllAbandons(hard, Next(hard, s, acts[0]), acts[1..], k);
    }
  }

  // ---------------------------------------------------------------- interference

  function WithoutPeeks(acts: seq<Action>): seq<Action> {
    if acts == [] then []
    else (if acts[0].PeekRound? || acts[0].Trail? then [] else [acts[0]]) + WithoutPeeks(acts[1..])
  }

  /** Everything but the interrupts' own bookkeeping. */
  function Core(s: Machine): Machine { s.(peeks := map[]) }

  ghost predicate Alive(acts: seq<Action>) {
    forall a :: a in acts ==> !a.ReadEof? && !a.CloseSession?
  }

  predicate Lives(s: Machine) { !s.log.r.eof && !s.log.r.closed && !s.poisoned }

  /** No trailing peek of the history starts inside a character. */
  ghost predicate PeeksLegal(hard: nat, s: Machine, acts: seq<Action>)
    requires Usable(s)
    decreases |acts|
  {
    acts == [] || (
      (acts[0].Trail? ==> TrailLegal(s, acts[0].id)) && PeeksLegal(hard, Next(hard, s, acts[0]), acts[1..]))
  }

  /** One operation other than the end of file or the close leaves the reader alive. */
  ghost predicate AliveEvent(hard: nat, h: Log, g: Log)
    requires Bounded(h.r)
  {
    g == h || exists e: Event :: !e.MarkEof? && !e.NotifyClose? && g == Apply(hard, h, e)
  }

  lemma PeekStepAlive(hard: nat, s: Machine, id: nat, late: bool)
    requires Usable(s) && Lives(s)
    ensures var t := PeekStep(hard, s, id, late); Core(t) == Core(s) && !t.poisoned && t.log == s.log
  {
    hide Apply, RoundOf;
  }

  lemma NextStaysAlive(hard: nat, s: Machine, a: Action)
    requires Usable(s) && Lives(s) && !a.ReadEof? && !a.CloseSession?
    ensures var t := Next(hard, s, a);
            && !t.log.r.eof && !t.log.r.closed && (t.poisoned <==> a.Trail? && !TrailLegal(s, a.id))
            && (a.PeekRound? || (a.Trail? && TrailLegal(s, a.id)) ==> Core(t) == Core(s))
  {
    hide TurnOf, PeekStep, Apply, MayPrint, TrailLegal, Frame;
    if a.RunRound? { TurnIsEvent(hard, s.log, s.phase, a.late); }
    PoisonStep(hard, s, a);
    if a.PeekRound? { PeekStepAlive(hard, s, a.id, a.late); }
    var t := Next(hard, s, a);
    assert AliveEvent(hard, s.log, t.log);
    if t.log != s.log {
      var e: Event :| !e.MarkEof? && !e.NotifyClose? && t.log == Apply(hard, s.log, e);
      ApplyAccepts(hard, s.log, e);
    }
  }

  /** Only the interrupts read what the interrupts keep. */
  lemma NextWithPeeks(hard: nat, s: Machine, p: map<nat, Peek>, a: Action)
    requires Usable(s) && !a.PeekRound? && !a.Trail?
    ensures Next(hard, s.(peeks := p), a) == Next(hard, s, a).(peeks := p)
  {
    hide Apply, TurnOf, MayPrint, Frame;
  }

  lemma NextOfCore(hard: nat, s: Machine, t: Machine, a: Action)
    requires Usable(s) && Core(s) == Core(t) && !a.PeekRound? && !a.Trail?
    ensures Usable(t) && Core(Next(hard, s, a)) == Core(Next(hard, t, a))
  {
    hide Next;
    NextWithPeeks(hard, s, t.peeks, a);
    assert t == s.(peeks := t.peeks);
  }

  lemma PoisonStep(hard: nat, s: Machine, a: Action)
    requires Usable(s)
    ensures var t := Next(hard, s, a); s.poisoned ==> t.poisoned && t.log == s.log && t.done == s.done
    ensures !s.poisoned && !a.Trail? ==> !Next(hard, s, a).poisoned
  {
    hide Apply, RoundOf, TurnOf, MayPrint, Frame, TrailLegal;
  }

  /** A poisoned lock stays poisoned: nothing is read and no run returns any more. Only
      trailing peeks poison it. */
  lemma {:induction false} PoisonStays(hard: nat, s: Machine, acts: seq<Action>)
    requires Usable(s)
    ensures var t := RunAll(hard, s, acts); s.poisoned ==> t.poisoned && t.log == s.log && t.done == s.done
    ensures !s.poisoned && (forall a :: a in acts ==> !a.Trail?) ==> !RunAll(hard, s, acts).poisoned
    decreases |acts|
  {
    hide Next;
    if acts != [] {
      PoisonStep(hard, s, acts[0]);
      PoisonStays(hard, Next(hard, s, acts[0]), acts[1..]);
    }
  }

  lemma {:induction false} NoTrails(acts: seq<Action>)
    ensures forall a :: a in WithoutPeeks(acts) ==> !a.Trail?
  {
    if acts != [] { NoTrails(acts[1..]); }
  }

  /** Interrupts do not disturb runs, unless one panics. In a history without end of file
      or close, leaving out every round and every trailing peek of every interrupt changes
      no buffer state, no run in progress and no result of any run, exactly when no
      trailing peek starts inside a character. */
  lemma {:induction false} InterruptsDoNotDisturb(hard: nat, s: Machine, t: Machine, acts: seq<Action>)
    requires Usable(s) && Core(s) == Core(t) && Lives(s) && Alive(acts)
    ensures Usable(t)
    ensures Core(RunAll(hard, s, acts)) == Core(RunAll(hard, t, WithoutPeeks(acts))) <==> PeeksLegal(hard, s, acts)
    decreases |acts|
  {
    hide Next, Core, TrailLegal;
    CoreUsable(s, t);
    if acts != [] {
      var a, rest := acts[0], acts[1..];
      NextStaysAlive(hard, s, a);
      var s' := Next(hard, s, a);
      if a.Trail? && !TrailLegal(s, a.id) {
        PoisonStays(hard, s', rest);
        NoTrails(acts);
        PoisonStays(hard, t, WithoutPeeks(acts));
        CoreFlags(RunAll(hard, s, acts), RunAll(hard, t, WithoutPeeks(acts)));
      } else if a.PeekRound? || a.Trail? {
        assert WithoutPeeks(acts) == WithoutPeeks(rest);
        InterruptsDoNotDisturb(hard, s', t, rest);
      } else {
        NextOfCore(hard, s, t, a);
        assert WithoutPeeks(acts)[1..] == WithoutPeeks(rest);
        InterruptsDoNotDisturb(hard, s', Next(hard, t, a), rest);
      }
    }
  }

  lemma CoreFlags(s: Machine, t: Machine)
    ensures Core(s) == Core(t) ==> s.poisoned == t.poisoned
  {}

  lemma CoreUsable(s: Machine, t: Machine)
    requires Core(s) == Core(t) && Usable(s)
    ensures Usable(t) && s.poisoned == t.poisoned
  {}

  lemma PeekMatched(hard: nat, s: Machine, id: nat, late: bool) returns (from: Option<nat>)
    requires Usable(s) && !s.poisoned
    requires var t := Next(hard, s, PeekRound(id, late)); id in t.peeks && t.peeks[id].Matched?
    ensures Patterns(from, [PS1]) && Scan(s.log.r, from, [PS1]).Some?
    ensures var t := Next(hard, s, PeekRound(id, late));
            var hit := Scan(s.log.r, from, [PS1]).value;
            t.log == s.log && hit.idx == 0 && t.peeks[id].n == hit.pos - s.log.r.consumed + |PS1|
  {
    hide Scan, Apply, IsUtf8;
    MarkersAreUtf8(0);
    from := if id in s.peeks && s.peeks[id].Waits? then s.peeks[id].from else None;
    ScanBounds(s.log.r, from, [PS1]);
  }

  /** The trailing peek of an interrupt is legal if the cursor has not moved since it
      matched. */
  lemma UnmovedTrailIsLegal(hard: nat, s: Machine, id: nat, late: bool, acts: seq<Action>)
    requires Inv(hard, s) && Usable(s) && !s.poisoned
    requires var s' := Next(hard, s, PeekRound(id, late));
             id in s'.peeks && s'.peeks[id].Matched?
             && var t := RunAll(hard, s', acts);
                id in t.peeks && t.peeks[id] == s'.peeks[id] && Cursor(t.log) == Cursor(s.log)
    ensures TrailLegal(RunAll(hard, Next(hard, s, PeekRound(id, late)), acts), id)
  {
    hide Inv, RunAll, Next, Sound, Scan, Continues, IsUtf8, Patterns, PeekLegal;
    var s' := Next(hard, s, PeekRound(id, late));
    var from := PeekMatched(hard, s, id, late);
    NextKeeps(hard, s, PeekRound(id, late));
    RunAllKeeps(hard, s', acts);
    RunAllContinues(hard, s', acts);
    var t := RunAll(hard, s', acts);
    InvIsSound(hard, s);
    InvIsSound(hard, t);
    UnmovedPeekIsLegal(hard, s.log, t.log, [PS1], from);
  }

  /** No peek can go wrong while everything printed is ASCII. */
  lemma AsciiPeeksAreLegal(hard: nat, s: Machine, n: nat)
    requires Inv(hard, s) && forall i :: 0 <= i < |Out(s.shell)| ==> Out(s.shell)[i] < 0x80
    ensures PeekLegal(s.log.r, n)
  {
    hide Inv, Out, Lossy, IsUtf8, PeekLegal, Sound, TailLen;
    InvIsSound(hard, s);
    DecodedOfOutput(hard, s);
    var b := DecodedBytes(s.log);
    forall i | 0 <= i < |b| ensures b[i] < 0x80 { assert b[i] == Out(s.shell)[i]; }
    AsciiIsUtf8(b);
    PeekLegalExactly(hard, s.log, n);
  }
}
