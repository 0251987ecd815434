/** The text of a session: what the shell prints, how the reader sees it, and how an exit
    code is read out of it. */
module Protocol {
  import opened Text
  import opened Utf8
  import opened Framing

  /** The marker that `run_checked` number `k` waits for: `EXITCODESTARTk:`. */
  function MarkerPrefix(k: nat): Bytes { PREFIX + Dec(k) + [COLON] }

  /** What `echo EXITCODESTARTk:$?EXITCODEEND` prints. */
  function Frame(k: nat, code: nat): Bytes { PREFIX + Body(Dec(k), Dec(code)) }

  /** Output text printed before a framing, and the framing. */
  datatype Printed = Printed(text: Bytes, seqno: nat, code: nat)

  /** Everything the shell printed: framings with the text before each, and the text since. */
  datatype Shell = Shell(parts: seq<Printed>, tail: Bytes)

  function Printout(parts: seq<Printed>): Bytes {
    if parts == [] then []
    else
      var p := parts[|parts| - 1];
      Printout(parts[..|parts| - 1]) + p.text + Frame(p.seqno, p.code)
  }

  function Out(sh: Shell): Bytes { Printout(sh.parts) + sh.tail }

  /** Command output never prints `EXITCODESTARTk:` itself. */
  ghost predicate Clean(sh: Shell, k: nat) {
    && (forall i, p :: 0 <= i < |sh.parts| ==> !OccursAt(sh.parts[i].text, MarkerPrefix(k), p))
    && (forall p :: !OccursAt(sh.tail, MarkerPrefix(k), p))
  }

  ghost predicate HasFrame(sh: Shell, k: nat, code: nat) {
    exists i :: 0 <= i < |sh.parts| && sh.parts[i].seqno == k && sh.parts[i].code == code
  }

  /** Framings come in the order of their submissions, and `$?` is an exit status. */
  ghost predicate Ordered(sh: Shell) {
    && (forall i, j :: 0 <= i < j < |sh.parts| ==> sh.parts[i].seqno < sh.parts[j].seqno)
    && (forall i :: 0 <= i < |sh.parts| ==> sh.parts[i].code <= STATUS_MAX)
  }

  const STATUS_MAX := 255

  ghost predicate PrintedSince(sh: Shell, k: nat) {
    exists i :: 0 <= i < |sh.parts| && sh.parts[i].seqno >= k
  }

  /** Text printed after framing `k` never contains `EXITCODEEND`. */
  ghost predicate QuietSince(sh: Shell, k: nat) {
    && (forall i, p :: 0 <= i < |sh.parts| && sh.parts[i].seqno > k ==> !OccursAt(sh.parts[i].text, SUFFIX, p))
    && (PrintedSince(sh, k) ==> forall p :: !OccursAt(sh.tail, SUFFIX, p))
  }

  /** Framing `k` with `code` begins at offset `m` of the decoded output. */
  ghost predicate StandsAt(sh: Shell, k: nat, code: nat, m: nat) {
    HasFrame(sh, k, code) && exists r: nat :: ShownFrom(sh, k, code, m, r)
  }

  ghost predicate ShownFrom(sh: Shell, k: nat, code: nat, m: nat, r: nat) {
    r <= |Out(sh)| && Frame(k, code) <= Out(sh)[r..] && |Lossy(Out(sh)[..r])| == m
  }

  // ------------------------------------------------------------ markers and framings

  lemma MarkerStartsWithPrefix(s: Bytes, k: nat, r: int)
    requires OccursAt(s, MarkerPrefix(k), r)
    ensures OccursAt(s, PREFIX, r)
    ensures forall x :: r + |PREFIX| <= x < r + |MarkerPrefix(k)| ==> IsDigit(s[x]) || s[x] == COLON
  {
    var p := MarkerPrefix(k);
    assert s[r..r + |p|][..|PREFIX|] == s[r..r + |PREFIX|];
    assert p[..|PREFIX|] == PREFIX;
    forall x | r + |PREFIX| <= x < r + |p| ensures IsDigit(s[x]) || s[x] == COLON {
      OccursIndex(s, p, r, x - r);
    }
  }

  /** A marker cannot begin in front of a framing and reach into it. */
  lemma NoMarkerAcross(s: Bytes, k: nat, r: int, b: int)
    requires OccursAt(s, PREFIX, b) && r < b < r + |MarkerPrefix(k)|
    ensures !OccursAt(s, MarkerPrefix(k), r)
  {
    if OccursAt(s, MarkerPrefix(k), r) {
      MarkerStartsWithPrefix(s, k, r);
      PrefixBytes(s, b);
      if b < r + |PREFIX| {
        PrefixUnbordered(s, r, b);
      }
    }
  }

  /** The marker of `k` stands at the start of a framing numbered `j` exactly when they
      are the same number. */
  lemma MarkerOfFrame(j: nat, code: nat, k: nat)
    ensures MarkerPrefix(k) <= Frame(j, code) <==> j == k
  {
    hide Dec;
    var f, p := Frame(j, code), MarkerPrefix(k);
    var fb, pb := f[|PREFIX|..], p[|PREFIX|..];
    assert fb == Body(Dec(j), Dec(code)) && pb == Dec(k) + [COLON];
    assert f == PREFIX + fb && p == PREFIX + pb;
    assert fb[..|Dec(j)|] == Dec(j) && fb[|Dec(j)|] == COLON;
    assert pb[..|Dec(k)|] == Dec(k) && pb[|Dec(k)|] == COLON;
    DigitRunIs(fb, |Dec(j)|);
    if p <= f {
      assert pb == fb[..|pb|];
      assert fb[..|Dec(k)|] == pb[..|Dec(k)|];
      assert fb[|Dec(k)|] == pb[|Dec(k)|];
      DigitRunIs(fb, |Dec(k)|);
      DecInjective(j, k);
    }
    if j == k {
      assert fb[..|pb|] == pb;
      assert f[..|p|] == p;
    }
  }

  /** Inside a framing no marker starts but its own at the front. */
  lemma NoMarkerInside(s: Bytes, b: nat, j: nat, code: nat, k: nat, r: int)
    requires b <= |s| && Frame(j, code) <= s[b..] && b < r < b + |Frame(j, code)|
    ensures !OccursAt(s, MarkerPrefix(k), r)
  {
    var f := Frame(j, code);
    assert s[b..b + |PREFIX|] == f[..|PREFIX|] == PREFIX;
    if OccursAt(s, MarkerPrefix(k), r) {
      MarkerStartsWithPrefix(s, k, r);
      if r < b + |PREFIX| {
        PrefixUnbordered(s, b, r);
      } else {
        var t := s[b + |PREFIX|..];
        var body := Body(Dec(j), Dec(code));
        assert f[|PREFIX|..] == body;
        assert t[..|body|] == s[b..][..|f|][|PREFIX|..];
        OccursInSuffix(s, PREFIX, b + |PREFIX|, r - b - |PREFIX|);
        BodyHasNoPrefix(t, Dec(j), Dec(code), r - b - |PREFIX|);
      }
    }
  }

  /** In clean output the marker of `k` occurs only at the start of a framing that is
      numbered `k`, and the whole framing follows. */
  lemma {:induction false} MarkerMeansFrame(sh: Shell, k: nat, r: nat) returns (code: nat)
    requires Clean(sh, k) && OccursAt(Out(sh), MarkerPrefix(k), r)
    ensures HasFrame(sh, k, code) && Frame(k, code) <= Out(sh)[r..]
    decreases |sh.parts|
  {
    hide Frame, MarkerPrefix, OccursAt, Out, HasFrame, Clean;
    var s, m := Out(sh), MarkerPrefix(k);
    OccursInside(s, m, r);
    var n := |sh.parts|;
    code := 0;
    OnlyTail(sh);
    CleanParts(sh, k);
    if n > 0 {
      var last := sh.parts[n - 1];
      code := last.code;
      var front := Shell(sh.parts[..n - 1], last.text);
      var f := Frame(last.seqno, last.code);
      var b := |Out(front)|;
      LastPart(sh);
      FramesOfFront(sh, k);
      FrameStartsWithPrefix(s, b, last.seqno, last.code);
      if r + |m| <= b {
        OccursInPrefix(Out(front), f + sh.tail, m, r);
        code := MarkerMeansFrame(front, k, r);
        assert s[r..] == Out(front)[r..] + (f + sh.tail);
      } else if r < b {
        NoMarkerAcross(s, k, r, b);
      } else if r == b {
        MarkerAtFrame(s, b, last.seqno, last.code, k, sh.tail);
      } else if r < b + |f| {
        NoMarkerInside(s, b, last.seqno, last.code, k, r);
      } else {
        OccursInSuffix(s, m, b + |f|, r - b - |f|);
      }
    }
  }

  /** The output, cut before and behind the last framing. */
  lemma LastPart(sh: Shell)
    requires sh.parts != []
    ensures var last := sh.parts[|sh.parts| - 1];
            var front := Shell(sh.parts[..|sh.parts| - 1], last.text);
            var f, b := Frame(last.seqno, last.code), |Out(front)|;
            && Out(sh) == Out(front) + (f + sh.tail) && Out(sh)[b..] == f + sh.tail
            && b + |f| + |sh.tail| == |Out(sh)| && Out(sh)[b + |f|..] == sh.tail
  {
    hide Frame;
    var last := sh.parts[|sh.parts| - 1];
    CutTwice(Printout(sh.parts[..|sh.parts| - 1]) + last.text, Frame(last.seqno, last.code), sh.tail);
  }

  lemma CutTwice(a: Bytes, f: Bytes, t: Bytes)
    ensures var s := a + f + t; s == a + (f + t) && s[|a|..] == f + t && s[|a| + |f|..] == t
  {}

  lemma CleanParts(sh: Shell, k: nat)
    requires Clean(sh, k)
    ensures forall p :: !OccursAt(sh.tail, MarkerPrefix(k), p)
    ensures sh.parts != [] ==> Clean(Shell(sh.parts[..|sh.parts| - 1], sh.parts[|sh.parts| - 1].text), k)
  {
    hide OccursAt, MarkerPrefix;
  }

  /** Framings in front of the last one are framings. */
  lemma FramesOfFront(sh: Shell, k: nat)
    requires sh.parts != []
    ensures var last := sh.parts[|sh.parts| - 1];
            var front := Shell(sh.parts[..|sh.parts| - 1], last.text);
            && HasFrame(sh, last.seqno, last.code)
            && forall c :: HasFrame(front, k, c) ==> HasFrame(sh, k, c)
  {
    var n := |sh.parts| - 1;
    var front := Shell(sh.parts[..n], sh.parts[n].text);
    forall c | HasFrame(front, k, c) ensures HasFrame(sh, k, c) {
      var i :| 0 <= i < n && front.parts[i].seqno == k && front.parts[i].code == c;
      assert sh.parts[i] == front.parts[i];
    }
  }

  lemma MarkerAtFrame(s: Bytes, b: nat, j: nat, code: nat, k: nat, tail: Bytes)
    requires b <= |s| && s[b..] == Frame(j, code) + tail && OccursAt(s, MarkerPrefix(k), b)
    ensures j == k
  {
    hide Frame, MarkerPrefix;
    assert s[b..][..|MarkerPrefix(k)|] == MarkerPrefix(k);
    MarkerShorter(j, code, k, tail);
    MarkerOfFrame(j, code, k);
  }

  lemma OnlyTail(sh: Shell)
    ensures sh.parts == [] ==> Out(sh) == sh.tail
  {}

  lemma FrameStartsWithPrefix(s: Bytes, b: nat, j: nat, code: nat)
    requires b <= |s| && Frame(j, code) <= s[b..]
    ensures OccursAt(s, PREFIX, b)
  {
    assert Frame(j, code)[..|PREFIX|] == PREFIX;
    assert s[b..][..|Frame(j, code)|][..|PREFIX|] == s[b..b + |PREFIX|];
  }

  /** A marker that starts a framing's text lies inside the framing. */
  lemma MarkerShorter(j: nat, code: nat, k: nat, tail: Bytes)
    requires MarkerPrefix(k) <= Frame(j, code) + tail
    ensures MarkerPrefix(k) <= Frame(j, code)
  {
    var f, p := Frame(j, code), MarkerPrefix(k);
    var s := f + tail;
    var y := |PREFIX| + |Dec(j)| + 1 + |Dec(code)|;
    assert f[y] == SUFFIX[0] && s[y] == f[y];
    forall d | |PREFIX| <= d < |p| ensures s[d] != 69 {
      assert s[d] == p[d] && (IsDigit(p[d]) || p[d] == COLON);
    }
    assert s[..|p|] == f[..|p|];
  }

  lemma NotEarlier(sh: Shell, front: Shell, k: nat)
    requires Ordered(sh) && sh.parts != [] && sh.parts[|sh.parts| - 1].seqno <= k
    requires front.parts == sh.parts[..|sh.parts| - 1]
    ensures forall c :: !HasFrame(front, k, c)
  {
    forall i | 0 <= i < |front.parts| ensures front.parts[i].seqno != k { assert front.parts[i] == sh.parts[i]; }
  }

  /** The marker of the framing printed last stands at that framing only. */
  lemma MarkerIsLast(sh: Shell, k: nat, r: nat)
    requires Clean(sh, k) && Ordered(sh) && OccursAt(Out(sh), MarkerPrefix(k), r)
    requires forall i :: 0 <= i < |sh.parts| ==> sh.parts[i].seqno <= k
    ensures sh.parts != []
    ensures var last := sh.parts[|sh.parts| - 1];
            last.seqno == k && r + |Frame(k, last.code)| + |sh.tail| == |Out(sh)|
  {
    hide Frame, MarkerPrefix, OccursAt, Out, Clean;
    var s, m := Out(sh), MarkerPrefix(k);
    CleanParts(sh, k);
    var code := MarkerMeansFrame(sh, k, r);
    OccursInside(s, m, r);
    var n := |sh.parts|;
    var last := sh.parts[n - 1];
    var front := Shell(sh.parts[..n - 1], last.text);
    var f := Frame(last.seqno, last.code);
    var b := |Out(front)|;
    LastPart(sh);
    FrameStartsWithPrefix(s, b, last.seqno, last.code);
    NotEarlier(sh, front, k);
    if r + |m| <= b {
      OccursInPrefix(Out(front), f + sh.tail, m, r);
      var _ := MarkerMeansFrame(front, k, r);
    } else if r < b {
      NoMarkerAcross(s, k, r, b);
    } else if r == b {
      MarkerAtFrame(s, b, last.seqno, last.code, k, sh.tail);
    } else if r < b + |f| {
      NoMarkerInside(s, b, last.seqno, last.code, k, r);
    } else {
      OccursInSuffix(s, m, b + |f|, r - b - |f|);
    }
  }

  /** In front of quiet text the last suffix is that of the framing. */
  lemma SuffixOfFrame(s: Bytes, b: nat, k: nat, code: nat, tail: Bytes, q: nat)
    requires b <= |s| && s[b..] == Frame(k, code) + tail && OccursAt(s, SUFFIX, q)
    requires forall p :: !OccursAt(tail, SUFFIX, p)
    ensures q + |SUFFIX| <= b + |Frame(k, code)|
  {
    hide Dec, OccursAt, Frame;
    FrameEnd(s, b, k, code, tail);
    var e := b + |Frame(k, code)| - |SUFFIX|;
    if e < q < e + |SUFFIX| {
      SuffixUnbordered(s, e, q);
    } else if q >= e + |SUFFIX| {
      OccursInSuffix(s, SUFFIX, e + |SUFFIX|, q - e - |SUFFIX|);
    }
  }

  lemma FrameEnd(s: Bytes, b: nat, k: nat, code: nat, tail: Bytes)
    requires b <= |s| && s[b..] == Frame(k, code) + tail
    ensures var e := b + |Frame(k, code)| - |SUFFIX|;
            b <= e && OccursAt(s, SUFFIX, e) && s[e + |SUFFIX|..] == tail
  {
    var f, n := Frame(k, code), |Frame(k, code)| - |SUFFIX|;
    assert f[n..] == SUFFIX && n >= 0;
    hide Frame;
    assert s[b..][n..n + |SUFFIX|] == f[n..];
  }

  // ------------------------------------------------------- markers in decoded text

  /** Text that no decoding can produce by accident: ASCII without a backslash. */
  ghost predicate Plain(p: Bytes) { forall k :: 0 <= k < |p| ==> p[k] < 0x80 && p[k] != 92 }

  /** Plain text at the front of the decoded bytes stands at the front of the bytes. */
  lemma {:induction false} PlainFront(b: Bytes, p: Bytes)
    requires Plain(p) && p <= Lossy(b)
    ensures p <= b
  {
    hide Lossy;
    LossyEmpty();
    if p != [] {
      LossyUnfold(b);
      FirstIsPlain(b, p[0]);
      hide First, Step;
      assert Lossy(b)[0] == p[0];
      assert p[1..] <= Lossy(b)[1..];
      assert Lossy(b)[1..] == Lossy(b[1..]);
      PlainFront(b[1..], p[1..]);
      assert p == [p[0]] + p[1..] && b == [b[0]] + b[1..];
    }
  }

  /** A plain byte is shown only by itself. */
  lemma FirstIsPlain(b: Bytes, x: byte)
    requires b != [] && x < 0x80 && x != 92
    ensures Shown(First(b)) != []
    ensures Shown(First(b))[0] == x ==> b[0] == x && First(b) == Good([x]) && Step(b) == 1
  {
    if CharLen(b) > 0 {
      assert First(b) == Good(b[..CharLen(b)]);
    }
  }

  /** An `E` is shown only by itself. */
  lemma OnlyItself(b: Bytes, i: nat)
    requires b != [] && i < |Shown(First(b))|
    ensures Shown(First(b))[i] == 69 ==> i == 0 && b[0] == 69
  {
    if CharLen(b) > 0 && i > 0 {
      CharTails(b, i);
    }
  }

  /** A plain pattern that starts with `E` occurs in the decoded text only where it
      occurs in the bytes, and the decoding may be cut there. */
  lemma {:induction false} DecodedOccurrence(b: Bytes, p: Bytes, q: nat) returns (r: nat)
    requires Plain(p) && p != [] && p[0] == 69 && OccursAt(Lossy(b), p, q)
    ensures OccursAt(b, p, r)
    ensures |Lossy(b[..r])| == q && Lossy(b) == Lossy(b[..r]) + Lossy(b[r..])
    decreases |b|
  {
    hide Lossy, CharLen, Shown, First, Step, Plain, OccursAt;
    LossyEmpty();
    OccursInside(Lossy(b), p, q);
    OccursIndex(Lossy(b), p, q, 0);
    LossyUnfold(b);
    var n, shown := Step(b), Shown(First(b));
    assert q < |shown| ==> shown[q] == 69;
    if q < |shown| {
      OnlyItself(b, q);
      OccursFront(Lossy(b), p);
      PlainFront(b, p);
      OccursFront(b, p);
      r := 0;
      assert b[..0] == [] && b[0..] == b;
    } else {
      var rest := b[n..];
      OccursInSuffix(Lossy(b), p, |shown|, q - |shown|);
      assert Lossy(b)[|shown|..] == Lossy(rest);
      var r' := DecodedOccurrence(rest, p, q - |shown|);
      r := n + r';
      OccursInSuffix(b, p, n, r');
      OccursInside(rest, p, r');
      CutAfterStep(b, r');
    }
  }

  lemma OccursFront(s: Bytes, p: Bytes)
    ensures OccursAt(s, p, 0) <==> p <= s
  {}

  /** A cut behind the first piece. */
  lemma CutAfterStep(b: Bytes, r: nat)
    requires b != [] && r <= |b[Step(b)..]|
    requires var rest := b[Step(b)..]; Lossy(rest) == Lossy(rest[..r]) + Lossy(rest[r..])
    ensures var m := Step(b) + r;
            Lossy(b[..m]) == Shown(First(b)) + Lossy(b[Step(b)..][..r])
            && Lossy(b) == Lossy(b[..m]) + Lossy(b[m..])
  {
    hide Lossy, CharLen, Shown, First;
    var n, shown, rest := Step(b), Shown(First(b)), b[Step(b)..];
    var m := n + r;
    LossyUnfold(b);
    FirstOfPrefix(b, m);
    LossyUnfold(b[..m]);
    assert b[m..] == rest[r..];
    assert b[..m][n..] == rest[..r];
    assert shown + (Lossy(rest[..r]) + Lossy(rest[r..])) == (shown + Lossy(rest[..r])) + Lossy(rest[r..]);
  }

  lemma FirstOfPrefix(b: Bytes, r: nat)
    requires b != [] && Step(b) <= r <= |b|
    ensures First(b[..r]) == First(b) && Step(b[..r]) == Step(b)
  {
    assert b == b[..r] + b[r..];
    FirstOfAppend(b[..r], b[r..]);
  }

  lemma PlainIsUtf8(p: Bytes)
    requires Plain(p)
    ensures IsUtf8(p) && Lossy(p) == p
    decreases |p|
  {
    if p != [] {
      PlainIsUtf8(p[1..]);
    }
    Utf8Kept(p);
  }

  /** Plain text in front of more bytes is decoded as it stands. */
  lemma PlainThenRest(p: Bytes, x: Bytes)
    requires Plain(p)
    ensures Lossy(p + x) == p + Lossy(x)
  {
    hide Lossy, IsUtf8;
    PlainIsUtf8(p);
    CutAfterUtf8(p, x);
    LossyAppend(p, x);
  }

  /** A longer cut shows more, if the shorter one is in front of an `E`. */
  lemma ShownLess(b: Bytes, i: nat, j: nat)
    requires i <= j <= |b| && (i < j ==> b[i] == 69)
    ensures |Lossy(b[..i])| <= |Lossy(b[..j])|
    ensures Plain(b[i..j]) ==> |Lossy(b[..j])| == |Lossy(b[..i])| + (j - i)
  {
    hide Lossy, CharLen, Plain;
    var p, x := b[..i], b[i..j];
    assert b[..j] == p + x;
    LeadCut(p, x);
    LossyAppend(p, x);
    if Plain(x) { PlainIsUtf8(x); }
  }

  lemma LeadCut(p: Bytes, x: Bytes)
    requires x == [] || !IsTail(x[0])
    ensures CleanCut(p, x)
  {}

  lemma MarkerIsPlain(k: nat)
    ensures Plain(MarkerPrefix(k)) && MarkerPrefix(k) != [] && MarkerPrefix(k)[0] == 69
  {
    assert forall i :: 0 <= i < |MarkerPrefix(k)| ==> MarkerPrefix(k)[i] < 0x80 && MarkerPrefix(k)[i] != 92;
  }

  lemma SuffixIsPlain()
    ensures Plain(SUFFIX)
  {}

  // ------------------------------------------------------------ reading the exit code

  /** The Unicode `White_Space` characters, as Rust's `trim` strips them. */
  predicate IsSpace(c: Bytes) {
    (|c| == 1 && (9 <= c[0] <= 13 || c[0] == 32))
    || (|c| == 2 && c[0] == 0xC2 && (c[1] == 0x85 || c[1] == 0xA0))
    || (|c| == 3 && c[0] == 0xE1 && c[1] == 0x9A && c[2] == 0x80)
    || (|c| == 3 && c[0] == 0xE2 && c[1] == 0x80 && (c[2] <= 0x8A || c[2] == 0xA8 || c[2] == 0xA9 || c[2] == 0xAF) && IsTail(c[2]))
    || (|c| == 3 && c[0] == 0xE2 && c[1] == 0x81 && c[2] == 0x9F)
    || (|c| == 3 && c[0] == 0xE3 && c[1] == 0x80 && c[2] == 0x80)
  }

  /** Length of a white-space character at the front, 0 if there is none. */
  function SpaceFront(s: Bytes): (n: nat)
    ensures n <= |s|
  {
    if |s| >= 1 && IsSpace(s[..1]) then 1
    else if |s| >= 2 && IsSpace(s[..2]) then 2
    else if |s| >= 3 && IsSpace(s[..3]) then 3
    else 0
  }

  /** The same at the end. */
  function SpaceBack(s: Bytes): (n: nat)
    ensures n <= |s|
  {
    if |s| >= 1 && IsSpace(s[|s| - 1..]) then 1
    else if |s| >= 2 && IsSpace(s[|s| - 2..]) then 2
    else if |s| >= 3 && IsSpace(s[|s| - 3..]) then 3
    else 0
  }

  function TrimStart(s: Bytes): Bytes {
    if SpaceFront(s) > 0 then TrimStart(s[SpaceFront(s)..]) else s
  }

  function TrimEnd(s: Bytes): Bytes {
    if SpaceBack(s) > 0 then TrimEnd(s[..|s| - SpaceBack(s)]) else s
  }

  /** `str::parse::<i32>`. */
  function ParseI32(s: Bytes): Option<int> {
    var signed := s != [] && (s[0] == 43 || s[0] == 45);
    var digits := if signed then s[1..] else s;
    if digits == [] || !AllDigits(digits) then None
    else
      var magnitude: int := Value(digits);
      var v := if signed && s[0] == 45 then -magnitude else magnitude;
      if -0x8000_0000 <= v < 0x8000_0000 then Some(v) else None
  }

  /** `m.before.trim().parse()` in `extract_exit_code`. */
  function ParseCode(before: Bytes): Option<int> { ParseI32(TrimEnd(TrimStart(before))) }

  lemma SpaceHasNoLetter(c: Bytes)
    requires IsSpace(c)
    ensures forall k :: 0 <= k < |c| ==> c[k] != 69
  {}

  lemma SpacesAre(s: Bytes)
    ensures SpaceFront(s) > 0 ==> IsSpace(s[..SpaceFront(s)])
    ensures SpaceBack(s) > 0 ==> IsSpace(s[|s| - SpaceBack(s)..])
  {
    hide IsSpace;
  }

  /** White space at either end holds no `E`. */
  lemma SpaceSkips(s: Bytes)
    ensures forall i :: 0 <= i < SpaceFront(s) ==> s[i] != 69
    ensures forall i :: |s| - SpaceBack(s) <= i < |s| ==> s[i] != 69
  {
    SpacesAre(s);
    hide IsSpace, SpaceFront, SpaceBack;
    var n, m := SpaceFront(s), SpaceBack(s);
    if n > 0 { SpaceHasNoLetter(s[..n]); }
    forall i | 0 <= i < n ensures s[i] != 69 { assert s[i] == s[..n][i]; }
    if m > 0 { SpaceHasNoLetter(s[|s| - m..]); }
    forall i | |s| - m <= i < |s| ensures s[i] != 69 { assert s[i] == s[|s| - m..][i - (|s| - m)]; }
  }

  lemma {:induction false} TrimStartKeeps(s: Bytes, i: nat)
    requires i < |s| && s[i] == 69
    ensures 69 in TrimStart(s)
    decreases |s|
  {
    hide SpaceFront, SpaceBack;
    SpaceSkips(s);
    if SpaceFront(s) > 0 {
      TrimStartKeeps(s[SpaceFront(s)..], i - SpaceFront(s));
    }
  }

  lemma {:induction false} TrimEndKeeps(s: Bytes, i: nat)
    requires i < |s| && s[i] == 69
    ensures 69 in TrimEnd(s)
    decreases |s|
  {
    hide SpaceFront, SpaceBack;
    SpaceSkips(s);
    if SpaceBack(s) > 0 {
      TrimEndKeeps(s[..|s| - SpaceBack(s)], i);
    }
  }

  /** Text with an `E` in it is no exit code. */
  lemma LetterIsNoCode(before: Bytes, i: nat)
    requires i < |before| && before[i] == 69
    ensures ParseCode(before) == None
  {
    hide TrimStart, TrimEnd;
    TrimStartKeeps(before, i);
    var a := TrimStart(before);
    var j :| 0 <= j < |a| && a[j] == 69;
    TrimEndKeeps(a, j);
    LetterIsNoNumber(TrimEnd(a));
  }

  lemma LetterIsNoNumber(t: Bytes)
    requires 69 in t
    ensures ParseI32(t) == None
  {
    var k :| 0 <= k < |t| && t[k] == 69;
    if k > 0 { assert t[1..][k - 1] == 69; }
  }

  /** The code points with the Unicode property `White_Space`. */
  predicate WhiteSpace(c: nat) {
    || 0x09 <= c <= 0x0D || c == 0x20 || c == 0x85 || c == 0xA0 || c == 0x1680
    || 0x2000 <= c <= 0x200A || c == 0x2028 || c == 0x2029 || c == 0x202F || c == 0x205F || c == 0x3000
  }

  lemma SpaceIsWhite(c: Bytes)
    ensures IsSpace(c) <==> CharLen(c) == |c| > 0 && WhiteSpace(CodePoint(c))
  {}

  /** White space, character by character. */
  ghost predicate Spaces(s: Bytes) {
    s == [] || exists n: nat :: 0 < n <= |s| && SpaceThen(s, n) && Spaces(s[n..])
  }

  ghost predicate SpaceThen(s: Bytes, n: nat) {
    0 < n <= |s| && CharLen(s[..n]) == n && WhiteSpace(CodePoint(s[..n]))
  }

  /** An optional sign and decimal digits, of the value `v`. */
  predicate SignedDigits(t: Bytes, v: int) {
    || (t != [] && AllDigits(t) && v == Value(t))
    || (|t| > 1 && AllDigits(t[1..]) && ((t[0] == 43 && v == Value(t[1..])) || (t[0] == 45 && v + Value(t[1..]) == 0)))
  }

  ghost predicate Shows(before: Bytes, v: int, a: Bytes, t: Bytes, b: Bytes) {
    before == a + t + b && Spaces(a) && Spaces(b) && SignedDigits(t, v)
  }

  lemma SpaceAtFront(c: Bytes, x: Bytes)
    requires IsSpace(c)
    ensures SpaceFront(c + x) == |c| && TrimStart(c + x) == TrimStart(x) && (c + x)[|c|..] == x
  {
    var s := c + x;
    assert s[..|c|] == c;
    assert s[0] == c[0] && (|c| > 1 ==> s[1] == c[1]);
  }

  lemma SpaceAtBack(x: Bytes, c: Bytes)
    requires IsSpace(c)
    ensures SpaceBack(x + c) == |c| && TrimEnd(x + c) == TrimEnd(x)
  {
    var s, n := x + c, |x + c|;
    assert s[n - |c|..] == c && s[..|x|] == x;
    assert s[n - 1] == c[|c| - 1] && (|c| > 1 ==> s[n - 2] == c[|c| - 2]);
  }

  lemma {:induction false} TrimsFront(a: Bytes, x: Bytes)
    requires Spaces(a)
    ensures TrimStart(a + x) == TrimStart(x)
    decreases |a|
  {
    hide IsSpace, SpaceFront, WhiteSpace, CharLen, TrimStart;
    if a == [] {
      assert a + x == x;
    } else {
      var n: nat :| 0 < n <= |a| && SpaceThen(a, n) && Spaces(a[n..]);
      SpaceIsWhite(a[..n]);
      SpaceAtFront(a[..n], a[n..] + x);
      assert a[..n] + (a[n..] + x) == a + x;
      TrimsFront(a[n..], x);
    }
  }

  lemma {:induction false} TrimsBack(x: Bytes, b: Bytes)
    requires Spaces(b)
    ensures TrimEnd(x + b) == TrimEnd(x)
    decreases |b|
  {
    hide IsSpace, SpaceBack, WhiteSpace, CharLen, TrimEnd;
    if b == [] {
      assert x + b == x;
    } else {
      var n: nat :| 0 < n <= |b| && SpaceThen(b, n) && Spaces(b[n..]);
      SpaceIsWhite(b[..n]);
      SpaceAtBack(x, b[..n]);
      assert (x + b[..n]) + b[n..] == x + b;
      TrimsBack(x + b[..n], b[n..]);
    }
  }

  lemma {:induction false} TrimmedFront(s: Bytes) returns (a: Bytes)
    ensures s == a + TrimStart(s) && Spaces(a)
    decreases |s|
  {
    hide IsSpace, SpaceFront, WhiteSpace, CharLen;
    var n := SpaceFront(s);
    if n > 0 {
      var rest := TrimmedFront(s[n..]);
      SpacesAre(s);
      SpaceIsWhite(s[..n]);
      a := s[..n] + rest;
      assert a[..n] == s[..n] && a[n..] == rest && SpaceThen(a, n);
    } else {
      a := [];
    }
  }

  lemma {:induction false} SpacesAppend(a: Bytes, b: Bytes)
    requires Spaces(a) && Spaces(b)
    ensures Spaces(a + b)
    decreases |a|
  {
    hide SpaceThen;
    if a == [] {
      assert a + b == b;
    } else {
      var n: nat :| 0 < n <= |a| && SpaceThen(a, n) && Spaces(a[n..]);
      MoreBehindSpace(a, b, n);
      SpacesAppend(a[n..], b);
      assert (a + b)[n..] == a[n..] + b;
    }
  }

  lemma MoreBehindSpace(a: Bytes, b: Bytes, n: nat)
    requires SpaceThen(a, n)
    ensures SpaceThen(a + b, n) && n <= |a|
  {
    hide WhiteSpace, CharLen;
    assert (a + b)[..n] == a[..n];
  }

  lemma {:induction false} TrimmedBack(s: Bytes) returns (b: Bytes)
    ensures s == TrimEnd(s) + b && Spaces(b)
    decreases |s|
  {
    hide IsSpace, SpaceBack, SpaceThen;
    var n := SpaceBack(s);
    if n > 0 {
      var c := s[|s| - n..];
      var rest := TrimmedBack(s[..|s| - n]);
      SpacesAre(s);
      OneSpace(c);
      SpacesAppend(rest, c);
      b := rest + c;
      assert s == s[..|s| - n] + c;
    } else {
      b := [];
    }
  }

  lemma OneSpace(c: Bytes)
    requires IsSpace(c)
    ensures Spaces(c)
  {
    hide IsSpace, WhiteSpace, CharLen;
    SpaceIsWhite(c);
    assert c[..|c|] == c && c[|c|..] == [] && SpaceThen(c, |c|);
  }

  /** A number between blanks is what is left when they are trimmed. */
  lemma NumberIsTrimmed(a: Bytes, t: Bytes, b: Bytes, v: int)
    requires Spaces(a) && Spaces(b) && SignedDigits(t, v)
    ensures TrimEnd(TrimStart(a + t + b)) == t
  {
    hide Spaces, SignedDigits, SpaceFront, SpaceBack;
    assert a + t + b == a + (t + b);
    TrimsFront(a, t + b);
    NumberEnds(t, b, v);
    TrimsBack(t, b);
  }

  lemma NumberEnds(t: Bytes, b: Bytes, v: int)
    requires SignedDigits(t, v)
    ensures SpaceFront(t + b) == 0 && SpaceBack(t) == 0
  {
    assert (t + b)[0] == t[0];
    assert IsDigit(t[|t| - 1]) by { if !AllDigits(t) { assert t[1..][|t| - 2] == t[|t| - 1]; } }
    hide Value, AllDigits;
  }

  lemma ParsesNumber(t: Bytes, v: int)
    ensures ParseI32(t) == Some(v) <==> SignedDigits(t, v) && -0x8000_0000 <= v < 0x8000_0000
  {
    hide Value;
  }

  /** What `trim` and `parse` accept: white space, an optional sign, digits, white space,
      of a value that fits; and the code is that value. */
  lemma ParseCodeIs(before: Bytes, v: int)
    ensures ParseCode(before) == Some(v) <==>
            -0x8000_0000 <= v < 0x8000_0000 && exists a, t, b :: Shows(before, v, a, t, b)
  {
    hide Spaces, SignedDigits, ParseI32, TrimStart, TrimEnd;
    if ParseCode(before) == Some(v) {
      var a := TrimmedFront(before);
      var b := TrimmedBack(TrimStart(before));
      var t := TrimEnd(TrimStart(before));
      ParsesNumber(t, v);
      assert a + (t + b) == a + t + b;
      assert Shows(before, v, a, t, b);
    }
    if -0x8000_0000 <= v < 0x8000_0000 && exists a, t, b :: Shows(before, v, a, t, b) {
      var a, t, b :| Shows(before, v, a, t, b);
      NumberIsTrimmed(a, t, b, v);
      ParsesNumber(t, v);
    }
  }

  /** The digits of a framing read back as the code, if it is an `i32`. */
  lemma CodeOfDigits(code: nat)
    ensures ParseCode(Dec(code)) == if code < 0x8000_0000 then Some(code) else None
  {
    hide Dec;
    ValueOfDec(code);
    DigitsHaveNoSpace(Dec(code));
  }

  lemma DigitsHaveNoSpace(d: Bytes)
    requires AllDigits(d)
    ensures TrimStart(d) == d && TrimEnd(d) == d
  {
    hide IsSpace;
    forall n | 1 <= n <= |d| ensures !IsSpace(d[..n]) { DigitIsNoSpace(d[..n]); }
    forall n | 0 <= n < |d| ensures !IsSpace(d[n..]) { DigitIsNoSpace(d[n..]); }
  }

  lemma DigitIsNoSpace(c: Bytes)
    requires c != [] && IsDigit(c[0])
    ensures !IsSpace(c)
  {}

  /** Whatever text stands between the marker of a framing and some later suffix, and
      however much of the framing has arrived: if it parses, it is the framing's code. */
  lemma CodeBeforeSuffix(w: Bytes, code: nat, q: nat)
    requires var d := Dec(code) + SUFFIX; w <= d || d <= w
    requires OccursAt(Lossy(w), SUFFIX, q)
    ensures ParseCode(Lossy(w)[..q]).Some? ==>
              ParseCode(Lossy(w)[..q]) == Some(code) && Lossy(w)[..q] == Dec(code)
  {
    hide Lossy, ParseCode, Dec;
    var d, n := Dec(code) + SUFFIX, |Dec(code)|;
    var x := Lossy(w);
    DecPlain(code);
    if d <= w {
      PlainThenRest(d, w[|d|..]);
      assert w == d + w[|d|..];
    } else {
      PlainIsUtf8(w);
    }
    forall i | 0 <= i < |x| && i < |d| ensures x[i] == d[i] {}
    forall i | 0 <= i < n && i < |x| ensures x[i] != 69 { assert d[i] == Dec(code)[i]; }
    OccursIndex(x, SUFFIX, q, 0);
    assert d[n] == 69;
    if q == n {
      assert x[..q] == Dec(code);
      CodeOfDigits(code);
    } else if q > n {
      LetterIsNoCode(x[..q], n);
    }
  }

  lemma DecPlain(code: nat)
    ensures Plain(Dec(code) + SUFFIX) && |SUFFIX| > 0
    ensures forall i :: 0 <= i < |Dec(code)| ==> Dec(code)[i] != 69
  {
    var d := Dec(code) + SUFFIX;
    assert forall i :: 0 <= i < |d| ==> d[i] < 0x80 && d[i] != 92;
  }

  // ------------------------------------------------------- behind the last framing

  lemma DecShort(n: nat, d: nat)
    requires (d == 3 && n < 1000) || (d == 2 && n < 100) || (d == 1 && n < 10)
    ensures |Dec(n)| <= d
    decreases d
  {
    if n >= 10 { DecShort(n / 10, d - 1); }
  }

  lemma StatusOfFrame(sh: Shell, k: nat, code: nat)
    requires Ordered(sh) && HasFrame(sh, k, code)
    ensures |Dec(code)| <= 3 && |Frame(k, code)| <= |MarkerPrefix(k)| + 14
  {
    DecShort(code, 3);
    hide Dec;
  }

  /** A marker in the decoded text shows where its framing stands. */
  lemma MarkerShows(sh: Shell, b: Bytes, k: nat, m: nat) returns (code: nat, r: nat)
    requires b <= Out(sh) && Clean(sh, k) && OccursAt(Lossy(b), MarkerPrefix(k), m)
    ensures HasFrame(sh, k, code) && ShownFrom(sh, k, code, m, r)
    ensures OccursAt(b, MarkerPrefix(k), r) && |Lossy(b[..r])| == m
  {
    hide Lossy, MarkerPrefix, Frame, OccursAt, Clean, Plain, HasFrame, Out;
    MarkerIsPlain(k);
    r := DecodedOccurrence(b, MarkerPrefix(k), m);
    OccursInside(b, MarkerPrefix(k), r);
    OccursInPrefix(b, Out(sh)[|b|..], MarkerPrefix(k), r);
    assert b + Out(sh)[|b|..] == Out(sh);
    code := MarkerMeansFrame(sh, k, r);
    assert Out(sh)[..r] == b[..r];
  }

  /** Well behind the marker of the framing printed last, and in front of quiet text, no
      suffix is left to be matched. */
  lemma NoSuffixBehind(sh: Shell, b: Bytes, k: nat, m: nat, q: nat)
    requires b <= Out(sh) && Clean(sh, k) && Ordered(sh) && QuietSince(sh, k)
    requires forall i :: 0 <= i < |sh.parts| ==> sh.parts[i].seqno <= k
    requires OccursAt(Lossy(b), MarkerPrefix(k), m) && OccursAt(Lossy(b), SUFFIX, q)
    ensures q < m + |MarkerPrefix(k)| + 14
  {
    hide Lossy, MarkerPrefix, Frame, Clean, Plain, Dec;
    var s := Out(sh);
    var code, r := MarkerShows(sh, b, k, m);
    SuffixIsPlain();
    var r' := DecodedOccurrence(b, SUFFIX, q);
    OccursInside(b, SUFFIX, r');
    OccursInside(b, MarkerPrefix(k), r);
    assert b + s[|b|..] == s;
    OccursInPrefix(b, s[|b|..], SUFFIX, r');
    OccursInPrefix(b, s[|b|..], MarkerPrefix(k), r);
    MarkerIsLast(sh, k, r);
    QuietTail(sh, k, r);
    hide OccursAt, QuietSince, Out;
    var last := sh.parts[|sh.parts| - 1];
    SuffixOfFrame(s, r, k, last.code, sh.tail, r');
    LastStatus(sh);
    FrameLength(k, last.code);
    OccursIndex(b, SUFFIX, r', 0);
    if r' <= r {
      ShownLess(b, r', r);
    } else {
      MarkerIsPlain(k);
      OccursIndex(b, MarkerPrefix(k), r, 0);
      FramePlain(k, last.code);
      assert s[r..][..|Frame(k, last.code)|] == Frame(k, last.code);
      PlainPart(Frame(k, last.code), b[r..r'], s[r..]);
      assert b[r..r'] == s[r..][..r' - r];
      ShownLess(b, r, r');
    }
  }

  lemma LastStatus(sh: Shell)
    requires Ordered(sh) && sh.parts != []
    ensures |Dec(sh.parts[|sh.parts| - 1].code)| <= 3
  {
    DecShort(sh.parts[|sh.parts| - 1].code, 3);
  }

  lemma FrameLength(k: nat, code: nat)
    ensures |Frame(k, code)| == |MarkerPrefix(k)| + |Dec(code)| + |SUFFIX|
  {}

  lemma FramePlain(k: nat, code: nat)
    ensures Plain(Frame(k, code))
  {
    var f := Frame(k, code);
    assert forall i :: 0 <= i < |f| ==> f[i] < 0x80 && f[i] != 92;
  }

  lemma PlainPart(f: Bytes, x: Bytes, s: Bytes)
    requires Plain(f) && f <= s && x <= s && |x| <= |f|
    ensures Plain(x)
  {
    assert forall i :: 0 <= i < |x| ==> x[i] == s[i] == f[i];
  }

  lemma QuietTail(sh: Shell, k: nat, r: nat)
    requires QuietSince(sh, k) && sh.parts != []
    requires var last := sh.parts[|sh.parts| - 1];
             last.seqno == k && r + |Frame(k, last.code)| + |sh.tail| == |Out(sh)|
    ensures forall p :: !OccursAt(sh.tail, SUFFIX, p)
    ensures Out(sh)[r..] == Frame(k, sh.parts[|sh.parts| - 1].code) + sh.tail
  {
    hide Frame, Out, OccursAt;
    assert PrintedSince(sh, k);
    LastPart(sh);
  }
}
