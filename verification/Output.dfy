/** Making output presentable: stripping terminal escapes, bounding its length, and the
    server's choice of decoder. */
module Output {
  import opened Text
  import opened Utf8
  import opened Decoders
  import opened Framing
  import opened Reader
  import opened ReaderObject

  const ESC: byte := 0x1B

  // -------------------------------------------------------------- escape sequences

  predicate IsIntroducer(b: byte) { 0x40 <= b <= 0x5F }

  predicate IsParameter(b: byte) { 0x30 <= b <= 0x3F }

  predicate IsIntermediate(b: byte) { 0x20 <= b <= 0x2F }

  predicate IsFinal(b: byte) { 0x40 <= b <= 0x7E }

  /** `e` is ESC, an introducer, parameters up to `j`, intermediates, and a final byte
      (section 5.4 of ECMA-48). */
  ghost predicate EscapeWith(e: Bytes, j: nat) {
    2 <= j < |e| && e[0] == ESC && IsIntroducer(e[1])
    && (forall k :: 2 <= k < j ==> IsParameter(e[k]))
    && (forall k :: j <= k < |e| - 1 ==> IsIntermediate(e[k]))
    && IsFinal(e[|e| - 1])
  }

  ghost predicate IsEscape(e: Bytes) { exists j :: EscapeWith(e, j) }

  function ParameterRun(s: Bytes, i: nat): (j: nat)
    requires i <= |s|
    ensures i <= j <= |s| && (forall k :: i <= k < j ==> IsParameter(s[k])) && (j < |s| ==> !IsParameter(s[j]))
    decreases |s| - i
  {
    if i < |s| && IsParameter(s[i]) then ParameterRun(s, i + 1) else i
  }

  function IntermediateRun(s: Bytes, i: nat): (j: nat)
    requires i <= |s|
    ensures i <= j <= |s| && (forall k :: i <= k < j ==> IsIntermediate(s[k])) && (j < |s| ==> !IsIntermediate(s[j]))
    decreases |s| - i
  {
    if i < |s| && IsIntermediate(s[i]) then IntermediateRun(s, i + 1) else i
  }

  /** End of the escape sequence that starts at `i`, 0 if none does. */
  function EscapeEnd(s: Bytes, i: nat): (e: nat)
    requires i <= |s|
    ensures e <= |s| && (e > 0 ==> i + 2 < e)
  {
    if i + 1 < |s| && s[i] == ESC && IsIntroducer(s[i + 1]) then
      var k := IntermediateRun(s, ParameterRun(s, i + 2));
      if k < |s| && IsFinal(s[k]) then k + 1 else 0
    else 0
  }

  /** The three byte classes are disjoint, so the scanner finds exactly the sequences of
      the grammar, and a sequence that starts at `i` can end in one place only. */
  lemma EscapeEndIs(s: Bytes, i: nat, e: nat)
    requires i < e <= |s|
    ensures IsEscape(s[i..e]) <==> EscapeEnd(s, i) == e
  {
    if EscapeEnd(s, i) == e {
      EscapeOfEnd(s, i);
    }
    if IsEscape(s[i..e]) {
      var t := s[i..e];
      var j :| EscapeWith(t, j);
      forall k | i <= k < e ensures s[k] == t[k - i] {}
      ParameterRunIs(s, i + 2, i + j);
      IntermediateRunIs(s, i + j, e - 1);
    }
  }

  lemma EscapeOfEnd(s: Bytes, i: nat)
    requires i <= |s| && EscapeEnd(s, i) > 0
    ensures IsEscape(s[i..EscapeEnd(s, i)])
  {
    var e := EscapeEnd(s, i);
    var j := ParameterRun(s, i + 2);
    var t := s[i..e];
    forall k | 0 <= k < e - i ensures t[k] == s[i + k] {}
    assert EscapeWith(t, j - i);
  }

  lemma ParameterRunIs(s: Bytes, i: nat, j: nat)
    requires i <= j < |s| && (forall k :: i <= k < j ==> IsParameter(s[k])) && !IsParameter(s[j])
    ensures ParameterRun(s, i) == j
  {
    var r := ParameterRun(s, i);
    assert !(r < j) && !(j < r);
  }

  lemma IntermediateRunIs(s: Bytes, i: nat, j: nat)
    requires i <= j < |s| && (forall k :: i <= k < j ==> IsIntermediate(s[k])) && !IsIntermediate(s[j])
    ensures IntermediateRun(s, i) == j
  {
    var r := IntermediateRun(s, i);
    assert !(r < j) && !(j < r);
  }

  /** Leftmost, non-overlapping removal of escape sequences, from offset `i` on. */
  function Stripped(s: Bytes, i: nat): Bytes
    requires i <= |s|
    decreases |s| - i
  {
    if i == |s| then []
    else if EscapeEnd(s, i) > 0 then Stripped(s, EscapeEnd(s, i))
    else [s[i]] + Stripped(s, i + 1)
  }

  /** An escape sequence of the grammar stands in `s` from `i` up to `e`. */
  ghost predicate SequenceAt(s: Bytes, i: nat, e: nat) { i < e <= |s| && IsEscape(s[i..e]) }

  /** Byte `k` belongs to an escape sequence. */
  ghost predicate InSequence(s: Bytes, k: nat) {
    exists i: nat, e: nat :: SequenceAt(s, i, e) && i <= k < e
  }

  /** The bytes from `k` on that belong to no escape sequence. */
  ghost function Outside(s: Bytes, k: nat): Bytes
    requires k <= |s|
    decreases |s| - k
  {
    if k == |s| then [] else (if InSequence(s, k) then [] else [s[k]]) + Outside(s, k + 1)
  }

  /** Every sequence is removed whole, and nothing else: sequences never overlap, so the
      leftmost removal keeps exactly the bytes outside all of them, in order. */
  lemma StrippedIsOutside(s: Bytes)
    ensures Stripped(s, 0) == Outside(s, 0)
  {
    StrippedFrom(s, 0);
  }

  /** From an offset that no sequence straddles. */
  lemma {:induction false} StrippedFrom(s: Bytes, i: nat)
    requires i <= |s| && forall j :: 0 <= j < i ==> EscapeEnd(s, j) <= i
    ensures Stripped(s, i) == Outside(s, i)
    decreases |s| - i
  {
    hide EscapeEnd, InSequence;
    if i < |s| {
      var e := EscapeEnd(s, i);
      EscapeHasOneEsc(s, i);
      if e > 0 {
        forall j | i < j < e ensures EscapeEnd(s, j) == 0 { NoEscapeHere(s, j); }
        OutsideSkips(s, i, e, i);
        StrippedFrom(s, e);
      } else {
        NotInSequence(s, i);
        StrippedFrom(s, i + 1);
      }
    }
  }

  lemma {:induction false} OutsideSkips(s: Bytes, i: nat, e: nat, k: nat)
    requires i <= k <= e <= |s| && i < e && e == EscapeEnd(s, i)
    ensures Outside(s, k) == Outside(s, e)
    decreases e - k
  {
    hide EscapeEnd, IsEscape;
    if k < e {
      EscapeEndIs(s, i, e);
      assert SequenceAt(s, i, e);
      OutsideSkips(s, i, e, k + 1);
    }
  }

  lemma NotInSequence(s: Bytes, k: nat)
    requires k < |s| && EscapeEnd(s, k) == 0 && forall j :: 0 <= j < k ==> EscapeEnd(s, j) <= k
    ensures !InSequence(s, k)
  {
    hide EscapeEnd, IsEscape;
    if i: nat, e: nat :| SequenceAt(s, i, e) && i <= k < e {
      EscapeEndIs(s, i, e);
    }
  }

  // --------------------------------------------------------- the rest of the function

  /** `b as char`: the character U+00NN, two bytes long from 0x80 on. */
  function AsChar(b: byte): Bytes {
    if b < 0x80 then [b] else [0xC0 + b / 64, 0x80 + b % 64]
  }

  function Widened(s: Bytes): Bytes {
    if s == [] then [] else AsChar(s[0]) + Widened(s[1..])
  }

  function ReplaceCrLf(s: Bytes): Bytes {
    if s == [] then []
    else if |s| >= 2 && s[0] == 13 && s[1] == 10 then [10] + ReplaceCrLf(s[2..])
    else [s[0]] + ReplaceCrLf(s[1..])
  }

  function StripControl(s: Bytes): Bytes { ReplaceCrLf(Widened(Stripped(s, 0))) }

  lemma {:induction false} WidenedAppend(a: Bytes, b: Bytes)
    ensures Widened(a + b) == Widened(a) + Widened(b)
  {
    if a == [] {
      assert a + b == b;
    } else {
      assert (a + b)[1..] == a[1..] + b;
      WidenedAppend(a[1..], b);
      assert AsChar(a[0]) + (Widened(a[1..]) + Widened(b)) == (AsChar(a[0]) + Widened(a[1..])) + Widened(b);
    }
  }

  /** The characters of a well-formed text, by code point. */
  function CodePoints(s: Bytes): seq<nat>
    requires IsUtf8(s)
  {
    if s == [] then []
    else
      CharOfPrefix(s);
      [CodePoint(s[..CharLen(s)])] + CodePoints(s[CharLen(s)..])
  }

  lemma CharOfPrefix(s: Bytes)
    requires CharLen(s) > 0
    ensures CharLen(s[..CharLen(s)]) == CharLen(s)
  {}

  lemma AsCharEncodes(b: byte)
    ensures CharLen(AsChar(b)) == |AsChar(b)| > 0 && CodePoint(AsChar(b)) == b
  {}

  /** Each byte is pushed as the character of that number: read back as characters, the
      widened text is the bytes it was made of. */
  lemma {:induction false} WidenedShows(s: Bytes)
    ensures IsUtf8(Widened(s)) && CodePoints(Widened(s)) == s
  {
    hide CharLen, AsChar, CodePoint;
    if s != [] {
      var c, rest := AsChar(s[0]), Widened(s[1..]);
      AsCharEncodes(s[0]);
      WidenedShows(s[1..]);
      CharLenPrefix(c, rest);
      assert (c + rest)[..|c|] == c && (c + rest)[|c|..] == rest;
      assert s == [s[0]] + s[1..];
    }
  }

  lemma WidenedOne(b: byte)
    ensures Widened([b]) == AsChar(b)
  {
    assert [b][1..] == [];
  }

  /** `strip_control_chars`. */
  method StripControlChars(b: Bytes) returns (out: Bytes)
    ensures out == StripControl(b)
  {
    hide AsChar, EscapeEnd;
    out := [];
    var i := 0;
    ghost var kept: Bytes := [];
    while i < |b|
      invariant 0 <= i <= |b| && out == Widened(kept)
      invariant Stripped(b, 0) == kept + Stripped(b, i)
      decreases |b| - i
    {
      var e := SkipEscape(b, i);
      if e > 0 {
        i := e;
      } else {
        WidenedAppend(kept, [b[i]]);
        WidenedOne(b[i]);
        kept := kept + [b[i]];
        out := out + AsChar(b[i]);
        i := i + 1;
      }
    }
    assert kept == Stripped(b, 0);
    out := ReplaceCrLf(out);
  }

  /** The scan of one escape sequence. */
  method SkipEscape(b: Bytes, i: nat) returns (e: nat)
    requires i < |b|
    ensures e == EscapeEnd(b, i)
  {
    if b[i] == ESC && i + 1 < |b| && IsIntroducer(b[i + 1]) {
      var j := i + 2;
      while j < |b| && IsParameter(b[j])
        invariant i + 2 <= j <= |b| && ParameterRun(b, i + 2) == ParameterRun(b, j)
      {
        j := j + 1;
      }
      while j < |b| && IsIntermediate(b[j])
        invariant ParameterRun(b, i + 2) <= j <= |b|
        invariant IntermediateRun(b, ParameterRun(b, i + 2)) == IntermediateRun(b, j)
      {
        j := j + 1;
      }
      if j < |b| && IsFinal(b[j]) {
        return j + 1;
      }
    }
    return 0;
  }

  // ------------------------------------------------------------------- properties

  datatype Run = Run(text: Bytes, escape: Bytes)

  function Woven(runs: seq<Run>, tail: Bytes): Bytes {
    if runs == [] then tail else runs[0].text + runs[0].escape + Woven(runs[1..], tail)
  }

  function TextsOf(runs: seq<Run>, tail: Bytes): Bytes {
    if runs == [] then tail else runs[0].text + TextsOf(runs[1..], tail)
  }

  lemma NoEscapeHere(s: Bytes, i: nat)
    requires i < |s|
    ensures s[i] != ESC ==> EscapeEnd(s, i) == 0
  {}

  lemma StrippedSkip(s: Bytes, i: nat, e: nat)
    requires i < e <= |s| && IsEscape(s[i..e])
    ensures Stripped(s, i) == Stripped(s[e..], 0)
  {
    hide IsEscape, EscapeEnd;
    EscapeEndIs(s, i, e);
    StrippedInSuffix(s, e, 0);
  }

  lemma {:induction false} StrippedText(s: Bytes, i: nat, j: nat)
    requires i <= j <= |s| && ESC !in s[i..j]
    ensures Stripped(s, i) == s[i..j] + Stripped(s, j)
    decreases j - i
  {
    hide EscapeEnd;
    if i < j {
      NoEscapeHere(s, i);
      assert s[i] == s[i..j][0];
      assert s[i..j] == [s[i]] + s[i + 1..j];
      StrippedText(s, i + 1, j);
    } else {
      assert s[i..j] == [];
    }
  }

  /** Stripping looks only forward. */
  lemma {:induction false} StrippedInSuffix(s: Bytes, c: nat, i: nat)
    requires c + i <= |s|
    ensures Stripped(s, c + i) == Stripped(s[c..], i)
    decreases |s| - i
  {
    hide EscapeEnd;
    if c + i < |s| {
      EscapeEndInSuffix(s, c, i);
      assert s[c..][i] == s[c + i];
      if EscapeEnd(s, c + i) > 0 {
        StrippedInSuffix(s, c, EscapeEnd(s, c + i) - c);
      } else {
        StrippedInSuffix(s, c, i + 1);
      }
    }
  }

  lemma EscapeEndInSuffix(s: Bytes, c: nat, i: nat)
    requires c + i <= |s|
    ensures EscapeEnd(s, c + i) == if EscapeEnd(s[c..], i) > 0 then c + EscapeEnd(s[c..], i) else 0
  {}

  /** Texts without ESC, interleaved with escape sequences, come back concatenated. */
  lemma {:induction false} StripInvertsWeaving(runs: seq<Run>, tail: Bytes)
    requires forall r :: r in runs ==> ESC !in r.text && IsEscape(r.escape)
    requires ESC !in tail
    ensures Stripped(Woven(runs, tail), 0) == TextsOf(runs, tail)
    decreases |runs|
  {
    hide IsEscape;
    var s := Woven(runs, tail);
    if runs == [] {
      assert s[0..|s|] == s;
      StrippedText(s, 0, |s|);
    } else {
      var r, rest := runs[0], Woven(runs[1..], tail);
      assert r in runs;
      StripFirstRun(r, rest);
      StripInvertsWeaving(runs[1..], tail);
    }
  }

  lemma StripFirstRun(r: Run, rest: Bytes)
    requires ESC !in r.text && IsEscape(r.escape)
    ensures Stripped(r.text + r.escape + rest, 0) == r.text + Stripped(rest, 0)
  {
    hide *;
    var s := r.text + r.escape + rest;
    var n, e := |r.text|, |r.text| + |r.escape|;
    assert s[0..n] == r.text && s[n..e] == r.escape && s[e..] == rest;
    StripAcross(s, n, e);
  }

  lemma StripAcross(s: Bytes, n: nat, e: nat)
    requires n <= e <= |s| && ESC !in s[0..n] && IsEscape(s[n..e])
    ensures Stripped(s, 0) == s[0..n] + Stripped(s[e..], 0)
  {
    EscapeNotEmpty(s[n..e]);
    hide *;
    StrippedText(s, 0, n);
    StrippedSkip(s, n, e);
  }

  lemma EscapeNotEmpty(e: Bytes)
    requires IsEscape(e)
    ensures e != []
  {}

  lemma StrippedEnd(s: Bytes)
    ensures Stripped(s, |s|) == []
  {}

  lemma StrippedPlain(s: Bytes)
    requires ESC !in s
    ensures Stripped(s, 0) == s
  {
    hide Stripped, EscapeEnd;
    assert s[0..|s|] == s;
    StrippedText(s, 0, |s|);
    StrippedEnd(s);
  }

  /** On ASCII without ESC only line ends change. */
  lemma StripAscii(s: Bytes)
    requires ESC !in s && forall i :: 0 <= i < |s| ==> s[i] < 0x80
    ensures StripControl(s) == ReplaceCrLf(s)
  {
    hide Stripped, Widened, ReplaceCrLf;
    StrippedPlain(s);
    WidenedLength(s);
  }

  /** Text with neither ESC nor CRLF is returned as it is exactly when it is ASCII: every
      other byte is pushed as a character of its own and grows to two. */
  lemma StripKeepsPlainText(s: Bytes)
    requires ESC !in s && NoCrLf(s)
    ensures StripControl(s) == s <==> forall i :: 0 <= i < |s| ==> s[i] < 0x80
  {
    hide Stripped, Widened, ReplaceCrLf, EscapeEnd;
    StrippedPlain(s);
    WidenedLength(s);
    if forall i :: 0 <= i < |s| ==> s[i] < 0x80 {
      ReplaceNothing(s);
    } else {
      WidenedKeepsPairs(s);
      ReplaceNothing(Widened(s));
    }
  }

  lemma {:induction false} WidenedLength(s: Bytes)
    ensures |Widened(s)| >= |s|
    ensures (forall i :: 0 <= i < |s| ==> s[i] < 0x80) ==> Widened(s) == s
    ensures !(forall i :: 0 <= i < |s| ==> s[i] < 0x80) ==> |Widened(s)| > |s|
  {
    if s != [] {
      WidenedLength(s[1..]);
      assert s == [s[0]] + s[1..];
      assert (forall i :: 0 <= i < |s| ==> s[i] < 0x80) <==>
             s[0] < 0x80 && forall i :: 0 <= i < |s[1..]| ==> s[1..][i] < 0x80;
    }
  }

  lemma {:induction false} WidenedKeepsPairs(s: Bytes)
    requires NoCrLf(s)
    ensures var w := Widened(s);
            NoCrLf(w) && (w != [] ==> s != [] && (w[0] == 10 ==> s[0] == 10))
  {
    if s != [] {
      var t := s[1..];
      forall i | 0 <= i < |t| - 1 ensures !(t[i] == 13 && t[i + 1] == 10) { assert t[i] == s[i + 1] && t[i + 1] == s[i + 2]; }
      WidenedKeepsPairs(t);
      var w, v, a := Widened(s), Widened(t), AsChar(s[0]);
      forall i | 0 <= i < |w| - 1 ensures !(w[i] == 13 && w[i + 1] == 10) {
        if i >= |a| {
          assert w[i] == v[i - |a|] && w[i + 1] == v[i + 1 - |a|];
        } else if i == |a| - 1 {
          assert w[i] == a[i] && w[i + 1] == v[0];
        }
      }
    }
  }

  lemma {:induction false} ReplaceNothing(s: Bytes)
    requires NoCrLf(s)
    ensures ReplaceCrLf(s) == s
  {
    if s != [] {
      var t := s[1..];
      forall i | 0 <= i < |t| - 1 ensures !(t[i] == 13 && t[i + 1] == 10) { assert t[i] == s[i + 1] && t[i + 1] == s[i + 2]; }
      ReplaceNothing(t);
      assert s == [s[0]] + t;
    }
  }

  /** Inside a sequence no byte but the first is ESC. */
  lemma EscapeHasOneEsc(s: Bytes, i: nat)
    requires i <= |s|
    ensures forall j :: i < j < EscapeEnd(s, i) ==> s[j] != ESC
  {}

  lemma {:induction false} StrippedHasNoEsc(s: Bytes, i: nat)
    requires i <= |s|
    ensures ESC !in Stripped(s, i) <==> forall j :: i <= j < |s| && s[j] == ESC ==> EscapeEnd(s, j) > 0
    decreases |s| - i
  {
    hide EscapeEnd;
    if i < |s| {
      var e := EscapeEnd(s, i);
      EscapeHasOneEsc(s, i);
      NoEscapeHere(s, i);
      StrippedHasNoEsc(s, if e > 0 then e else i + 1);
    }
  }

  /** When one pass is enough: no ESC is left, and so no escape sequence, exactly when
      every ESC of the input begins a sequence. */
  lemma OnePassIsEnough(s: Bytes)
    ensures ESC !in Stripped(s, 0) <==> forall i :: 0 <= i < |s| && s[i] == ESC ==> EscapeEnd(s, i) > 0
    ensures ESC !in Stripped(s, 0) ==> forall i :: 0 <= i <= |Stripped(s, 0)| ==> EscapeEnd(Stripped(s, 0), i) == 0
  {
    hide EscapeEnd, Stripped;
    StrippedHasNoEsc(s, 0);
    var t := Stripped(s, 0);
    forall i | 0 <= i <= |t| && ESC !in t ensures EscapeEnd(t, i) == 0 {
      if i < |t| { NoEscapeHere(t, i); } else { NoEscapeAtEnd(t); }
    }
  }

  lemma NoEscapeAtEnd(s: Bytes)
    ensures EscapeEnd(s, |s|) == 0
  {}

  /** Otherwise a whole sequence can be left: what is removed may have kept one apart. */
  lemma StripCanLeaveAnEscape()
    ensures var s := [ESC, ESC, 91, 109, 91, 109]; IsEscape(Stripped(s, 0)) && EscapeEnd(s, 0) == 0
  {
    var s: Bytes := [ESC, ESC, 91, 109, 91, 109];
    assert EscapeEnd(s, 0) == 0;
    assert EscapeEnd(s, 1) == 4;
    assert Stripped(s, 6) == [] && Stripped(s, 5) == [109] && Stripped(s, 4) == [91, 109];
    assert Stripped(s, 1) == [91, 109];
    assert Stripped(s, 0) == [ESC, 91, 109];
    assert EscapeWith(Stripped(s, 0), 2);
  }

  /** Line ends are replaced on either side of a cut that is not inside one. */
  lemma {:induction false} ReplaceCut(a: Bytes, b: Bytes)
    requires b == [] || b[0] != 10
    ensures ReplaceCrLf(a + b) == ReplaceCrLf(a) + ReplaceCrLf(b)
    decreases |a|
  {
    hide ReplaceCrLf;
    if a == [] {
      assert a + b == b;
      ReplaceUnfold([]);
    } else {
      ReplaceUnfold(a);
      ReplaceUnfold(a + b);
      var n := if EndsLine(a) then 2 else 1;
      assert (a + b)[n..] == a[n..] + b;
      ReplaceCut(a[n..], b);
    }
  }

  predicate EndsLine(s: Bytes) { |s| >= 2 && s[0] == 13 && s[1] == 10 }

  lemma ReplaceUnfold(s: Bytes)
    ensures s == [] ==> ReplaceCrLf(s) == []
    ensures s != [] && EndsLine(s) ==> ReplaceCrLf(s) == [10] + ReplaceCrLf(s[2..])
    ensures s != [] && !EndsLine(s) ==> ReplaceCrLf(s) == [s[0]] + ReplaceCrLf(s[1..])
  {}

  function Join(lines: seq<Bytes>, sep: Bytes): Bytes {
    if lines == [] then [] else if |lines| == 1 then lines[0] else lines[0] + sep + Join(lines[1..], sep)
  }

  ghost predicate NoCrLf(s: Bytes) { forall i :: 0 <= i < |s| - 1 ==> !(s[i] == 13 && s[i + 1] == 10) }

  /** Exactly the line ends change: between any texts without CRLF, CRLF becomes a line
      feed. */
  lemma {:induction false} LineEnds(lines: seq<Bytes>)
    requires forall l :: l in lines ==> NoCrLf(l)
    ensures ReplaceCrLf(Join(lines, [13, 10])) == Join(lines, [10])
    decreases |lines|
  {
    hide ReplaceCrLf;
    if |lines| == 1 {
      assert lines[0] in lines;
      ReplaceNothing(lines[0]);
    } else if |lines| > 1 {
      assert lines[0] in lines;
      LineEnds(lines[1..]);
      LineThenEnd(lines[0], Join(lines[1..], [13, 10]));
    } else {
      ReplaceUnfold([]);
    }
  }

  lemma LineThenEnd(a: Bytes, rest: Bytes)
    requires NoCrLf(a)
    ensures ReplaceCrLf(a + [13, 10] + rest) == a + [10] + ReplaceCrLf(rest)
  {
    hide ReplaceCrLf;
    var end := [13, 10] + rest;
    assert a + [13, 10] + rest == a + end;
    ReplaceCut(a, end);
    ReplaceNothing(a);
    ReplaceUnfold(end);
    assert end[2..] == rest;
  }

  /** Every text is such lines. */
  lemma {:induction false} LinesOf(s: Bytes) returns (lines: seq<Bytes>)
    ensures lines != [] && Join(lines, [13, 10]) == s && forall l :: l in lines ==> NoCrLf(l)
    decreases |s|
  {
    if NoCrLf(s) {
      lines := [s];
    } else {
      var n := FirstEnd(s);
      var rest := LinesOf(s[n + 2..]);
      lines := [s[..n]] + rest;
      assert lines[1..] == rest && s == s[..n] + [13, 10] + s[n + 2..];
    }
  }

  lemma {:induction false} FirstEnd(s: Bytes) returns (n: nat)
    requires !NoCrLf(s)
    ensures n + 1 < |s| && s[n] == 13 && s[n + 1] == 10 && NoCrLf(s[..n])
    decreases |s|
  {
    n :| n < |s| - 1 && s[n] == 13 && s[n + 1] == 10;
    if !NoCrLf(s[..n]) {
      var m := FirstEnd(s[..n]);
      assert s[..n][..m] == s[..m];
      n := m;
    }
  }

  // ---------------------------------------------------------------------- truncation

  /** `[execd: output truncated (showing last ` */
  const NOTE_OPEN: Bytes := [91, 101, 120, 101, 99, 100, 58, 32, 111, 117, 116, 112, 117, 116, 32,
    116, 114, 117, 110, 99, 97, 116, 101, 100, 32, 40, 115, 104, 111, 119, 105, 110, 103, 32, 108, 97, 115, 116, 32]

  /** ` of ` */
  const NOTE_OF: Bytes := [32, 111, 102, 32]

  /** ` bytes)]` and a line feed */
  const NOTE_CLOSE: Bytes := [32, 98, 121, 116, 101, 115, 41, 93, 10]

  function Note(kept: nat, total: nat): Bytes { NOTE_OPEN + Dec(kept) + NOTE_OF + Dec(total) + NOTE_CLOSE }

  /** The two numbers of the note at the front of a text. */
  function ReadNote(s: Bytes): Option<(nat, nat)> {
    if !(NOTE_OPEN <= s) then None
    else
      var a := s[|NOTE_OPEN|..];
      var i := DigitRun(a);
      if i == 0 || !(NOTE_OF <= a[i..]) then None
      else
        var b := a[i + |NOTE_OF|..];
        var j := DigitRun(b);
        if j == 0 || !(NOTE_CLOSE <= b[j..]) then None else Some((Value(a[..i]), Value(b[..j])))
  }

  /** The note says what was kept of how much, in this order. */
  lemma NoteIsRead(kept: nat, total: nat, rest: Bytes)
    ensures ReadNote(Note(kept, total) + rest) == Some((kept, total))
  {
    hide *;
    var k, t := Dec(kept), Dec(total);
    var s := Note(kept, total) + rest;
    var b := t + (NOTE_CLOSE + rest);
    var a := k + (NOTE_OF + b);
    NoteIs(kept, total);
    assert s == NOTE_OPEN + a;
    NoteBytes();
    NumberThen(kept, NOTE_OF + b);
    NumberThen(total, NOTE_CLOSE + rest);
    assert s[|NOTE_OPEN|..] == a;
    assert a[|k|..] == NOTE_OF + b && a[|k| + |NOTE_OF|..] == b;
    assert b[|t|..] == NOTE_CLOSE + rest;
    NoteParses(s, a, b);
  }

  lemma NoteIs(kept: nat, total: nat)
    ensures Note(kept, total) == NOTE_OPEN + Dec(kept) + NOTE_OF + Dec(total) + NOTE_CLOSE
  {}

  lemma NoteBytes()
    ensures NOTE_OF != [] && !IsDigit(NOTE_OF[0]) && NOTE_CLOSE != [] && !IsDigit(NOTE_CLOSE[0])
  {}

  lemma NoteParses(s: Bytes, a: Bytes, b: Bytes)
    requires NOTE_OPEN <= s && s[|NOTE_OPEN|..] == a
    requires var i := DigitRun(a); i > 0 && NOTE_OF <= a[i..] && a[i + |NOTE_OF|..] == b
    requires var j := DigitRun(b); j > 0 && NOTE_CLOSE <= b[j..]
    ensures ReadNote(s) == Some((Value(a[..DigitRun(a)]), Value(b[..DigitRun(b)])))
  {
    hide DigitRun, Value;
  }

  lemma NumberThen(n: nat, rest: Bytes)
    requires rest != [] && !IsDigit(rest[0])
    ensures DigitRun(Dec(n) + rest) == |Dec(n)| && (Dec(n) + rest)[..|Dec(n)|] == Dec(n) && Value(Dec(n)) == n
  {
    hide Dec, Value, DigitRun;
    var s := Dec(n) + rest;
    assert s[..|Dec(n)|] == Dec(n) && s[|Dec(n)|] == rest[0];
    DigitRunIs(s, |Dec(n)|);
    ValueOfDec(n);
  }

  /** `text` is the note with both lengths and then the longest suffix of at most `cap`
      bytes that starts on a character boundary; that is at least `cap - 3` bytes. */
  ghost predicate KeepsTail(output: Bytes, cap: nat, text: Bytes, kept: nat) {
    && cap - 3 <= kept <= cap && kept <= |output|
    && text == Note(kept, |output|) + output[|output| - kept..] && ReadNote(text) == Some((kept, |output|))
    && IsUtf8(output[|output| - kept..])
    && forall i :: |output| - cap <= i < |output| - kept ==> !IsBoundary(output, i)
  }

  /** `truncate_with_note`. */
  method TruncateWithNote(output: Bytes, cap: nat) returns (text: Bytes, truncated: bool)
    requires IsUtf8(output)
    ensures truncated <==> |output| > cap
    ensures !truncated ==> text == output
    ensures truncated ==> exists kept :: KeepsTail(output, cap, text, kept)
  {
    if |output| <= cap {
      return output, false;
    }
    hide IsUtf8, Note, KeepsTail;
    var start := BoundaryFrom(output, |output| - cap);
    var kept := |output| - start;
    TailIsKept(output, cap, start);
    text := Note(kept, |output|) + output[start..];
    truncated := true;
  }

  lemma TailIsKept(output: Bytes, cap: nat, start: nat)
    requires IsUtf8(output) && |output| > cap && start == NextBoundary(output, |output| - cap)
    ensures start <= |output| && KeepsTail(output, cap, Note(|output| - start, |output|) + output[start..], |output| - start)
  {
    hide IsUtf8, Note, ReadNote, IsBoundary;
    BoundaryWithinThree(output, |output| - cap);
    Utf8Split(output, start);
    var kept := |output| - start;
    assert output[|output| - kept..] == output[start..];
    NoteIsRead(kept, |output|, output[start..]);
  }

  // --------------------------------------------------------------------- decode_read

  /** U+FFFD */
  const REPLACEMENT: Bytes := [0xEF, 0xBF, 0xBD]

  /** `String::from_utf8_lossy`: one replacement character per run of bytes given up. */
  function Replaced(s: Bytes): Bytes
    decreases |s|
  {
    var rest := s[ValidUpTo(s)..];
    if rest == [] then s
    else
      ValidPrefixIsUtf8(s);
      s[..ValidUpTo(s)] + REPLACEMENT + Replaced(rest[BadLen(rest)..])
  }

  datatype ReadError = UnicodeDecodeError | ValueError

  datatype ReadResult = Content(text: Bytes) | Failed(error: ReadError)

  /** `decode_read`: the `errors` argument chooses the decoder. */
  method DecodeRead(bytes: Bytes, errors: Option<string>) returns (r: ReadResult)
    ensures r.Content? ==> IsUtf8(r.text)
    ensures IsUtf8(bytes) && (errors == None || errors.value in {"strict", "backslashreplace", "replace", "ignore"})
            ==> r == Content(bytes)
    ensures errors == None || errors.value == "strict" ==>
              r == if IsUtf8(bytes) then Content(bytes) else Failed(UnicodeDecodeError)
    ensures errors == Some("backslashreplace") ==> r == Content(Lossy(bytes)) && (92 !in bytes ==> Unescape(r.text) == bytes)
    ensures errors == Some("ignore") ==> r == Content(Ignored(bytes))
    ensures errors == Some("replace") ==> r == Content(Replaced(bytes))
    ensures r == Failed(ValueError) <==>
              errors.Some? && errors.value !in {"strict", "backslashreplace", "replace", "ignore"}
  {
    hide Lossy, Ignored, CharLen, ValidUpTo, Replaced;
    var mode := match errors case Some(m) => m case None => "strict";
    LossyIsUtf8(bytes);
    ReplacedIsUtf8(bytes);
    if IsUtf8(bytes) { Utf8Kept(bytes); }
    match mode {
      case "strict" => r := if ValidUpTo(bytes) == |bytes| then Content(bytes) else Failed(UnicodeDecodeError); FullyValid(bytes);
      case "backslashreplace" => var text := DecodeRetry(bytes); r := Content(text);
      case "replace" => r := Content(Replaced(bytes));
      case "ignore" => var text := DecodeIgnore(bytes); r := Content(text);
      case _ => r := Failed(ValueError);
    }
  }

  lemma FullyValid(s: Bytes)
    ensures ValidUpTo(s) == |s| <==> IsUtf8(s)
    decreases |s|
  {
    if s != [] && CharLen(s) > 0 {
      FullyValid(s[CharLen(s)..]);
    }
  }

  lemma {:induction false} ReplacedIsUtf8(s: Bytes)
    ensures IsUtf8(Replaced(s)) && (IsUtf8(s) ==> Replaced(s) == s)
    decreases |s|
  {
    hide CharLen, IsUtf8, ValidUpTo, BadLen, Replaced;
    FullyValid(s);
    ValidPrefixIsUtf8(s);
    ReplacedUnfold(s);
    var n, rest := ValidUpTo(s), s[ValidUpTo(s)..];
    if rest == [] {
      assert s[..n] == s;
    } else {
      var tail := Replaced(rest[BadLen(rest)..]);
      ReplacedIsUtf8(rest[BadLen(rest)..]);
      ReplacementIsUtf8();
      Utf8Append(REPLACEMENT, tail);
      Utf8Append(s[..n], REPLACEMENT + tail);
      assert s[..n] + (REPLACEMENT + tail) == s[..n] + REPLACEMENT + tail;
    }
  }

  lemma ReplacedUnfold(s: Bytes)
    ensures var rest := s[ValidUpTo(s)..];
            if rest == [] then Replaced(s) == s
            else CharLen(rest) == 0
                 && Replaced(s) == s[..ValidUpTo(s)] + REPLACEMENT + Replaced(rest[BadLen(rest)..])
  {
    hide CharLen, IsUtf8, ValidUpTo, BadLen;
    ValidPrefixIsUtf8(s);
  }

  /** One replacement character per maximal beginning of a character: `c` begins one, or is a
      single byte, and what follows does not continue it. */
  lemma OnePerBeginning(c: Bytes, rest: Bytes)
    requires (|c| == 1 || (c != [] && Begins(c))) && CharLen(c + rest) == 0
    requires rest == [] || !Begins(c + rest[..1])
    ensures Replaced(c + rest) == REPLACEMENT + Replaced(rest)
  {
    hide CharLen, Begins, BadLen, Replaced;
    var s, m := c + rest, |c|;
    assert s[..m] == c && s[m..] == rest;
    if m > 1 { BadLenIsMaximal(s, m); }
    if rest != [] {
      assert s[..m + 1] == c + rest[..1];
      BadLenIsMaximal(s, m + 1);
    }
    ReplacedUnfold(s);
    BadStartIsFirst(s);
  }

  lemma BadStartIsFirst(s: Bytes)
    requires CharLen(s) == 0
    ensures ValidUpTo(s) == 0 && s[0..] == s && forall x: Bytes :: s[..0] + x == x
  {}

  lemma ReplacementIsUtf8()
    ensures IsUtf8(REPLACEMENT)
  {
    assert CharLen(REPLACEMENT) == 3 && REPLACEMENT[3..] == [];
  }
}
