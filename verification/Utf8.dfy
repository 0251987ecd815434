/** UTF-8 as defined by section 4 of RFC 3629, and the lossy reading of arbitrary
    bytes: well-formed characters are kept, every other byte stands alone. */
module Utf8 {
  import opened Text

  predicate IsTail(b: byte) { 0x80 <= b <= 0xBF }

  /** Length announced by a lead byte, 0 for a byte that starts no character. */
  function Width(b: byte): (w: nat) {
    if b <= 0x7F then 1
    else if 0xC2 <= b <= 0xDF then 2
    else if 0xE0 <= b <= 0xEF then 3
    else if 0xF0 <= b <= 0xF4 then 4
    else 0
  }

  /** The second-byte column of the grammar in section 4 of RFC 3629. */
  predicate SecondOk(a: byte, b: byte) {
    if a == 0xE0 then 0xA0 <= b <= 0xBF
    else if a == 0xED then 0x80 <= b <= 0x9F
    else if a == 0xF0 then 0x90 <= b <= 0xBF
    else if a == 0xF4 then 0x80 <= b <= 0x8F
    else IsTail(b)
  }

  /** Length of the well-formed character at the front of `s`, 0 if there is none. */
  function CharLen(s: Bytes): (n: nat)
    ensures n <= |s| && n <= 4
  {
    if s == [] then 0
    else
      var w := Width(s[0]);
      if w == 0 || w > |s| then 0
      else if w >= 2 && !SecondOk(s[0], s[1]) then 0
      else if w >= 3 && !IsTail(s[2]) then 0
      else if w >= 4 && !IsTail(s[3]) then 0
      else w
  }

  datatype Piece = Good(chr: Bytes) | Bad(b: byte)

  /** Left-to-right reading of `s`: a character where one starts, else a single bad byte. */
  function Pieces(s: Bytes): seq<Piece> {
    if s == [] then [] else [First(s)] + Pieces(s[Step(s)..])
  }

  function First(s: Bytes): Piece
    requires s != []
  {
    if CharLen(s) > 0 then Good(s[..CharLen(s)]) else Bad(s[0])
  }

  function Step(s: Bytes): (n: nat)
    requires s != []
    ensures 0 < n <= |s|
  {
    if CharLen(s) > 0 then CharLen(s) else 1
  }

  function HexDigit(n: nat): byte
    requires n < 16
  {
    if n < 10 then 48 + n else 87 + n
  }

  /** `\xNN` in lower-case hexadecimal. */
  function Escape(b: byte): (r: Bytes) { [92, 120, HexDigit(b / 16), HexDigit(b % 16)] }

  function Shown(p: Piece): Bytes { match p case Good(c) => c case Bad(b) => Escape(b) }

  function Kept(p: Piece): Bytes { match p case Good(c) => c case Bad(_) => [] }

  function Escaped(ps: seq<Piece>): Bytes {
    if ps == [] then [] else Shown(ps[0]) + Escaped(ps[1..])
  }

  function Erased(ps: seq<Piece>): Bytes {
    if ps == [] then [] else Kept(ps[0]) + Erased(ps[1..])
  }

  function BadCount(ps: seq<Piece>): nat {
    if ps == [] then 0 else (if ps[0].Bad? then 1 else 0) + BadCount(ps[1..])
  }

  /** What decoding with backslash escapes must produce. */
  function Lossy(s: Bytes): Bytes { Escaped(Pieces(s)) }

  /** What decoding that ignores errors must produce: the same pieces without the escapes. */
  function Ignored(s: Bytes): Bytes { Erased(Pieces(s)) }

  predicate IsUtf8(s: Bytes) {
    s == [] || (CharLen(s) > 0 && IsUtf8(s[CharLen(s)..]))
  }

  /** Rust's `is_char_boundary`. */
  predicate IsBoundary(s: Bytes, i: int) {
    i == 0 || i == |s| || (0 < i < |s| && !IsTail(s[i]))
  }

  /** Six bits more. */
  function SixMore(n: nat, b: byte): nat
    requires IsTail(b)
  {
    n * 0x40 + (b as int - 0x80)
  }

  /** The code point of a character (section 3 of RFC 3629). */
  function CodePoint(c: Bytes): nat
    requires CharLen(c) == |c| > 0
  {
    match |c|
    case 1 => c[0]
    case 2 => SixMore(c[0] as int - 0xC0, c[1])
    case 3 => SixMore(SixMore(c[0] as int - 0xE0, c[1]), c[2])
    case _ => SixMore(SixMore(SixMore(c[0] as int - 0xF0, c[1]), c[2]), c[3])
  }

  // ---------------------------------------------------------------- characters

  /** A character depends on its own bytes only. */
  lemma CharLenPrefix(s: Bytes, t: Bytes)
    ensures CharLen(s) > 0 ==> CharLen(s + t) == CharLen(s)
    ensures CharLen(s + t) <= |s| ==> CharLen(s) == CharLen(s + t)
  {
    if s != [] {
      assert (s + t)[0] == s[0];
      forall k | 0 <= k < |s| ensures (s + t)[k] == s[k] {}
    } else {
      assert s + t == t;
    }
  }

  /** Inside a character every byte but the first is a continuation byte. */
  lemma CharTails(s: Bytes, k: nat)
    requires 0 < k < CharLen(s)
    ensures IsTail(s[k])
  {}

  lemma LossyEmpty()
    ensures Pieces([]) == [] && Lossy([]) == [] && Ignored([]) == []
  {}

  /** One step of the reading. */
  lemma LossyUnfold(s: Bytes)
    requires s != []
    ensures Lossy(s) == Shown(First(s)) + Lossy(s[Step(s)..])
    ensures Ignored(s) == Kept(First(s)) + Ignored(s[Step(s)..])
    ensures BadCount(Pieces(s)) == (if First(s).Bad? then 1 else 0) + BadCount(Pieces(s[Step(s)..]))
  {
    assert Pieces(s)[1..] == Pieces(s[Step(s)..]);
  }

  lemma EscapedCons(ps: seq<Piece>)
    requires ps != []
    ensures Escaped(ps) == Shown(ps[0]) + Escaped(ps[1..])
    ensures Erased(ps) == Kept(ps[0]) + Erased(ps[1..])
  {}

  lemma {:induction false} EscapedAppend(a: seq<Piece>, b: seq<Piece>)
    ensures Escaped(a + b) == Escaped(a) + Escaped(b)
    ensures Erased(a + b) == Erased(a) + Erased(b)
  {
    hide Shown, Kept;
    if a == [] {
      assert a + b == b;
    } else {
      hide Escaped, Erased;
      assert (a + b)[1..] == a[1..] + b;
      EscapedCons(a + b);
      EscapedCons(a);
      EscapedAppend(a[1..], b);
    }
  }

  /** No character of `p + x` straddles the end of `p`. */
  ghost predicate CleanCut(p: Bytes, x: Bytes) {
    forall i :: 0 <= i < |p| ==> i + CharLen((p + x)[i..]) <= |p|
  }

  /** The first piece of a string survives anything appended behind a clean cut. */
  lemma FirstOfAppend(p: Bytes, x: Bytes)
    requires p != [] && CharLen(p + x) <= |p|
    ensures First(p + x) == First(p) && Step(p + x) == Step(p)
    ensures (p + x)[Step(p)..] == p[Step(p)..] + x
  {
    CharLenPrefix(p, x);
    assert (p + x)[..Step(p)] == p[..Step(p)];
  }

  lemma {:induction false} PiecesAppend(p: Bytes, x: Bytes)
    requires CleanCut(p, x)
    ensures Pieces(p + x) == Pieces(p) + Pieces(x)
    decreases |p|
  {
    hide CharLen;
    if p == [] {
      assert p + x == x;
    } else {
      var n, q := Step(p), p[Step(p)..];
      assert (p + x)[0..] == p + x;
      FirstOfAppend(p, x);
      forall i | 0 <= i < |q| ensures i + CharLen((q + x)[i..]) <= |q| {
        assert (q + x)[i..] == (p + x)[n + i..];
      }
      PiecesAppend(q, x);
      assert [First(p)] + (Pieces(q) + Pieces(x)) == Pieces(p) + Pieces(x);
    }
  }

  /** Cutting where no character straddles leaves both readings unchanged. */
  lemma LossyAppend(p: Bytes, x: Bytes)
    requires CleanCut(p, x)
    ensures Lossy(p + x) == Lossy(p) + Lossy(x)
    ensures Ignored(p + x) == Ignored(p) + Ignored(x)
  {
    PiecesAppend(p, x);
    EscapedAppend(Pieces(p), Pieces(x));
  }

  /** Nothing straddles the end of well-formed text. */
  lemma {:induction false} CutAfterUtf8(p: Bytes, x: Bytes)
    requires IsUtf8(p)
    ensures CleanCut(p, x)
    decreases |p|
  {
    if p != [] {
      var n := CharLen(p);
      CharLenPrefix(p, x);
      CutAfterUtf8(p[n..], x);
      assert (p + x)[n..] == p[n..] + x;
      forall i | 0 <= i < |p| ensures i + CharLen((p + x)[i..]) <= |p| {
        var s := (p + x)[i..];
        if i == 0 {
          assert s == p + x;
        } else if i < n {
          assert s[0] == (p + x)[i];
          CharTails(p + x, i);
          assert CharLen(s) == 0;
        } else {
          assert s == (p[n..] + x)[i - n..];
        }
      }
    }
  }

  /** Well-formed text is kept as it is. */
  lemma {:induction false} Utf8Kept(p: Bytes)
    requires IsUtf8(p)
    ensures Lossy(p) == p && Ignored(p) == p && BadCount(Pieces(p)) == 0
    decreases |p|
  {
    hide CharLen, Lossy, Ignored, Pieces;
    LossyEmpty();
    if p != [] {
      Utf8Kept(p[CharLen(p)..]);
      LossyUnfold(p);
      assert p == p[..CharLen(p)] + p[CharLen(p)..];
    }
  }

  // -------------------------------------------------------- well-formed text

  lemma {:induction false} Utf8Append(a: Bytes, b: Bytes)
    requires IsUtf8(a)
    ensures IsUtf8(a + b) <==> IsUtf8(b)
    decreases |a|
  {
    if a == [] {
      assert a + b == b;
    } else {
      var n := CharLen(a);
      CharLenPrefix(a, b);
      assert (a + b)[n..] == a[n..] + b;
      Utf8Append(a[n..], b);
    }
  }

  /** Well-formed text may be cut at any character boundary. */
  lemma {:induction false} Utf8Split(s: Bytes, i: nat)
    requires IsUtf8(s) && i <= |s| && IsBoundary(s, i)
    ensures IsUtf8(s[..i]) && IsUtf8(s[i..])
    decreases |s|
  {
    hide CharLen;
    if i == 0 {
      assert s[0..] == s;
    } else if i == |s| {
      assert s[..i] == s;
    } else {
      var n, t := CharLen(s), s[CharLen(s)..];
      if 0 < i < n {
        CharTails(s, i);
      }
      assert i >= n;
      assert i > n ==> t[i - n] == s[i];
      Utf8Split(t, i - n);
      assert t[i - n..] == s[i..];
      assert s[..i] == s[..n] + t[..i - n];
      CharIsUtf8(s);
      Utf8Append(s[..n], t[..i - n]);
    }
  }

  /** The first byte of well-formed text is no continuation byte. */
  lemma Utf8Lead(s: Bytes)
    requires IsUtf8(s) && s != []
    ensures !IsTail(s[0])
  {}

  /** Well-formed text is self-synchronizing: a non-empty pattern can only match
      between two character boundaries. */
  lemma MatchOnBoundaries(s: Bytes, p: Bytes, i: nat)
    requires IsUtf8(s) && IsUtf8(p) && p != [] && OccursAt(s, p, i)
    ensures IsBoundary(s, i) && IsBoundary(s, i + |p|)
  {
    Utf8Lead(p);
    OccursIndex(s, p, i, 0);
    Utf8Split(s, i);
    assert s[i..] == p + s[i + |p|..];
    Utf8Append(p, s[i + |p|..]);
    if i + |p| < |s| {
      Utf8Lead(s[i + |p|..]);
    }
  }

  /** In well-formed text a boundary is at most three bytes away. */
  lemma BoundaryWithinThree(s: Bytes, i: nat)
    requires IsUtf8(s) && i <= |s|
    ensures exists j :: i <= j <= Min(i + 3, |s|) && IsBoundary(s, j)
    decreases |s|
  {
    if i == 0 {
      assert IsBoundary(s, 0);
    } else if i == |s| {
      assert IsBoundary(s, i);
    } else {
      var n := CharLen(s);
      if i < n {
        if n < |s| { Utf8Lead(s[n..]); }
        assert IsBoundary(s, n);
      } else {
        BoundaryWithinThree(s[n..], i - n);
        var j :| i - n <= j <= Min(i - n + 3, |s[n..]|) && IsBoundary(s[n..], j);
        if j == 0 && n < |s| { Utf8Lead(s[n..]); }
        assert IsBoundary(s, n + j);
      }
    }
  }

  // --------------------------------------------------------- what decoding gives

  lemma EscapeIsUtf8(b: byte)
    ensures IsUtf8(Escape(b)) && |Escape(b)| == 4
  {
    var e := Escape(b);
    assert forall k :: 0 <= k < 4 ==> Width(e[k]) == 1;
    assert e[1..] == [e[1], e[2], e[3]];
    assert e[1..][1..] == [e[2], e[3]];
    assert e[1..][1..][1..] == [e[3]];
    assert IsUtf8([e[3]]);
    assert IsUtf8([e[2], e[3]]);
    assert IsUtf8([e[1], e[2], e[3]]);
  }

  lemma CharIsUtf8(s: Bytes)
    requires CharLen(s) > 0
    ensures IsUtf8(s[..CharLen(s)])
  {}

  /** Decoding always yields well-formed text. */
  lemma {:induction false} LossyIsUtf8(s: Bytes)
    ensures IsUtf8(Lossy(s)) && IsUtf8(Ignored(s))
    decreases |s|
  {
    if s != [] {
      var n := Step(s);
      LossyIsUtf8(s[n..]);
      LossyUnfold(s);
      if CharLen(s) > 0 {
        CharIsUtf8(s);
        Utf8Append(s[..n], Lossy(s[n..]));
        Utf8Append(s[..n], Ignored(s[n..]));
      } else {
        EscapeIsUtf8(s[0]);
        Utf8Append(Escape(s[0]), Lossy(s[n..]));
        assert Ignored(s) == Ignored(s[n..]);
      }
    }
  }

  /** Value of a lower-case hexadecimal digit. */
  function HexValue(d: byte): Option<nat> {
    if 48 <= d <= 57 then Some(d - 48) else if 97 <= d <= 102 then Some(d - 87) else None
  }

  /** The byte shown by `\xNN` at the front of a text. */
  function ShownByte(s: Bytes): Option<byte> {
    if |s| >= 4 && s[0] == 92 && s[1] == 120 && HexValue(s[2]).Some? && HexValue(s[3]).Some?
    then Some(16 * HexValue(s[2]).value + HexValue(s[3]).value)
    else None
  }

  /** Every `\xNN` turned back into its byte. */
  function Unescape(s: Bytes): Bytes {
    if s == [] then []
    else match ShownByte(s)
      case Some(b) => [b] + Unescape(s[4..])
      case None => [s[0]] + Unescape(s[1..])
  }

  /** An escape shows its byte, whatever follows. */
  lemma EscapeShows(b: byte, rest: Bytes)
    ensures Escape(b)[..2] == [92, 120]
    ensures ShownByte(Escape(b) + rest) == Some(b)
  {}

  lemma {:induction false} UnescapePlain(c: Bytes, rest: Bytes)
    requires 92 !in c
    ensures Unescape(c + rest) == c + Unescape(rest)
    decreases |c|
  {
    hide Unescape;
    if c == [] {
      assert c + rest == rest;
    } else {
      UnescapeOther(c + rest);
      assert (c + rest)[0] == c[0] && (c + rest)[1..] == c[1..] + rest;
      UnescapePlain(c[1..], rest);
      assert c == [c[0]] + c[1..];
    }
  }

  lemma UnescapeOther(s: Bytes)
    requires s != [] && s[0] != 92
    ensures Unescape(s) == [s[0]] + Unescape(s[1..])
  {}

  /** Decoding loses nothing: without a backslash in the input, turning the escapes back
      gives exactly the bytes that were decoded. */
  lemma {:induction false} LossyCanBeUndone(s: Bytes)
    requires 92 !in s
    ensures Unescape(Lossy(s)) == s
    decreases |s|
  {
    hide Lossy, CharLen, ShownByte, Unescape, Escape;
    LossyEmpty();
    UnescapeUnfold([]);
    if s != [] {
      var n, rest := Step(s), s[Step(s)..];
      LossyUnfold(s);
      LossyCanBeUndone(rest);
      assert s == s[..n] + rest;
      if CharLen(s) > 0 {
        UnescapePlain(s[..n], Lossy(rest));
      } else {
        var e := Escape(s[0]) + Lossy(rest);
        EscapeShows(s[0], Lossy(rest));
        UnescapeUnfold(e);
        EscapeIsUtf8(s[0]);
        assert e[4..] == Lossy(rest) && [s[0]] == s[..1];
      }
    }
  }

  lemma UnescapeUnfold(s: Bytes)
    ensures s == [] ==> Unescape(s) == []
    ensures s != [] && ShownByte(s).Some? ==> |s| >= 4 && Unescape(s) == [ShownByte(s).value] + Unescape(s[4..])
  {}

  /** Lengths: each kept byte counts once, each bad byte becomes four. */
  lemma {:induction false} LossyLength(s: Bytes)
    ensures |s| == |Ignored(s)| + BadCount(Pieces(s))
    ensures |Lossy(s)| == |Ignored(s)| + 4 * BadCount(Pieces(s))
    decreases |s|
  {
    if s != [] {
      LossyLength(s[Step(s)..]);
      LossyUnfold(s);
    }
  }

  /** Decoding changes nothing exactly when the bytes are well-formed. */
  lemma LossyIdentity(s: Bytes)
    ensures IsUtf8(s) <==> Lossy(s) == s
    ensures IsUtf8(s) <==> Ignored(s) == s
  {
    LossyIsUtf8(s);
    if IsUtf8(s) {
      Utf8Kept(s);
    }
  }
}
