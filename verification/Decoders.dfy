/** The lossy decoders: the session engine's, which walks `utf8_chunks`, the server's
    two, which retry `from_utf8` on what is left, and the length of a character split
    at the end of a read. */
module Decoders {
  import opened Text
  import opened Utf8

  // ------------------------------------------------- the standard library's view

  /** `Utf8Error::valid_up_to`: length of the longest well-formed prefix. */
  function ValidUpTo(s: Bytes): (n: nat)
    ensures n <= |s|
  {
    if s == [] || CharLen(s) == 0 then 0 else CharLen(s) + ValidUpTo(s[CharLen(s)..])
  }

  /** `Utf8Error::error_len` for bytes that start no character: `None` when the input
      ends inside a character, else how many bytes are given up together. */
  function ErrorLen(s: Bytes): (r: Option<nat>)
    requires s != [] && CharLen(s) == 0
    ensures r.Some? ==> 1 <= r.value <= 3 && r.value <= |s|
  {
    var w := Width(s[0]);
    if w < 2 then Some(1)
    else if |s| < 2 then None
    else if !SecondOk(s[0], s[1]) then Some(1)
    else if |s| < 3 then None
    else if !IsTail(s[2]) then Some(2)
    else if |s| < 4 then None
    else Some(3)
  }

  /** Length of the invalid part of a `Utf8Chunk`, and the step of the server's loops:
      there `.max(1)` changes nothing, because the length is never 0. */
  function BadLen(s: Bytes): (n: nat)
    requires s != [] && CharLen(s) == 0
    ensures 1 <= n <= |s|
  {
    match ErrorLen(s) case Some(n) => n case None => |s|
  }

  /** The bytes given up together are followed by continuation bytes only, so none of
      them starts a character either. */
  lemma BadBytes(s: Bytes, k: nat)
    requires s != [] && CharLen(s) == 0 && k < BadLen(s)
    ensures BadLen(s) <= 3 && CharLen(s[k..]) == 0
  {}

  /** Escapes of a run of bytes, one by one. */
  function EscapeAll(s: Bytes): Bytes {
    if s == [] then [] else Escape(s[0]) + EscapeAll(s[1..])
  }

  lemma EscapeAllCons(s: Bytes)
    requires s != []
    ensures EscapeAll(s) == Escape(s[0]) + EscapeAll(s[1..])
  {}

  lemma {:induction false} ValidPrefixIsUtf8(s: Bytes)
    ensures IsUtf8(s[..ValidUpTo(s)])
    ensures var rest := s[ValidUpTo(s)..]; rest == [] || CharLen(rest) == 0
    decreases |s|
  {
    hide CharLen;
    if s == [] || CharLen(s) == 0 {
      assert s[0..] == s;
    } else {
      var n, t := CharLen(s), s[CharLen(s)..];
      ValidPrefixIsUtf8(t);
      CharIsUtf8(s);
      assert s[..n + ValidUpTo(t)] == s[..n] + t[..ValidUpTo(t)];
      assert s[n + ValidUpTo(t)..] == t[ValidUpTo(t)..];
      Utf8Append(s[..n], t[..ValidUpTo(t)]);
    }
  }

  /** The well-formed prefix is copied. */
  lemma ValidPrefix(s: Bytes)
    ensures var rest := s[ValidUpTo(s)..]; rest == [] || CharLen(rest) == 0
    ensures Lossy(s) == s[..ValidUpTo(s)] + Lossy(s[ValidUpTo(s)..])
    ensures Ignored(s) == s[..ValidUpTo(s)] + Ignored(s[ValidUpTo(s)..])
  {
    hide *;
    ValidPrefixIsUtf8(s);
    var p, x := s[..ValidUpTo(s)], s[ValidUpTo(s)..];
    assert s == p + x;
    CutAfterUtf8(p, x);
    LossyAppend(p, x);
    Utf8Kept(p);
  }

  /** Giving up `n` bytes at once is the same as escaping them one by one. */
  lemma {:induction false} BadRun(s: Bytes, n: nat)
    requires n <= |s|
    requires forall k :: 0 <= k < n ==> CharLen(s[k..]) == 0
    ensures Lossy(s) == EscapeAll(s[..n]) + Lossy(s[n..])
    ensures Ignored(s) == Ignored(s[n..])
  {
    hide Lossy, Ignored, CharLen, Escape;
    if n == 0 {
      assert s[0..] == s;
    } else {
      hide EscapeAll;
      assert s[0..] == s;
      LossyUnfold(s);
      EscapeAllCons(s[..n]);
      var t := s[1..];
      forall k | 0 <= k < n - 1 ensures CharLen(t[k..]) == 0 { assert t[k..] == s[k + 1..]; }
      BadRun(t, n - 1);
      assert t[n - 1..] == s[n..];
      assert s[..n][1..] == t[..n - 1];
      assert Ignored(s) == Ignored(t);
    }
  }

  /** One run of bad bytes. */
  lemma BadRound(bad: Bytes)
    requires bad != [] && CharLen(bad) == 0
    ensures Lossy(bad) == EscapeAll(bad[..BadLen(bad)]) + Lossy(bad[BadLen(bad)..])
    ensures Ignored(bad) == Ignored(bad[BadLen(bad)..])
  {
    hide Lossy, Ignored, CharLen, EscapeAll, BadLen;
    forall k | 0 <= k < BadLen(bad) ensures CharLen(bad[k..]) == 0 { BadBytes(bad, k); }
    BadRun(bad, BadLen(bad));
  }

  lemma Regroup(a: Bytes, b: Bytes, c: Bytes, d: Bytes)
    ensures a + (b + (c + d)) == ((a + b) + c) + d
  {}

  lemma {:induction false} EscapeAllSnoc(s: Bytes, b: byte)
    ensures EscapeAll(s + [b]) == EscapeAll(s) + Escape(b)
  {
    if s == [] {
      assert [b][1..] == [];
    } else {
      assert (s + [b])[1..] == s[1..] + [b];
      EscapeAllSnoc(s[1..], b);
    }
  }

  // ---------------------------------------------------------------- the decoders

  /** `p` begins a longer character. */
  ghost predicate Begins(p: Bytes) {
    exists x: Bytes :: x != [] && CharLen(p + x) == |p| + |x|
  }

  /** A start of a character that is cut off or spoilt: what is given up together is the
      longest start of a character that stands there, or a single byte. */
  lemma BadLenIsMaximal(s: Bytes, m: nat)
    requires s != [] && CharLen(s) == 0 && 1 < m <= |s|
    ensures Begins(s[..m]) <==> m <= BadLen(s)
  {
    var p := s[..m];
    if m <= BadLen(s) {
      var x: Bytes := if Width(s[0]) - m == 1 then [0x80] else [0x80, 0x80];
      assert p[0] == s[0] && p[1] == s[1] && (m == 3 ==> p[2] == s[2]);
      assert CharLen(p + x) == m + |x|;
    } else {
      forall x: Bytes | x != [] ensures CharLen(p + x) != m + |x| {
        assert (p + x)[0] == s[0] && (p + x)[1] == s[1];
        assert m >= 3 ==> (p + x)[2] == s[2];
        assert m >= 4 ==> |p + x| >= 5;
      }
    }
  }

  /** The inner loop of both: one escape after the other. */
  method PushEscapes(out: Bytes, bad: Bytes) returns (r: Bytes)
    ensures r == out + EscapeAll(bad)
  {
    r := out;
    for i := 0 to |bad|
      invariant r == out + EscapeAll(bad[..i])
    {
      EscapeAllSnoc(bad[..i], bad[i]);
      assert bad[..i + 1] == bad[..i] + [bad[i]];
      r := r + Escape(bad[i]);
    }
    assert bad[..|bad|] == bad;
  }

  /** `output::decode_backslashreplace`: walk the chunks of `utf8_chunks`. */
  method DecodeChunks(bytes: Bytes) returns (out: Bytes)
    ensures out == Lossy(bytes) && (92 !in bytes ==> Unescape(out) == bytes)
  {
    hide *;
    if 92 !in bytes { LossyCanBeUndone(bytes); }
    LossyEmpty();
    out := [];
    var source := bytes;
    while source != []
      invariant Lossy(bytes) == out + Lossy(source)
      decreases |source|
    {
      ValidPrefix(source);
      var valid, bad := source[..ValidUpTo(source)], source[ValidUpTo(source)..];
      ghost var before := out;
      out := out + valid;
      source := bad;
      if bad != [] {
        BadRound(bad);
        var invalid := bad[..BadLen(bad)];
        source := bad[BadLen(bad)..];
        Regroup(before, valid, EscapeAll(invalid), Lossy(source));
        out := PushEscapes(out, invalid);
      }
    }
  }

  /** The server's `decode_backslashreplace`: retry `from_utf8` on the rest. */
  method DecodeRetry(bytes: Bytes) returns (out: Bytes)
    ensures out == Lossy(bytes) && (92 !in bytes ==> Unescape(out) == bytes)
  {
    hide *;
    if 92 !in bytes { LossyCanBeUndone(bytes); }
    LossyEmpty();
    out := [];
    var rest := bytes;
    while true
      invariant Lossy(bytes) == out + Lossy(rest)
      decreases |rest|
    {
      ValidPrefix(rest);
      var valid, bad := rest[..ValidUpTo(rest)], rest[ValidUpTo(rest)..];
      ghost var before := out;
      out := out + valid;
      if bad == [] {
        break;
      }
      BadRound(bad);
      var len := BadLen(bad);
      rest := bad[len..];
      Regroup(before, valid, EscapeAll(bad[..len]), Lossy(rest));
      out := PushEscapes(out, bad[..len]);
    }
  }

  /** The server's `decode_ignore`. */
  method DecodeIgnore(bytes: Bytes) returns (out: Bytes)
    ensures out == Ignored(bytes)
  {
    hide *;
    LossyEmpty();
    out := [];
    var rest := bytes;
    while true
      invariant Ignored(bytes) == out + Ignored(rest)
      decreases |rest|
    {
      ValidPrefix(rest);
      var valid, bad := rest[..ValidUpTo(rest)], rest[ValidUpTo(rest)..];
      out := out + valid;
      if bad == [] {
        break;
      }
      BadRound(bad);
      rest := bad[BadLen(bad)..];
    }
  }

  // --------------------------------------------------- characters split across reads

  /** The lead-byte classes of `incomplete_tail_len`: wider than RFC 3629 (it also
      takes 0xC0, 0xC1 and 0xF5 to 0xF7 for lead bytes), 0 for any other byte. */
  function ExpectedLen(b: byte): nat {
    if b < 0x80 then 1
    else if 0xC0 <= b < 0xE0 then 2
    else if 0xE0 <= b < 0xF0 then 3
    else if 0xF0 <= b < 0xF8 then 4
    else 0
  }

  /** The last `len` bytes are a lead byte and too few continuation bytes. */
  predicate HeldBack(b: Bytes, len: nat) {
    1 <= len <= 3 && len <= |b|
    && ExpectedLen(b[|b| - len]) > len
    && forall k :: |b| - len < k < |b| ==> IsTail(b[k])
  }

  /** How many bytes at the end of `b` wait for the rest of their character. */
  function TailLen(b: Bytes): (n: nat)
    ensures n <= 3 && n <= |b|
  {
    if HeldBack(b, 1) then 1 else if HeldBack(b, 2) then 2 else if HeldBack(b, 3) then 3 else 0
  }

  /** Behind well-formed text exactly the beginning of a character is held back, and
      nothing if there is none. */
  lemma {:induction false} TailOfText(p: Bytes, t: Bytes)
    requires IsUtf8(p) && (t == [] || Begins(t))
    ensures TailLen(p + t) == |t|
  {
    if t == [] {
      assert p + t == p;
      NoTailOfText(p);
    } else {
      hide IsUtf8;
      BeginsWithLead(t);
      var b, n := p + t, |p|;
      forall k | 0 <= k < |t| ensures b[n + k] == t[k] {}
      assert HeldBack(b, |t|);
    }
  }

  lemma BeginsWithLead(t: Bytes)
    requires t != [] && Begins(t)
    ensures |t| < ExpectedLen(t[0]) && forall k :: 0 < k < |t| ==> IsTail(t[k])
  {}

  lemma {:induction false} NoTailOfText(p: Bytes)
    requires IsUtf8(p)
    ensures TailLen(p) == 0
  {
    hide IsUtf8;
    var n := TailLen(p);
    if n > 0 {
      var i := |p| - n;
      assert HeldBack(p, n);
      Utf8Split(p, i);
      assert p[i..][0] == p[i];
      FirstCharFits(p[i..]);
    }
  }

  lemma FirstCharFits(s: Bytes)
    requires IsUtf8(s) && s != []
    ensures ExpectedLen(s[0]) <= |s|
  {}

  method IncompleteTailLen(b: Bytes) returns (n: nat)
    ensures n == TailLen(b)
  {
    for len := 1 to Min(|b|, 3) + 1
      invariant forall l :: 1 <= l < len ==> !HeldBack(b, l)
    {
      if forall k :: |b| - len < k < |b| ==> IsTail(b[k]) {
        if ExpectedLen(b[|b| - len]) > len {
          return len;
        }
      }
    }
    return 0;
  }

  /** The split of a read is clean: no character can straddle it, whatever comes later. */
  lemma TailCut(b: Bytes, more: Bytes)
    ensures CleanCut(b[..|b| - TailLen(b)], b[|b| - TailLen(b)..] + more)
  {}

  /** Held-back bytes of a stream depend on the stream, not on how it was read. */
  lemma TailOfStream(a: Bytes, chunk: Bytes)
    ensures TailLen(a + chunk) == TailLen(a[|a| - TailLen(a)..] + chunk)
  {}
}
