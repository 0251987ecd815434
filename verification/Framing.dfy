/** Exit framings `EXITCODESTART<seq>:<code>EXITCODEEND`: printing, parsing, and where the
    delimiters can and cannot occur. */
module Framing {
  import opened Text

  /** `EXITCODESTART` */
  const PREFIX: Bytes := [69, 88, 73, 84, 67, 79, 68, 69, 83, 84, 65, 82, 84]

  /** `EXITCODEEND` */
  const SUFFIX: Bytes := [69, 88, 73, 84, 67, 79, 68, 69, 69, 78, 68]

  const COLON: byte := 58

  const U64_END := 0x1_0000_0000_0000_0000

  // ------------------------------------------------------------------- decimals

  predicate IsDigit(b: byte) { 48 <= b <= 57 }

  predicate AllDigits(s: Bytes) { forall k :: 0 <= k < |s| ==> IsDigit(s[k]) }

  /** Decimal text of a number. */
  function Dec(n: nat): (s: Bytes)
    ensures s != [] && AllDigits(s)
  {
    if n < 10 then [48 + n] else Dec(n / 10) + [48 + n % 10]
  }

  function Value(s: Bytes): nat
    requires AllDigits(s)
  {
    if s == [] then 0 else 10 * Value(s[..|s| - 1]) + (s[|s| - 1] - 48)
  }

  lemma {:induction false} ValueOfDec(n: nat)
    ensures Value(Dec(n)) == n
  {
    if n >= 10 {
      ValueOfDec(n / 10);
      assert Dec(n)[..|Dec(n)| - 1] == Dec(n / 10);
    }
  }

  lemma DecInjective(j: nat, k: nat)
    ensures Dec(j) == Dec(k) <==> j == k
  {
    ValueOfDec(j);
    ValueOfDec(k);
  }

  /** Length of the run of digits at the front. */
  function DigitRun(s: Bytes): (n: nat)
    ensures n <= |s| && AllDigits(s[..n]) && (n < |s| ==> !IsDigit(s[n]))
  {
    if s == [] || !IsDigit(s[0]) then 0
    else
      var n := 1 + DigitRun(s[1..]);
      assert forall k :: 0 < k < n ==> s[k] == s[1..][..n - 1][k - 1];
      n
  }

  lemma DigitRunIs(s: Bytes, n: nat)
    requires n <= |s| && AllDigits(s[..n]) && (n < |s| ==> !IsDigit(s[n]))
    ensures DigitRun(s) == n
  {
    var m := DigitRun(s);
    if m < n { DigitInRun(s, n, m); }
    if n < m { DigitInRun(s, m, n); }
  }

  lemma DigitInRun(s: Bytes, n: nat, k: nat)
    requires k < n <= |s|
    ensures AllDigits(s[..n]) ==> IsDigit(s[k])
  {
    assert s[..n][k] == s[k];
  }

  // --------------------------------------------------------------------- markers

  datatype Marker = Marker(seqno: nat, len: nat)

  /** What follows the prefix of a framing. */
  function Body(a: Bytes, c: Bytes): Bytes { a + [COLON] + c + SUFFIX }

  /** `marker_seq_len`: sequence number and length of the body that `after` starts with. */
  function MarkerAt(after: Bytes): (m: Option<Marker>)
    ensures m.Some? ==> m.value.len <= |after|
  {
    var i := DigitRun(after);
    if i == 0 || i >= |after| || after[i] != COLON || Value(after[..i]) >= U64_END then None
    else
      var j := DigitRun(after[i + 1..]);
      if j == 0 || !(SUFFIX <= after[i + 1 + j..]) then None
      else Some(Marker(Value(after[..i]), i + 1 + j + |SUFFIX|))
  }

  /** Parsing inverts printing, whatever follows: any two digit strings, the first below
      2^64, give that number and the exact length. */
  lemma MarkerOfBody(a: Bytes, c: Bytes, rest: Bytes)
    requires AllDigits(a) && AllDigits(c) && a != [] && c != [] && Value(a) < U64_END
    ensures MarkerAt(Body(a, c) + rest) == Some(Marker(Value(a), |Body(a, c)|))
  {
    hide Value, AllDigits, MarkerAt, DigitRun;
    var s := Body(a, c) + rest;
    var t := s[|a| + 1..];
    assert s[..|a|] == a && s[|a|] == COLON;
    DigitRunIs(s, |a|);
    assert t == c + (SUFFIX + rest);
    assert t[..|c|] == c && t[|c|] == (SUFFIX + rest)[0] == SUFFIX[0];
    DigitRunIs(t, |c|);
    assert s[|a| + 1 + |c|..] == SUFFIX + rest;
    MarkerFromRuns(s, |a|, |c|);
  }

  lemma MarkerFromRuns(s: Bytes, i: nat, j: nat)
    requires 0 < i == DigitRun(s) < |s| && s[i] == COLON && Value(s[..i]) < U64_END
    requires 0 < j == DigitRun(s[i + 1..]) && SUFFIX <= s[i + 1 + j..]
    ensures MarkerAt(s) == Some(Marker(Value(s[..i]), i + 1 + j + |SUFFIX|))
  {
    hide DigitRun, Value, AllDigits, IsDigit;
  }

  /** Only bodies parse. */
  lemma BodyOfMarker(after: Bytes) returns (a: Bytes, c: Bytes)
    requires MarkerAt(after).Some?
    ensures AllDigits(a) && AllDigits(c) && a != [] && c != [] && Value(a) < U64_END
    ensures after[..MarkerAt(after).value.len] == Body(a, c) && MarkerAt(after).value.seqno == Value(a)
  {
    var i := DigitRun(after);
    var j := DigitRun(after[i + 1..]);
    a, c := after[..i], after[i + 1..][..j];
    assert after[..i + 1 + j + |SUFFIX|] == a + [COLON] + c + after[i + 1 + j..][..|SUFFIX|];
  }

  /** `marker_seq_len` as the code scans it. */
  method MarkerSeqLen(after: Bytes) returns (m: Option<Marker>)
    ensures m == MarkerAt(after)
  {
    var i := SkipDigits(after, 0);
    assert after[0..] == after;
    if i == 0 || i >= |after| || after[i] != COLON {
      return None;
    }
    if Value(after[..i]) >= U64_END {
      return None;
    }
    var codeStart := i + 1;
    var j := SkipDigits(after, codeStart);
    if j == codeStart || !(SUFFIX <= after[j..]) {
      return None;
    }
    return Some(Marker(Value(after[..i]), j + |SUFFIX|));
  }

  method SkipDigits(b: Bytes, start: nat) returns (i: nat)
    requires start <= |b|
    ensures i == start + DigitRun(b[start..])
  {
    i := start;
    while i < |b| && IsDigit(b[i])
      invariant start <= i <= |b| && AllDigits(b[start..i])
      decreases |b| - i
    {
      assert b[start..i + 1] == b[start..i] + [b[i]];
      i := i + 1;
    }
    assert b[start..][..i - start] == b[start..i];
    DigitRunIs(b[start..], i - start);
  }

  // ------------------------------------------------- where delimiters can stand

  /** The well-formed framing that starts at `i`, numbered below 2^64: its number, and
      the offset of its end. */
  function FramingAt(s: Bytes, i: int): (f: Option<Marker>)
    ensures f.Some? ==> 0 <= i && i + |PREFIX| <= f.value.len <= |s|
  {
    if !OccursAt(s, PREFIX, i) then None
    else match MarkerAt(s[i + |PREFIX|..])
      case Some(m) => Some(Marker(m.seqno, i + |PREFIX| + m.len))
      case None => None
  }

  /** Three bytes of the prefix that tell it from everything around it. */
  lemma PrefixBytes(s: Bytes, i: int)
    requires OccursAt(s, PREFIX, i)
    ensures s[i] == 69 && s[i + 1] == 88 && s[i + 8] == 83
  {
    OccursIndex(s, PREFIX, i, 0);
    OccursIndex(s, PREFIX, i, 1);
    OccursIndex(s, PREFIX, i, 8);
  }

  /** The prefix is unbordered: two occurrences never overlap. */
  lemma PrefixUnbordered(s: Bytes, i: int, j: int)
    requires OccursAt(s, PREFIX, i) && i < j < i + |PREFIX|
    ensures !OccursAt(s, PREFIX, j)
  {
    OccursIndex(s, PREFIX, i, j - i);
    if j + 1 < i + |PREFIX| { OccursIndex(s, PREFIX, i, j - i + 1); }
    if OccursAt(s, PREFIX, j) {
      PrefixBytes(s, j);
    }
  }

  /** The suffix is unbordered too. */
  lemma SuffixUnbordered(s: Bytes, i: int, j: int)
    requires OccursAt(s, SUFFIX, i) && i < j < i + |SUFFIX|
    ensures !OccursAt(s, SUFFIX, j)
  {
    OccursIndex(s, SUFFIX, i, j - i);
    if j + 1 < i + |SUFFIX| { OccursIndex(s, SUFFIX, i, j - i + 1); }
    if OccursAt(s, SUFFIX, j) {
      OccursIndex(s, SUFFIX, j, 0);
      OccursIndex(s, SUFFIX, j, 1);
    }
  }

  /** No prefix starts inside the body of a framing. */
  lemma BodyHasNoPrefix(s: Bytes, a: Bytes, c: Bytes, j: int)
    requires AllDigits(a) && AllDigits(c) && Body(a, c) <= s && 0 <= j < |Body(a, c)|
    ensures !OccursAt(s, PREFIX, j)
  {
    var b := Body(a, c);
    var k := |a| + 1 + |c|;
    assert s[j] == b[j];
    if j >= k {
      assert b[j] == SUFFIX[j - k];
      assert forall x :: 0 <= x < |SUFFIX| && k + x < |b| ==> s[k + x] == b[k + x] == SUFFIX[x];
    } else if j < |a| {
      assert b[j] == a[j];
    } else if j > |a| {
      assert b[j] == c[j - |a| - 1];
    }
    if OccursAt(s, PREFIX, j) {
      PrefixBytes(s, j);
    }
  }

  /** No prefix starts inside a framing. */
  lemma FramingHasNoPrefix(s: Bytes, i: int, j: int)
    requires FramingAt(s, i).Some? && i < j < FramingAt(s, i).value.len
    ensures !OccursAt(s, PREFIX, j)
  {
    if j < i + |PREFIX| {
      PrefixUnbordered(s, i, j);
    } else {
      var after := s[i + |PREFIX|..];
      var a, c := BodyOfMarker(after);
      BodyHasNoPrefix(after, a, c, j - i - |PREFIX|);
      OccursInSuffix(s, PREFIX, i + |PREFIX|, j - i - |PREFIX|);
    }
  }

  function Moved(f: Option<Marker>, c: nat): Option<Marker>
    requires f.Some? ==> c <= f.value.len
  {
    match f case Some(m) => Some(Marker(m.seqno, m.len - c)) case None => None
  }

  /** A framing keeps its number, and its place in the text, when a front part is cut off. */
  lemma FramingInSuffix(s: Bytes, c: nat, i: nat)
    requires c <= |s|
    ensures FramingAt(s[c..], i) == Moved(FramingAt(s, c + i), c)
  {
    OccursInSuffix(s, PREFIX, c, i);
    if i + |PREFIX| <= |s[c..]| {
      assert s[c..][i + |PREFIX|..] == s[c + i + |PREFIX|..];
    }
  }
}
