/** Cutting and scrubbing exit framings out of text. */
module Markers {
  import opened Text
  import opened Framing
  import opened Search

  ghost predicate Stale(s: Bytes, i: int, q: nat) {
    FramingAt(s, i).Some? && FramingAt(s, i).value.seqno < q
  }

  /** The last framing numbered below `q` among those starting before offset `n`. */
  function LastStale(s: Bytes, q: nat, n: nat): Option<Marker> {
    if n == 0 then None
    else match FramingAt(s, n - 1)
      case Some(f) => if f.seqno < q then Some(f) else LastStale(s, q, n - 1)
      case None => LastStale(s, q, n - 1)
  }

  function StaleCut(s: Bytes, q: nat): (c: nat)
    ensures c <= |s|
  {
    match LastStale(s, q, |s|)
    case Some(f) => LastStaleIsFraming(s, q, |s|); f.len
    case None => 0
  }

  /** `drop_stale_framings`: the text behind the last framing numbered below `q`. */
  function DropStale(s: Bytes, q: nat): Bytes { s[StaleCut(s, q)..] }

  ghost predicate IsLastStale(s: Bytes, q: nat, n: nat, i: int) {
    0 <= i < n && Stale(s, i, q) && forall j :: i < j < n ==> !Stale(s, j, q)
  }

  lemma {:induction false} LastStaleIsFraming(s: Bytes, q: nat, n: nat)
    ensures LastStale(s, q, n).None? ==> forall i :: 0 <= i < n ==> !Stale(s, i, q)
    ensures LastStale(s, q, n).Some? ==> LastStale(s, q, n).value.len <= |s|
    ensures LastStale(s, q, n).Some? ==>
      exists i :: IsLastStale(s, q, n, i) && FramingAt(s, i) == LastStale(s, q, n)
  {
    hide FramingAt;
    if n > 0 {
      var f := FramingAt(s, n - 1);
      if f.Some? && f.value.seqno < q {
        assert IsLastStale(s, q, n, n - 1);
      } else {
        LastStaleIsFraming(s, q, n - 1);
        if LastStale(s, q, n - 1).Some? {
          var i :| IsLastStale(s, q, n - 1, i) && FramingAt(s, i) == LastStale(s, q, n - 1);
          assert IsLastStale(s, q, n, i);
        }
      }
    }
  }

  /** Exactly where the cut is: behind the last well-formed framing numbered below `q`,
      or nowhere when there is none. */
  ghost predicate IsStaleCut(s: Bytes, q: nat, c: nat) {
    (c == 0 && forall i :: !Stale(s, i, q))
    || exists i :: Stale(s, i, q) && c == FramingAt(s, i).value.len && forall j :: i < j ==> !Stale(s, j, q)
  }

  lemma StaleCutIs(s: Bytes, q: nat)
    ensures IsStaleCut(s, q, StaleCut(s, q))
  {
    hide LastStale;
    LastStaleIsFraming(s, q, |s|);
    assert forall i :: Stale(s, i, q) ==> 0 <= i < |s|;
    if LastStale(s, q, |s|).Some? {
      var f := LastStale(s, q, |s|).value;
      var i :| IsLastStale(s, q, |s|, i) && FramingAt(s, i) == Some(f);
      assert forall j :: i < j ==> !Stale(s, j, q);
    }
  }

  /** Framings never overlap. */
  lemma FramingsApart(s: Bytes, i: int, j: int)
    requires FramingAt(s, i).Some? && FramingAt(s, j).Some? && i < j
    ensures FramingAt(s, i).value.len <= j
  {
    if j < FramingAt(s, i).value.len {
      FramingHasNoPrefix(s, i, j);
    }
  }

  lemma StaleInSuffix(s: Bytes, c: nat, q: nat)
    requires c <= |s|
    ensures forall i: nat :: Stale(s[c..], i, q) <==> Stale(s, c + i, q)
    ensures forall i: nat :: Stale(s, c + i, q) ==> FramingAt(s[c..], i).value.len == FramingAt(s, c + i).value.len - c
    ensures forall i: int :: i < 0 ==> !Stale(s[c..], i, q)
  {
    forall i: nat
      ensures Stale(s[c..], i, q) <==> Stale(s, c + i, q)
      ensures Stale(s, c + i, q) ==> FramingAt(s[c..], i).value.len == FramingAt(s, c + i).value.len - c
    {
      FramingInSuffix(s, c, i);
    }
  }

  /** No framing older than `q` is left. */
  lemma NoStaleLeft(s: Bytes, q: nat, i: int)
    ensures !Stale(DropStale(s, q), i, q)
  {
    hide StaleCut, FramingAt;
    StaleCutIs(s, q);
    var c := StaleCut(s, q);
    StaleInSuffix(s, c, q);
    if i >= 0 {
      assert !Stale(s, c + i, q) by { StaleEndsBefore(s, q, c); }
    }
  }

  lemma StaleEndsBefore(s: Bytes, q: nat, c: nat)
    requires IsStaleCut(s, q, c)
    ensures forall j :: c <= j ==> !Stale(s, j, q)
  {}

  /** The cut is determined by where it is. */
  lemma StaleCutUnique(s: Bytes, q: nat, c: nat)
    requires IsStaleCut(s, q, c)
    ensures c == StaleCut(s, q)
  {
    hide StaleCut, FramingAt;
    StaleCutIs(s, q);
  }

  /** Dropping twice, the second time for a later command, is dropping once for it. */
  lemma DropStaleTwice(s: Bytes, q: nat, q': nat)
    requires q <= q'
    ensures DropStale(DropStale(s, q), q') == DropStale(s, q')
  {
    hide StaleCut, FramingAt;
    var c, c' := StaleCut(s, q), StaleCut(s, q');
    StaleCutIs(s, q);
    StaleCutIs(s, q');
    StaleInSuffix(s, c, q');
    assert forall i :: Stale(s, i, q) ==> Stale(s, i, q');
    if exists i :: c <= i && Stale(s, i, q') {
      LaterCut(s, c, q', c');
      StaleCutUnique(s[c..], q', c' - c);
      assert s[c..][c' - c..] == s[c'..];
    } else {
      forall i: int ensures !Stale(s[c..], i, q') {
        if i >= 0 { assert !Stale(s, c + i, q'); }
      }
      StaleCutUnique(s[c..], q', 0);
      SameCut(s, q, q', c, c');
    }
  }

  lemma LaterCut(s: Bytes, c: nat, q: nat, c': nat)
    requires c <= |s| && IsStaleCut(s, q, c') && exists i :: c <= i && Stale(s, i, q)
    ensures c <= c' && IsStaleCut(s[c..], q, c' - c)
  {
    StaleInSuffix(s, c, q);
    hide FramingAt;
    var i :| Stale(s, i, q) && c' == FramingAt(s, i).value.len && forall j :: i < j ==> !Stale(s, j, q);
    var k :| c <= k && Stale(s, k, q);
    assert k <= i;
    assert Stale(s, c + (i - c), q);
    assert Stale(s[c..], i - c, q);
    forall j | i - c < j ensures !Stale(s[c..], j, q) { assert !Stale(s, c + j, q); }
  }

  lemma SameCut(s: Bytes, q: nat, q': nat, c: nat, c': nat)
    requires q <= q' && IsStaleCut(s, q, c) && IsStaleCut(s, q', c')
    requires !exists i :: c <= i && Stale(s, i, q')
    ensures c == c'
  {
    hide FramingAt;
    assert forall i :: Stale(s, i, q) ==> Stale(s, i, q');
    if c == 0 && forall i :: !Stale(s, i, q) {
      if exists i :: Stale(s, i, q') {
        var i :| Stale(s, i, q');
        StaleNotNegative(s, i, q');
      }
    } else {
      var i :| Stale(s, i, q) && c == FramingAt(s, i).value.len && forall j :: i < j ==> !Stale(s, j, q);
      var i' :| Stale(s, i', q') && c' == FramingAt(s, i').value.len && forall j :: i' < j ==> !Stale(s, j, q');
      if i < i' { FramingsApart(s, i, i'); }
    }
  }

  lemma StaleNotNegative(s: Bytes, i: int, q: nat)
    ensures Stale(s, i, q) ==> 0 <= i < |s|
  {}

  /** One round of the loop: from `base` past the next prefix, which stands at `at`. */
  lemma StaleRound(s: Bytes, q: nat, base: nat, at: nat)
    requires base <= at && OccursAt(s, PREFIX, at)
    requires forall i :: base <= i < at ==> FramingAt(s, i).None?
    ensures var f := FramingAt(s, at);
            var next := if f.Some? then f.value.len else at + |PREFIX|;
            next <= |s|
            && LastStale(s, q, next) == (if f.Some? && f.value.seqno < q then f else LastStale(s, q, base))
  {
    hide LastStale, MarkerAt;
    OccursInside(s, PREFIX, at);
    var f := FramingAt(s, at);
    var next := if f.Some? then f.value.len else at + |PREFIX|;
    forall i | at < i < next ensures FramingAt(s, i).None? {
      if i < at + |PREFIX| { PrefixUnbordered(s, at, i); } else { FramingHasNoPrefix(s, at, i); }
      NoPrefixNoFraming(s, i, i);
    }
    hide FramingAt;
    LastStaleSkip(s, q, base, at);
    LastStaleStep(s, q, at);
    LastStaleSkip(s, q, at + 1, next);
  }

  /** The code's loop: look for the next prefix, remember the end of an old framing. */
  method DropStaleFramings(s: Bytes, q: nat) returns (r: Bytes)
    ensures r == DropStale(s, q)
  {
    hide LastStale, FramingAt, OccursAt, MarkerAt;
    var cut: Option<nat> := None;
    var rest := s;
    var base: nat := 0;
    LastStaleSkip(s, q, 0, 0);
    while true
      invariant base <= |s| && rest == s[base..]
      invariant cut == (match LastStale(s, q, base) case Some(f) => Some(f.len) case None => None)
      decreases |rest|
    {
      var start := FindFirst(rest, PREFIX);
      ghost var at: nat := if start.Some? then base + start.value else |s|;
      forall i | base <= i < at ensures FramingAt(s, i).None? { NoPrefixNoFraming(s, base, i); }
      if start.None? {
        LastStaleSkip(s, q, base, |s|);
        break;
      }
      var absStart := base + start.value;
      OccursInside(rest, PREFIX, start.value);
      OccursInSuffix(s, PREFIX, base, start.value);
      StaleRound(s, q, base, absStart);
      FramingFromParts(s, absStart);
      var after := rest[start.value + |PREFIX|..];
      assert after == s[absStart + |PREFIX|..];
      var m := MarkerSeqLen(after);
      if m.Some? {
        if m.value.seqno < q {
          cut := Some(absStart + |PREFIX| + m.value.len);
        }
        rest := after[m.value.len..];
        base := absStart + |PREFIX| + m.value.len;
      } else {
        rest := after;
        base := absStart + |PREFIX|;
      }
    }
    LastStaleIsFraming(s, q, |s|);
    match cut
    case Some(c) => return s[c..];
    case None => return s;
  }

  lemma NoPrefixNoFraming(s: Bytes, base: nat, i: nat)
    requires base <= i <= |s|
    requires !OccursAt(s[base..], PREFIX, i - base) || !OccursAt(s, PREFIX, i)
    ensures FramingAt(s, i).None?
  {
    OccursInSuffix(s, PREFIX, base, i - base);
  }

  lemma FramingFromParts(s: Bytes, i: nat)
    requires OccursAt(s, PREFIX, i)
    ensures FramingAt(s, i) == match MarkerAt(s[i + |PREFIX|..])
                               case Some(m) => Some(Marker(m.seqno, i + |PREFIX| + m.len)) case None => None
  {}

  lemma {:induction false} LastStaleSkip(s: Bytes, q: nat, m: nat, n: nat)
    requires m <= n && forall i :: m <= i < n ==> FramingAt(s, i).None?
    ensures LastStale(s, q, n) == LastStale(s, q, m)
    ensures LastStale(s, q, 0) == None
    decreases n
  {
    if m < n {
      LastStaleSkip(s, q, m, n - 1);
      assert FramingAt(s, n - 1).None?;
    }
  }

  lemma LastStaleStep(s: Bytes, q: nat, i: nat)
    ensures LastStale(s, q, i + 1) ==
      if FramingAt(s, i).Some? && FramingAt(s, i).value.seqno < q then FramingAt(s, i) else LastStale(s, q, i)
  {}

  // -------------------------------------------------------------------- scrubbing

  /** Byte `k` belongs to a well-formed framing. */
  ghost predicate Covered(s: Bytes, k: int) {
    exists i :: FramingAt(s, i).Some? && i <= k < FramingAt(s, i).value.len
  }

  /** The bytes from offset `k` on that belong to no framing. */
  ghost function Uncovered(s: Bytes, k: nat): Bytes
    decreases |s| - k
  {
    if k >= |s| then [] else (if Covered(s, k) then [] else [s[k]]) + Uncovered(s, k + 1)
  }

  lemma {:induction false} UncoveredKeep(s: Bytes, k: nat, n: nat)
    requires k <= n <= |s| && forall x :: k <= x < n ==> !Covered(s, x)
    ensures Uncovered(s, k) == s[k..n] + Uncovered(s, n)
    decreases n - k
  {
    hide Covered, Uncovered;
    if k < n {
      UncoveredKeep(s, k + 1, n);
      UncoveredCons(s, k);
      var rest := Uncovered(s, n);
      assert s[k..n] == [s[k]] + s[k + 1..n];
      assert [s[k]] + (s[k + 1..n] + rest) == ([s[k]] + s[k + 1..n]) + rest;
    } else {
      assert s[k..n] == [];
    }
  }

  lemma UncoveredCons(s: Bytes, k: nat)
    requires k < |s|
    ensures Uncovered(s, k) == (if Covered(s, k) then [] else [s[k]]) + Uncovered(s, k + 1)
  {}

  lemma {:induction false} UncoveredSkip(s: Bytes, k: nat, n: nat)
    requires k <= n <= |s| && forall x :: k <= x < n ==> Covered(s, x)
    ensures Uncovered(s, k) == Uncovered(s, n)
    decreases n - k
  {
    hide Covered;
    if k < n {
      UncoveredSkip(s, k + 1, n);
    }
  }

  /** Every framing that starts before `base` ends there at the latest. */
  ghost predicate Between(s: Bytes, base: nat) {
    forall i :: i < base && FramingAt(s, i).Some? ==> FramingAt(s, i).value.len <= base
  }

  lemma NotCovered(s: Bytes, base: nat, n: nat, x: nat)
    requires Between(s, base) && base <= x < n && forall i :: base <= i < n ==> FramingAt(s, i).None?
    ensures !Covered(s, x)
  {}

  /** What one round of the scrubbing loop keeps: text up to the next prefix at `at`, and
      the prefix itself when it does not start a framing. */
  lemma ScrubRound(s: Bytes, base: nat, at: nat)
    requires base <= at && Between(s, base) && OccursAt(s, PREFIX, at)
    requires forall i :: base <= i < at ==> FramingAt(s, i).None?
    ensures var f := FramingAt(s, at);
            var next := if f.Some? then f.value.len else at + |PREFIX|;
            next <= |s| && Between(s, next)
            && Uncovered(s, base) == s[base..(if f.Some? then at else next)] + Uncovered(s, next)
  {
    hide Uncovered, MarkerAt;
    OccursInside(s, PREFIX, at);
    var f := FramingAt(s, at);
    var next := if f.Some? then f.value.len else at + |PREFIX|;
    forall i | at < i < next ensures FramingAt(s, i).None? {
      if i < at + |PREFIX| { PrefixUnbordered(s, at, i); } else { FramingHasNoPrefix(s, at, i); }
      NoPrefixNoFraming(s, i, i);
    }
    hide FramingAt;
    BetweenNext(s, base, at, next);
    forall x | base <= x < at ensures !Covered(s, x) { NotCovered(s, base, at, x); }
    if f.Some? {
      UncoveredKeep(s, base, at);
      forall x | at <= x < next ensures Covered(s, x) {}
      UncoveredSkip(s, at, next);
    } else {
      forall x | at <= x < next ensures !Covered(s, x) { NotCovered(s, at, next, x); }
      UncoveredKeep(s, base, next);
    }
  }

  lemma ScrubLast(s: Bytes, base: nat)
    requires base <= |s| && Between(s, base) && forall p :: !OccursAt(s[base..], PREFIX, p)
    ensures Uncovered(s, base) == s[base..]
  {
    hide FramingAt;
    forall i | base <= i < |s| ensures FramingAt(s, i).None? { NoPrefixNoFraming(s, base, i); }
    forall x | base <= x < |s| ensures !Covered(s, x) { NotCovered(s, base, |s|, x); }
    UncoveredKeep(s, base, |s|);
    UncoveredEnd(s);
  }

  /** The same for the next prefix found in the rest of the text, at its offset `n`. */
  lemma ScrubNext(s: Bytes, base: nat, n: nat)
    requires base <= |s| && Between(s, base) && OccursAt(s[base..], PREFIX, n)
    requires forall q :: 0 <= q < n ==> !OccursAt(s[base..], PREFIX, q)
    ensures var rest := s[base..];
            var m := MarkerAt(rest[n + |PREFIX|..]);
            var next := base + n + |PREFIX| + (if m.Some? then m.value.len else 0);
            && next <= |s| && Between(s, next) && s[next..] == rest[next - base..]
            && Uncovered(s, base) == rest[..if m.Some? then n else n + |PREFIX|] + Uncovered(s, next)
  {
    hide FramingAt, MarkerAt, OccursAt, Uncovered, Between;
    var rest, at := s[base..], base + n;
    OccursInside(rest, PREFIX, n);
    forall i | base <= i < at ensures FramingAt(s, i).None? { NoPrefixNoFraming(s, base, i); }
    OccursInSuffix(s, PREFIX, base, n);
    ScrubRound(s, base, at);
    FramingFromParts(s, at);
    assert rest[n + |PREFIX|..] == s[at + |PREFIX|..];
    assert rest[..n] == s[base..at] && rest[..n + |PREFIX|] == s[base..at + |PREFIX|];
  }

  lemma Grouped(a: Bytes, b: Bytes, c: Bytes)
    ensures a + (b + c) == (a + b) + c
  {}

  /** `scrub_markers`: exactly the bytes outside well-formed framings are kept. */
  method ScrubMarkers(s: Bytes) returns (out: Bytes)
    ensures out == Uncovered(s, 0)
  {
    hide FramingAt, Uncovered, Between, OccursAt, MarkerAt;
    out := [];
    var rest := s;
    ghost var base: nat := 0;
    NoFramingBefore(s);
    while true
      invariant base <= |s| && rest == s[base..] && Between(s, base)
      invariant Uncovered(s, 0) == out + Uncovered(s, base)
      decreases |rest|
    {
      var start := FindFirst(rest, PREFIX);
      if start.None? {
        ScrubLast(s, base);
        break;
      }
      OccursInside(rest, PREFIX, start.value);
      ScrubNext(s, base, start.value);
      var after := rest[start.value + |PREFIX|..];
      var m := MarkerSeqLen(after);
      ghost var next: nat := base + start.value + |PREFIX| + if m.Some? then m.value.len else 0;
      if m.Some? {
        Grouped(out, rest[..start.value], Uncovered(s, next));
        out := out + rest[..start.value];
        rest := after[m.value.len..];
      } else {
        Grouped(out, rest[..start.value + |PREFIX|], Uncovered(s, next));
        out := out + rest[..start.value + |PREFIX|];
        rest := after;
      }
      base := next;
    }
    out := out + rest;
  }

  lemma NoFramingBefore(s: Bytes)
    ensures Between(s, 0)
  {}

  lemma UncoveredEnd(s: Bytes)
    ensures Uncovered(s, |s|) == []
  {}

  lemma BetweenNext(s: Bytes, base: nat, at: nat, next: nat)
    requires Between(s, base) && base <= at < next
    requires forall i :: base <= i < at || at < i < next ==> FramingAt(s, i).None?
    requires FramingAt(s, at).Some? ==> FramingAt(s, at).value.len == next
    ensures Between(s, next) && Between(s, at)
  {}

  // ---------------------------------------------------------------- interleavings

  /** A framing with the digit strings `a` and `c`. */
  function FramingText(a: Bytes, c: Bytes): Bytes { PREFIX + Body(a, c) }

  datatype Part = Part(text: Bytes, a: Bytes, c: Bytes)

  function Interleaved(parts: seq<Part>, tail: Bytes): Bytes {
    if parts == [] then tail
    else parts[0].text + FramingText(parts[0].a, parts[0].c) + Interleaved(parts[1..], tail)
  }

  function Texts(parts: seq<Part>, tail: Bytes): Bytes {
    if parts == [] then tail else parts[0].text + Texts(parts[1..], tail)
  }

  ghost predicate WellFormed(p: Part) {
    AllDigits(p.a) && AllDigits(p.c) && p.a != [] && p.c != [] && Value(p.a) < U64_END
    && forall i :: !OccursAt(p.text, PREFIX, i)
  }

  /** The prefix is unbordered, so it cannot begin in a text and end in a framing. */
  lemma NoPrefixAcross(t: Bytes, rest: Bytes, i: nat)
    requires forall k :: !OccursAt(t, PREFIX, k)
    requires PREFIX <= rest && i < |t|
    ensures !OccursAt(t + rest, PREFIX, i)
  {
    var s := t + rest;
    if 0 <= i && i + |PREFIX| <= |t| {
      OccursInPrefix(t, rest, PREFIX, i);
    } else if OccursAt(s, PREFIX, i) {
      assert forall k :: 0 <= k < |PREFIX| ==> s[|t| + k] == PREFIX[k];
      assert s[|t|..|t| + |PREFIX|] == PREFIX;
      PrefixUnbordered(s, i, |t|);
    }
  }

  lemma FramingTextAt(t: Bytes, p: Part, rest: Bytes)
    requires WellFormed(p)
    ensures FramingAt(t + FramingText(p.a, p.c) + rest, |t|)
            == Some(Marker(Value(p.a), |t| + |FramingText(p.a, p.c)|))
  {
    hide Value, AllDigits, MarkerAt;
    var s := t + FramingText(p.a, p.c) + rest;
    MarkerOfBody(p.a, p.c, rest);
    assert s[|t| + |PREFIX|..] == Body(p.a, p.c) + rest;
    assert s[|t|..|t| + |PREFIX|] == PREFIX;
  }

  /** Bytes behind a place that no framing crosses are scrubbed by themselves. */
  lemma {:induction false} UncoveredInSuffix(s: Bytes, c: nat, k: nat)
    requires c + k <= |s| && Between(s, c)
    ensures Uncovered(s, c + k) == Uncovered(s[c..], k)
    decreases |s| - k
  {
    hide *;
    if c + k < |s| {
      UncoveredInSuffix(s, c, k + 1);
      CoveredInSuffix(s, c, k);
      UncoveredCons(s, c + k);
      UncoveredCons(s[c..], k);
    } else {
      UncoveredEnd(s);
      UncoveredEnd(s[c..]);
    }
  }

  lemma CoveredInSuffix(s: Bytes, c: nat, k: nat)
    requires c + k < |s| && Between(s, c)
    ensures Covered(s, c + k) <==> Covered(s[c..], k)
  {
    forall i: nat ensures FramingAt(s[c..], i) == Moved(FramingAt(s, c + i), c) { FramingInSuffix(s, c, i); }
    if Covered(s, c + k) {
      var i :| FramingAt(s, i).Some? && i <= c + k < FramingAt(s, i).value.len;
      assert FramingAt(s[c..], i - c).Some?;
    }
    if Covered(s[c..], k) {
      var i :| FramingAt(s[c..], i).Some? && i <= k < FramingAt(s[c..], i).value.len;
      assert FramingAt(s, c + i).Some?;
    }
  }

  /** Scrubbing inverts interleaving: texts without the prefix, interleaved with
      well-formed framings, come back concatenated. */
  lemma {:induction false} ScrubInvertsInterleaving(parts: seq<Part>, tail: Bytes)
    requires forall p :: p in parts ==> WellFormed(p)
    requires forall i :: !OccursAt(tail, PREFIX, i)
    ensures Uncovered(Interleaved(parts, tail), 0) == Texts(parts, tail)
    decreases |parts|
  {
    var s := Interleaved(parts, tail);
    NoFramingBefore(s);
    if parts == [] {
      assert s[0..] == s;
      ScrubLast(s, 0);
    } else {
      hide FramingAt, Uncovered, WellFormed;
      var p, rest := parts[0], Interleaved(parts[1..], tail);
      ScrubFirstPart(p, rest);
      ScrubInvertsInterleaving(parts[1..], tail);
    }
  }

  lemma ScrubFirstPart(p: Part, rest: Bytes)
    requires WellFormed(p)
    ensures Uncovered(p.text + FramingText(p.a, p.c) + rest, 0) == p.text + Uncovered(rest, 0)
  {
    hide Uncovered, MarkerAt, Value, AllDigits, Body, Between;
    var t, f := p.text, FramingText(p.a, p.c);
    var s := t + f + rest;
    assert s == t + (f + rest) && s[|t| + |f|..] == rest && s[0..|t|] == t;
    assert (f + rest)[..|PREFIX|] == PREFIX;
    FramingTextAt(t, p, rest);
    forall i | 0 <= i < |t| ensures FramingAt(s, i).None? {
      NoPrefixAcross(t, f + rest, i);
    }
    assert OccursAt(s, PREFIX, |t|);
    hide FramingAt, FramingText, OccursAt;
    NoFramingBefore(s);
    ScrubRound(s, 0, |t|);
    UncoveredInSuffix(s, |t| + |f|, 0);
  }
}
