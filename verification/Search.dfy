/** Searching for the earliest of several patterns, and searching again from where the
    last search left off. */
module Search {
  import opened Text

  datatype Hit = Hit(pos: nat, idx: nat)

  /** `hit` is what pexpect promises: no pattern occurs earlier, and among the patterns
      that occur at `hit.pos` none has a lower index. */
  ghost predicate IsEarliest(h: Bytes, pats: seq<Bytes>, hit: Hit) {
    hit.idx < |pats|
    && OccursAt(h, pats[hit.idx], hit.pos)
    && (forall p, i :: 0 <= p < hit.pos && 0 <= i < |pats| ==> !OccursAt(h, pats[i], p))
    && (forall i :: 0 <= i < hit.idx ==> !OccursAt(h, pats[i], hit.pos))
  }

  ghost predicate NoHit(h: Bytes, pats: seq<Bytes>) {
    forall p, i :: 0 <= i < |pats| ==> !OccursAt(h, pats[i], p)
  }

  /** Reference search, position by position. */
  function Earliest(h: Bytes, pats: seq<Bytes>): Option<Hit> { EarliestFrom(h, pats, 0) }

  function EarliestFrom(h: Bytes, pats: seq<Bytes>, p: nat): Option<Hit>
    requires p <= |h| + 1
    decreases |h| + 1 - p
  {
    if p > |h| then None
    else match LowestAt(h, pats, p, 0)
      case Some(i) => Some(Hit(p, i))
      case None => EarliestFrom(h, pats, p + 1)
  }

  function LowestAt(h: Bytes, pats: seq<Bytes>, p: nat, i: nat): (r: Option<nat>)
    requires i <= |pats|
    ensures r.Some? ==> i <= r.value < |pats| && OccursAt(h, pats[r.value], p)
    ensures forall k :: i <= k < (if r.Some? then r.value else |pats|) ==> !OccursAt(h, pats[k], p)
    decreases |pats| - i
  {
    if i == |pats| then None
    else if OccursAt(h, pats[i], p) then Some(i)
    else LowestAt(h, pats, p, i + 1)
  }

  lemma {:induction false} EarliestFromIsEarliest(h: Bytes, pats: seq<Bytes>, p: nat)
    requires p <= |h| + 1
    requires forall q, i :: 0 <= q < p && 0 <= i < |pats| ==> !OccursAt(h, pats[i], q)
    ensures match EarliestFrom(h, pats, p)
            case Some(hit) => IsEarliest(h, pats, hit)
            case None => NoHit(h, pats)
    decreases |h| + 1 - p
  {
    if p <= |h| && LowestAt(h, pats, p, 0) == None {
      EarliestFromIsEarliest(h, pats, p + 1);
    }
  }

  lemma EarliestIsEarliest(h: Bytes, pats: seq<Bytes>)
    ensures match Earliest(h, pats)
            case Some(hit) => IsEarliest(h, pats, hit)
            case None => NoHit(h, pats)
  {
    EarliestFromIsEarliest(h, pats, 0);
  }

  /** The promise determines the result. */
  lemma EarliestUnique(h: Bytes, pats: seq<Bytes>, r: Option<Hit>)
    requires match r case Some(hit) => IsEarliest(h, pats, hit) case None => NoHit(h, pats)
    ensures r == Earliest(h, pats)
  {
    hide Earliest, OccursAt;
    EarliestIsEarliest(h, pats);
    var e := Earliest(h, pats);
    if r.Some? && e.Some? {
      assert !(r.value.pos < e.value.pos) && !(e.value.pos < r.value.pos);
    }
  }

  lemma EarliestAtMost(h: Bytes, pats: seq<Bytes>, i: nat, p: nat)
    requires i < |pats| && OccursAt(h, pats[i], p)
    ensures Earliest(h, pats).Some? && Earliest(h, pats).value.pos <= p
  {
    hide Earliest, OccursAt;
    EarliestIsEarliest(h, pats);
  }

  // -------------------------------------------------------------- find_earliest

  /** `windows(n).position(..)`: the first occurrence of a non-empty needle. */
  method FindFirst(h: Bytes, needle: Bytes) returns (r: Option<nat>)
    requires needle != []
    ensures match r
            case Some(p) => OccursAt(h, needle, p) && forall q :: 0 <= q < p ==> !OccursAt(h, needle, q)
            case None => forall q :: !OccursAt(h, needle, q)
  {
    if |needle| > |h| {
      return None;
    }
    var p := 0;
    while p + |needle| <= |h|
      invariant 0 <= p
      invariant forall q :: 0 <= q < p ==> !OccursAt(h, needle, q)
    {
      if h[p..p + |needle|] == needle {
        return Some(p);
      }
      p := p + 1;
    }
    return None;
  }

  ghost predicate BestOf(h: Bytes, pats: seq<Bytes>, n: nat, best: Option<Hit>)
    requires n <= |pats|
  {
    match best
    case Some(hit) => hit.idx < n && IsEarliest(h, pats[..n], hit)
    case None => NoHit(h, pats[..n])
  }

  /** `find_earliest`: pattern by pattern, keeping the best hit so far. */
  method FindEarliest(haystack: Bytes, patterns: seq<Bytes>) returns (best: Option<Hit>)
    ensures best == Earliest(haystack, patterns)
  {
    best := None;
    for i := 0 to |patterns|
      invariant BestOf(haystack, patterns, i, best)
    {
      var pat := patterns[i];
      var pos: Option<nat>;
      if pat == [] {
        pos := Some(0);
      } else {
        pos := FindFirst(haystack, pat);
      }
      ghost var old_best := best;
      if pos.Some? {
        var replace := match best
          case None => true
          case Some(b) => pos.value < b.pos || (pos.value == b.pos && i < b.idx);
        if replace {
          best := Some(Hit(pos.value, i));
        }
      }
      BetterOf(haystack, patterns, i, old_best, pos);
    }
    assert patterns[..|patterns|] == patterns;
    EarliestUnique(haystack, patterns, best);
  }

  /** One more pattern. */
  lemma BetterOf(h: Bytes, pats: seq<Bytes>, i: nat, best: Option<Hit>, pos: Option<nat>)
    requires i < |pats| && BestOf(h, pats, i, best)
    requires match pos
             case Some(p) => OccursAt(h, pats[i], p) && forall q :: 0 <= q < p ==> !OccursAt(h, pats[i], q)
             case None => forall q :: !OccursAt(h, pats[i], q)
    ensures BestOf(h, pats, i + 1,
                   if pos.Some? && (best.None? || pos.value < best.value.pos) then Some(Hit(pos.value, i)) else best)
  {}

  // --------------------------------------------------------- incremental search

  function MaxPat(pats: seq<Bytes>): (m: nat)
    ensures m >= 1
    ensures forall i :: 0 <= i < |pats| ==> |pats[i]| <= m
  {
    if pats == [] then 1 else Max(|pats[|pats| - 1]|, MaxPat(pats[..|pats| - 1]))
  }

  /** Where the next search starts after a search of `len` bytes found nothing. */
  function NextFrom(len: nat, consumed: nat, pats: seq<Bytes>): nat {
    Max(Max(len - (MaxPat(pats) - 1), 0), consumed)
  }

  function Shift(r: Option<Hit>, n: nat): Option<Hit> {
    match r case Some(hit) => Some(Hit(hit.pos + n, hit.idx)) case None => None
  }

  /** Skipping positions where nothing occurs does not change what is found. */
  lemma SkipNothing(h: Bytes, pats: seq<Bytes>, f: nat)
    requires f <= |h|
    requires forall p, i :: 0 <= p < f && 0 <= i < |pats| ==> !OccursAt(h, pats[i], p)
    ensures Shift(Earliest(h[f..], pats), f) == Earliest(h, pats)
  {
    EarliestIsEarliest(h[f..], pats);
    forall p: nat, i | 0 <= i < |pats| ensures OccursAt(h[f..], pats[i], p) <==> OccursAt(h, pats[i], f + p) {
      OccursInSuffix(h, pats[i], f, p);
    }
    hide OccursAt, Earliest;
    var r := Shift(Earliest(h[f..], pats), f);
    if r.Some? {
      forall p, i | 0 <= p < r.value.pos && 0 <= i < |pats| ensures !OccursAt(h, pats[i], p) {
        if p >= f { assert OccursAt(h, pats[i], f + (p - f)) <==> OccursAt(h[f..], pats[i], p - f); }
      }
      assert IsEarliest(h, pats, r.value);
    } else {
      forall p, i | 0 <= i < |pats| ensures !OccursAt(h, pats[i], p) {
        if p >= f {
          assert OccursAt(h, pats[i], f + (p - f)) <==> OccursAt(h[f..], pats[i], p - f);
        } else if p < 0 {
          OccursNegative(h, pats[i], p);
        }
      }
    }
    EarliestUnique(h, pats, r);
  }

  lemma OccursNegative(h: Bytes, pat: Bytes, p: int)
    ensures p < 0 ==> !OccursAt(h, pat, p)
  {}

  /** After a search found nothing, and whatever is appended, nothing starts before the
      place where the next search starts. */
  lemma NothingBehind(buf: Bytes, t: Bytes, c: nat, pats: seq<Bytes>, p: nat, i: nat)
    requires c <= |buf| && NoHit(buf[c..], pats)
    requires c <= p < NextFrom(|buf|, c, pats) && i < |pats|
    ensures !OccursAt(buf + t, pats[i], p)
  {
    OccursInPrefix(buf, t, pats[i], p);
    OccursInSuffix(buf, pats[i], c, p - c);
    assert !OccursAt(buf[c..], pats[i], p - c);
  }

  // ------------------------------------- a search that resumes at a stale offset

  /** What a search of `text` finds from `f` on. */
  function SearchFrom(text: Bytes, f: nat, pats: seq<Bytes>): Option<Hit>
    requires f <= |text|
  {
    Shift(Earliest(text[f..], pats), f)
  }

  /** A search that resumes at the remembered offset `f`, the cursor being at `c`. */
  function Resumed(text: Bytes, c: nat, f: nat, pats: seq<Bytes>): Option<Hit> {
    SearchFrom(text, Min(Max(f, c), |text|), pats)
  }

  /** A search of `buf` from `c` on found nothing; then the first `d` bytes were drained
      and the cursor came to where `e` was. The remembered offset now points `d` bytes
      further into the text. Nothing can be missed if no pattern can still grow out of the
      bytes skipped. */
  ghost predicate StaleSafe(buf: Bytes, c: nat, d: nat, e: nat, pats: seq<Bytes>) {
    forall p, i :: e <= p < NextFrom(|buf|, c, pats) + d && 0 <= i < |pats|
      ==> !CanGrow(buf, p, pats[i])
  }

  /** An occurrence of `pat` at `p` may still arrive, or be completed. */
  predicate CanGrow(buf: Bytes, p: nat, pat: Bytes) {
    p >= |buf| || buf[p..] <= pat
  }

  lemma GrowsOut(buf: Bytes, t: Bytes, pat: Bytes, p: nat)
    requires p < |buf| < p + |pat|
    ensures OccursAt(buf + t, pat, p) ==> buf[p..] <= pat
  {
    if OccursAt(buf + t, pat, p) {
      assert (buf + t)[p..p + |pat|][..|buf| - p] == buf[p..];
    }
  }

  /** In the bytes skipped no pattern occurs. */
  lemma SkippedIsEmpty(buf: Bytes, c: nat, d: nat, e: nat, pats: seq<Bytes>, t: Bytes, q: nat, i: nat)
    requires c <= |buf| && NoHit(buf[c..], pats) && c <= e && d <= e <= |buf| + |t|
    requires StaleSafe(buf, c, d, e, pats) && e <= d + q < NextFrom(|buf|, c, pats) + d && i < |pats|
    ensures !OccursAt((buf + t)[d..], pats[i], q)
  {
    var p := d + q;
    assert !CanGrow(buf, p, pats[i]);
    OccursInSuffix(buf + t, pats[i], d, q);
    if p + |pats[i]| <= |buf| {
      OccursInPrefix(buf, t, pats[i], p);
      OccursInSuffix(buf, pats[i], c, p - c);
      assert !OccursAt(buf[c..], pats[i], p - c);
    } else {
      GrowsOut(buf, t, pats[i], p);
    }
  }

  lemma StaleSafeSuffices(buf: Bytes, c: nat, d: nat, e: nat, pats: seq<Bytes>, t: Bytes)
    requires c <= |buf| && NoHit(buf[c..], pats) && c <= e && d <= e <= |buf| + |t|
    requires StaleSafe(buf, c, d, e, pats)
    ensures var text := (buf + t)[d..];
            Resumed(text, e - d, NextFrom(|buf|, c, pats), pats) == SearchFrom(text, e - d, pats)
  {
    hide Earliest, OccursAt, StaleSafe, NextFrom;
    var text, f := (buf + t)[d..], NextFrom(|buf|, c, pats);
    var g := Min(Max(f, e - d), |text|);
    var unread, n := text[e - d..], g - (e - d);
    forall q, i | 0 <= q < n && 0 <= i < |pats| ensures !OccursAt(unread, pats[i], q) {
      SkippedIsEmpty(buf, c, d, e, pats, t, e - d + q, i);
      OccursInSuffix(text, pats[i], e - d, q);
    }
    SkipNothing(unread, pats, n);
    assert unread[n..] == text[g..];
  }

  /** Text that arrives next and makes the resumed search miss a match. */
  lemma StaleMiss(buf: Bytes, c: nat, d: nat, e: nat, pats: seq<Bytes>, p: nat, i: nat) returns (t: Bytes)
    requires c <= |buf| && NoHit(buf[c..], pats) && c <= e && d <= e && i < |pats|
    requires e <= p < NextFrom(|buf|, c, pats) + d
    requires CanGrow(buf, p, pats[i])
    ensures e <= |buf| + |t|
    ensures var text := (buf + t)[d..];
            Resumed(text, e - d, NextFrom(|buf|, c, pats), pats) != SearchFrom(text, e - d, pats)
  {
    hide Earliest, NextFrom;
    var pat := pats[i];
    assert !OccursAt(buf[c..], pat, 0);
    t := if p < |buf| then pat[|buf| - p..] else seq(p - |buf|, _ => 0) + pat;
    var text := (buf + t)[d..];
    assert (buf + t)[p..] == pat;
    assert text[e - d..][p - e..p - e + |pat|] == pat;
    EarliestAtMost(text[e - d..], pats, i, p - e);
  }

  /** Exactly when a drain during a wait is harmless: the search that resumes at the
      remembered offset agrees with a search of all unread text, for every continuation
      of the text, if and only if nothing in the skipped bytes can still become a match. */
  lemma StaleSearch(buf: Bytes, c: nat, d: nat, e: nat, pats: seq<Bytes>)
    requires c <= |buf| && NoHit(buf[c..], pats) && c <= e && d <= e
    ensures StaleSafe(buf, c, d, e, pats) <==>
            forall t: Bytes :: e <= |buf| + |t| ==>
              var text := (buf + t)[d..];
              Resumed(text, e - d, NextFrom(|buf|, c, pats), pats) == SearchFrom(text, e - d, pats)
  {
    hide NextFrom, Resumed, SearchFrom;
    if StaleSafe(buf, c, d, e, pats) {
      forall t: Bytes | e <= |buf| + |t|
        ensures var text := (buf + t)[d..];
                Resumed(text, e - d, NextFrom(|buf|, c, pats), pats) == SearchFrom(text, e - d, pats)
      {
        StaleSafeSuffices(buf, c, d, e, pats, t);
      }
    } else {
      var p, i :| e <= p < NextFrom(|buf|, c, pats) + d && 0 <= i < |pats| && CanGrow(buf, p, pats[i]);
      var t := StaleMiss(buf, c, d, e, pats, p, i);
    }
  }
}
