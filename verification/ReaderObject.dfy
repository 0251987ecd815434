/** The buffer object itself: fields updated in place by the reader thread and by the
    expect calls, each method against the function that specifies it. */
module ReaderObject {
  import opened Text
  import opened Utf8
  import opened Decoders
  import opened Search
  import opened Reader
  import opened Expect

  /** The cut of `gc` and of `truncate_with_note`: step to the next character. */
  method BoundaryFrom(s: Bytes, start: nat) returns (cut: nat)
    requires start <= |s|
    ensures cut == NextBoundary(s, start)
  {
    cut := start;
    while cut < |s| && !IsBoundary(s, cut)
      invariant start <= cut <= |s| && NextBoundary(s, cut) == NextBoundary(s, start)
      decreases |s| - cut
    {
      cut := cut + 1;
    }
  }

  /** The longest pattern, at least 1. */
  method LongestPattern(patterns: seq<Bytes>) returns (m: nat)
    ensures m == MaxPat(patterns)
  {
    m := 1;
    for i := 0 to |patterns|
      invariant m == MaxPat(patterns[..i])
    {
      assert patterns[..i + 1][..i] == patterns[..i];
      m := Max(|patterns[i]|, m);
    }
    assert patterns[..|patterns|] == patterns;
  }

  lemma PeekTextIs(h: Log, skip: nat)
    requires Bounded(h.r)
    ensures var from := Min(h.r.consumed + skip, |h.r.buf|);
            PeekText(h, skip) == if IsBoundary(h.r.buf, from) then Some(h.r.buf[from..]) else None
  {
    var from := Min(h.r.consumed + skip, |h.r.buf|);
    assert Decoded(h)[|h.gone| + from..] == h.r.buf[from..];
  }

  lemma AppendIs(hard: nat, h: Log, chunk: Bytes)
    requires Bounded(h.r)
    ensures var full := Filled(h.r, chunk);
            var kept := Gc(full, hard);
            Apply(hard, h, Event.Append(chunk)) ==
              if h.r.closed || h.r.eof then h
              else Log(kept, h.accepted + chunk, h.gone + Lost(full.buf, kept.buf), h.taken)
  {}

  lemma SizesOfAppend(hard: nat, h: Log, chunk: Bytes)
    requires Sound(hard, h) && !h.r.closed && !h.r.eof
    ensures Bounded(h.r)
    ensures Apply(hard, h, Event.Append(chunk)).r.dropped > h.r.dropped <==> UnreadWith(h, chunk) > hard
  {
    hide TextSound, Apply, NewText, WellCut;
    AppendSizes(hard, h, chunk);
    SoundIsBounded(hard, h);
  }

  class ReaderShared {
    var buf: Bytes
    var consumed: nat
    var pending: Bytes
    var eof: bool
    var closed: bool
    var droppedTotal: nat
    const hardCap: nat

    /** A thread panicked while it held the lock; every later `lock().unwrap()` panics. */
    var poisoned: bool

    // History, for specifications only.
    ghost var accepted: Bytes
    ghost var gone: Bytes
    ghost var taken: nat

    ghost function View(): Log
      reads this
    {
      Log(Fields(), accepted, gone, taken)
    }

    ghost function Fields(): State
      reads this
    {
      State(buf, consumed, pending, eof, closed, droppedTotal)
    }

    /** Holds between any two critical sections, as long as the lock can be taken. */
    ghost predicate Valid()
      reads this
    {
      !poisoned && Sound(hardCap, View())
    }

    constructor (outputCap: nat)
      ensures Valid() && View() == START && hardCap == HardCap(outputCap)
      ensures forall n :: n <= hardCap <==> Fits(outputCap, n)
    {
      hide Sound, HardCap;
      buf, consumed, pending, eof, closed, droppedTotal := [], 0, [], false, false, 0;
      hardCap, poisoned := HardCap(outputCap), false;
      accepted, gone, taken := [], [], 0;
      new;
      StartSound(hardCap);
    }

    method DrainConsumed()
      requires consumed <= |buf|
      modifies `buf, `consumed
      ensures Fields() == Drain(old(Fields()), old(consumed))
    {
      buf, consumed := buf[consumed..], 0;
    }

    /** `gc`: drop consumed text, and the front of unread text over the cap. */
    method CollectGarbage()
      requires consumed <= |buf|
      modifies `buf, `consumed, `droppedTotal
      ensures Fields() == Gc(old(Fields()), hardCap)
    {
      hide NextBoundary, IsBoundary;
      if consumed >= GC_CONSUMED {
        DrainConsumed();
      }
      if |buf| <= hardCap {
        return;
      }
      if consumed > 0 {
        DrainConsumed();
      }
      if |buf| <= hardCap {
        return;
      }
      ghost var unread := Fields();
      assert unread == DropRead(old(Fields()), hardCap);
      var cut := BoundaryFrom(buf, |buf| - hardCap / 2);
      droppedTotal := droppedTotal + Max(cut - consumed, 0);
      buf, consumed := buf[cut..], 0;
      assert Fields() == DropFront(unread, hardCap);
      hide DropRead, DropFront;
    }

    /** `append` up to its call of `gc`: all but the bytes of a split character is decoded. */
    method Fill(chunk: Bytes)
      modifies `buf, `pending
      ensures Fields() == Filled(old(Fields()), chunk)
    {
      hide Lossy, TailLen;
      var bytes := pending + chunk;
      var tail := IncompleteTailLen(bytes);
      var split := |bytes| - tail;
      pending := bytes[split..];
      var text := DecodeChunks(bytes[..split]);
      buf := buf + text;
    }

    method Append(chunk: Bytes)
      requires Valid()
      modifies this
      ensures Valid() && View() == Apply(hardCap, old(View()), Event.Append(chunk))
      ensures !old(closed) && !old(eof) ==> (droppedTotal > old(droppedTotal) <==> old(UnreadWith(View(), chunk)) > hardCap)
    {
      hide Sound, Gc, UnreadWith, Filled, Apply, Lost;
      ApplySound(hardCap, View(), Event.Append(chunk));
      SoundIsBounded(hardCap, View());
      AppendIs(hardCap, View(), chunk);
      if closed || eof {
        return;
      }
      SizesOfAppend(hardCap, View(), chunk);
      Fill(chunk);
      ghost var full := buf;
      CollectGarbage();
      accepted := accepted + chunk;
      gone := gone + Lost(full, buf);
    }

    method MarkEof()
      requires Valid()
      modifies this
      ensures Valid() && View() == Apply(hardCap, old(View()), Event.MarkEof)
    {
      hide Sound, Lossy, TailLen, Gc, IsUtf8, IsBoundary;
      ApplySound(hardCap, View(), Event.MarkEof);
      SoundIsBounded(hardCap, View());
      if !eof {
        var rest := pending;
        pending := [];
        var text := DecodeChunks(rest);
        buf := buf + text;
        eof := true;
      }
    }

    method NotifyClose()
      requires Valid()
      modifies this
      ensures Valid() && View() == Apply(hardCap, old(View()), Event.NotifyClose)
    {
      hide Sound, Lossy, TailLen, Gc, IsUtf8, IsBoundary;
      ApplySound(hardCap, View(), Event.NotifyClose);
      SoundIsBounded(hardCap, View());
      closed := true;
    }

    /** Offsets passed on by a match advance `consumed`; the test never fails for them. */
    method TakeThrough(n: nat)
      requires Valid()
      modifies this
      ensures Valid() && View() == Apply(hardCap, old(View()), Take(n))
    {
      hide Sound, Lossy, TailLen, Gc, IsUtf8, IsBoundary;
      ApplySound(hardCap, View(), Take(n));
      SoundIsBounded(hardCap, View());
      if consumed <= n <= |buf| && IsBoundary(buf, n) {
        taken := taken + n - consumed;
        consumed := n;
      }
    }

    method DiscardThroughEnd()
      requires Valid()
      modifies this
      ensures Valid() && View() == Apply(hardCap, old(View()), Discard)
    {
      hide Sound, Lossy, TailLen, Gc, IsUtf8, IsBoundary;
      ApplySound(hardCap, View(), Discard);
      SoundIsBounded(hardCap, View());
      taken := taken + |buf| - consumed;
      consumed := |buf|;
    }

    /** The text `skip` bytes behind the cursor, wherever the cursor is now. Off a
        character boundary the slice panics, which poisons the lock. */
    method PeekFrom(skip: nat) returns (text: Option<Bytes>)
      requires Valid()
      modifies `poisoned
      ensures View() == old(View())
      ensures text == PeekText(View(), skip)
      ensures text.Some? ==> Valid()
      ensures text.None? ==> poisoned
    {
      hide Sound, PeekText, IsBoundary;
      SoundIsBounded(hardCap, View());
      PeekTextIs(View(), skip);
      var from := Min(consumed + skip, |buf|);
      if !IsBoundary(buf, from) {
        poisoned := true;
        return None;
      }
      return Some(buf[from..]);
    }

    /** What other threads do while a wait has released the lock. */
    method Others(es: seq<Event>)
      requires Valid()
      modifies this
      ensures Valid() && View() == Run(hardCap, old(View()), es)
    {
      hide Sound, Apply;
      SoundIsBounded(hardCap, View());
      var i := 0;
      while i < |es|
        invariant 0 <= i <= |es| && Valid() && consumed <= |buf|
        invariant Run(hardCap, old(View()), es) == Run(hardCap, View(), es[i..])
      {
        var e := es[i];
        assert es[i..][0] == e && es[i..][1..] == es[i + 1..];
        match e {
          case Append(chunk) => Append(chunk);
          case MarkEof => MarkEof();
          case NotifyClose => NotifyClose();
          case Take(n) => TakeThrough(n);
          case Discard => DiscardThroughEnd();
        }
        SoundIsBounded(hardCap, View());
        i := i + 1;
      }
      assert es[i..] == [];
    }

    /** `expect_blocking` over a schedule of waits. */
    method ExpectBlocking(patterns: seq<Bytes>, consume: bool, wakes: seq<Wake>) returns (o: Outcome)
      requires Valid() && Patterns(None, patterns)
      modifies this
      ensures Valid()
      ensures (View(), o) == ExpectRun(hardCap, old(View()), None, patterns, consume, wakes)
      ensures Reports(View(), patterns, consume, o) && Continues(old(View()), View())
      ensures SafeWaits(hardCap, old(View()), patterns, wakes) ==> FindsEarliest(View(), patterns, consume, o)
    {
      hide Sound, IsUtf8, IsBoundary, Run, Earliest, FindsEarliest, Continues, Reports, SafeWaits, MaxPat;
      ghost var start := View();
      SoundIsBounded(hardCap, start);
      ExpectReports(hardCap, start, None, patterns, consume, wakes);
      if SafeWaits(hardCap, start, patterns, wakes) {
        ExpectFindsEarliest(hardCap, start, patterns, consume, wakes);
      }
      var maxPat := LongestPattern(patterns);
      var searchFrom: Option<nat> := None;
      var i := 0;
      while true
        invariant 0 <= i <= |wakes| && Valid() && consumed <= |buf|
        invariant Patterns(searchFrom, patterns)
        invariant ExpectRun(hardCap, start, None, patterns, consume, wakes)
               == ExpectRun(hardCap, View(), searchFrom, patterns, consume, wakes[i..])
        decreases |wakes| - i
      {
        if closed {
          return Closed;
        }
        var hit := Search(searchFrom, patterns);
        if hit.Some? {
          o := Yield(hit.value, patterns, consume);
          return;
        }
        if eof {
          return Eof;
        }
        NoEmptyPattern(Fields(), searchFrom, patterns);
        searchFrom := Some(Max(Max(|buf| - (maxPat - 1), 0), consumed));
        if i == |wakes| {
          return Waiting;
        }
        assert wakes[i..][0] == wakes[i] && wakes[i..][1..] == wakes[i + 1..];
        if wakes[i].DeadlinePassed? {
          return Timeout;
        }
        Others(wakes[i].es);
        SoundIsBounded(hardCap, View());
        i := i + 1;
      }
    }

    /** Text up to `pos` may be handed out and text up to `end` consumed. */
    predicate Advances(pos: nat, end: nat)
      reads this
    {
      consumed <= pos <= end <= |buf| && IsBoundary(buf, end)
    }

    /** The search of one round. */
    method Search(searchFrom: Option<nat>, patterns: seq<Bytes>) returns (hit: Option<Hit>)
      requires Valid() && consumed <= |buf| && Patterns(searchFrom, patterns)
      ensures hit == Scan(Fields(), searchFrom, patterns)
      ensures hit.Some? ==> hit.value.idx < |patterns| && Advances(hit.value.pos, hit.value.pos + |patterns[hit.value.idx]|)
    {
      hide Earliest, IsUtf8, IsBoundary, Lossy, TailLen;
      var from := Min(Max(match searchFrom case Some(f) => f case None => consumed, consumed), |buf|);
      hit := FindEarliest(buf[from..], patterns);
      hit := match hit case Some(h) => Some(Hit(from + h.pos, h.idx)) case None => None;
      if hit.Some? {
        MatchIsLegal(Fields(), searchFrom, patterns);
      }
    }

    /** Hand out a match; a consuming call advances past it. */
    method Yield(hit: Hit, patterns: seq<Bytes>, consume: bool) returns (o: Outcome)
      requires Valid() && consumed <= |buf| && hit.idx < |patterns|
      requires Advances(hit.pos, hit.pos + |patterns[hit.idx]|)
      modifies this
      ensures Valid() && (View(), o) == Matched(hardCap, old(View()), patterns, consume, hit)
    {
      hide Sound, IsUtf8, IsBoundary;
      var before := buf[consumed..hit.pos];
      if consume {
        ApplySound(hardCap, View(), Take(hit.pos + |patterns[hit.idx]|));
        taken := taken + hit.pos + |patterns[hit.idx]| - consumed;
        consumed := hit.pos + |patterns[hit.idx]|;
      }
      o := Match(hit.idx, patterns[hit.idx], before);
    }
  }
}
