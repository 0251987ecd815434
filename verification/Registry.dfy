/** The registry of named sessions under concurrency: many clients, each in the middle of
    a create, close, close_all or lookup, interleaved at the lock's critical sections. */
module Registry {

  type Name = string

  /** A started session; `name` is the name it was started under. */
  datatype Handle = Handle(id: nat, name: Name)

  datatype Op =
    | Create(name: Name, isBash: bool)
    | Lookup(name: Name)
    | CloseOne(name: Name)
    | CloseAll

  datatype Answer =
    | Created | Exists | BadType | StartFailed
    | Found(handle: Handle) | NotFound | Closed(handles: set<Handle>)

  // ------------------------------------------------------ the map, one call at a time

  type Names = map<Name, Handle>

  /** The sequential map of names that the registry is meant to be: what a call that
      starts session `h` answers, and the names afterwards. */
  function Apply(m: Names, op: Op, h: Handle, startOk: bool): (Names, Answer) {
    match op
    case Create(name, isBash) =>
      if !isBash then (m, BadType)
      else if name in m then (m, Exists)
      else if !startOk then (m, StartFailed)
      else (m[name := h], Created)
    case Lookup(name) => if name in m then (m, Found(m[name])) else (m, NotFound)
    case CloseOne(name) => if name in m then (m - {name}, Closed({m[name]})) else (m, NotFound)
    case CloseAll => (map[], Closed(m.Values))
  }

  // ------------------------------------------------------------- critical sections

  /** The `sessions` map behind the read-write lock; each method is one critical section. */
  class SessionManager {
    var sessions: Names

    constructor ()
      ensures sessions == map[]
    {
      sessions := map[];
    }

    method Contains(name: Name) returns (found: bool)
      ensures found <==> name in sessions
    {
      found := name in sessions;
    }

    /** `get`. */
    method Get(name: Name) returns (a: Answer)
      ensures forall h :: (sessions, a) == Apply(sessions, Lookup(name), h, true)
      ensures forall h :: a == Found(h) <==> name in sessions && sessions[name] == h
      ensures a == NotFound <==> name !in sessions
    {
      if name in sessions { a := Found(sessions[name]); } else { a := NotFound; }
    }

    /** `create_session` of a client that is alone: `h` is the session it starts, which may
        fail to start. */
    method CreateSession(h: Handle, isBash: bool, startOk: bool) returns (a: Answer)
      modifies this
      ensures (sessions, a) == Apply(old(sessions), Create(h.name, isBash), h, startOk)
    {
      if !isBash {
        return BadType;
      }
      var found := Contains(h.name);
      if found {
        return Exists;
      }
      if !startOk {
        return StartFailed;
      }
      a := InsertIfAbsent(h);
    }

    /** The second check of `create_session` with its insert, under the write lock. */
    method InsertIfAbsent(h: Handle) returns (a: Answer)
      modifies this
      ensures (sessions, a) == Apply(old(sessions), Create(h.name, true), h, true)
    {
      if h.name in sessions {
        a := Exists;
      } else {
        sessions := sessions[h.name := h];
        a := Created;
      }
    }

    /** The removal of `close_session`. */
    method Remove(name: Name) returns (a: Answer)
      modifies this
      ensures forall h :: (sessions, a) == Apply(old(sessions), CloseOne(name), h, true)
    {
      if name in sessions {
        a := Closed({sessions[name]});
        sessions := sessions - {name};
      } else {
        a := NotFound;
      }
    }

    /** The drain of `close_all`. */
    method DrainAll() returns (a: Answer)
      modifies this
      ensures forall h :: (sessions, a) == Apply(old(sessions), CloseAll, h, true)
    {
      a := Closed(sessions.Values);
      sessions := map[];
    }
  }

  // ------------------------------------------------------------- the state machine

  type Client = nat

  /** Program counter of a client. `since` is how many calls had taken effect when the
      call began; `at` is the place of its own effect in that order (for a create that is
      still starting its session: how many had when it found the name unused). */
  datatype Pc =
    | Ready
    | Begun(op: Op, since: nat)
    | Starting(name: Name, since: nat, at: nat)
    | Holding(h: Handle, since: nat)
    | Losing(h: Handle, since: nat, at: nat)
    | ClosingSome(hs: set<Handle>, all: set<Handle>, op: Op, since: nat, at: nat)

  /** One call that took effect: who, what, on which started session, with which answer. */
  datatype Entry = Entry(client: Client, op: Op, h: Handle, startOk: bool, answer: Answer)

  /** A call that returned. */
  datatype Return = Return(client: Client, op: Op, answer: Answer, since: nat, at: nat, until: nat)

  datatype State = State(
    names: Names, pcs: map<Client, Pc>, nextId: nat, closed: set<Handle>, started: set<Handle>,
    order: seq<Entry>, returned: seq<Return>)

  datatype Action =
    | Invoke(c: Client, op: Op)
    | Work(c: Client, startOk: bool)      // the next step of c's call
    | CloseHeld(c: Client, h: Handle)     // close one of the sessions c took out

  const INIT := State(map[], map[], 0, {}, {}, [], [])

  function PcOf(s: State, c: Client): Pc { if c in s.pcs then s.pcs[c] else Ready }

  const NOBODY := Handle(0, "")

  /** The call of `c` takes effect now. */
  function Effect(s: State, c: Client, op: Op, h: Handle, startOk: bool): State {
    var (names, answer) := Apply(s.names, op, h, startOk);
    s.(names := names, order := s.order + [Entry(c, op, h, startOk, answer)])
  }

  function Answered(s: State): Answer
    requires s.order != []
  {
    s.order[|s.order| - 1].answer
  }

  /** The call of `c` returns. */
  function Finish(s: State, c: Client, op: Op, answer: Answer, since: nat, at: nat): State {
    s.(pcs := s.pcs[c := Ready], returned := s.returned + [Return(c, op, answer, since, at, |s.order|)])
  }

  /** A call whose whole work is one critical section. */
  function EffectAndFinish(s: State, c: Client, op: Op, since: nat): State {
    var t := Effect(s, c, op, NOBODY, true);
    Finish(t, c, op, Answered(t), since, |s.order|)
  }

  function Step(s: State, c: Client, startOk: bool): State {
    match PcOf(s, c)
    case Ready => s
    case Begun(op, since) => (
      match op
      case Create(name, isBash) =>
        // The type test and the first check, under the read lock.
        if !isBash || name in s.names then EffectAndFinish(s, c, op, since)
        else s.(pcs := s.pcs[c := Starting(name, since, |s.order|)])
      case Lookup(_) => EffectAndFinish(s, c, op, since)
      case CloseOne(name) =>
        if name !in s.names then EffectAndFinish(s, c, op, since)
        else
          var t := Effect(s, c, op, NOBODY, true);
          t.(pcs := t.pcs[c := ClosingSome({s.names[name]}, {s.names[name]}, op, since, |s.order|)])
      case CloseAll =>
        var t := Effect(s, c, op, NOBODY, true);
        t.(pcs := t.pcs[c := ClosingSome(s.names.Values, s.names.Values, op, since, |s.order|)]))
    case Starting(name, since, at) =>
      // The slow start, without the lock; a session that fails to start closes itself.
      if startOk then
        var h := Handle(s.nextId, name);
        s.(nextId := s.nextId + 1, started := s.started + {h}, pcs := s.pcs[c := Holding(h, since)])
      else
        Finish(s, c, Create(name, true), StartFailed, since, at)
    case Holding(h, since) =>
      // The second check and the insert, under the write lock.
      var t := Effect(s, c, Create(h.name, true), h, true);
      if h.name in s.names then t.(pcs := t.pcs[c := Losing(h, since, |s.order|)])
      else Finish(t, c, Create(h.name, true), Created, since, |s.order|)
    case Losing(h, since, at) =>
      Finish(s.(closed := s.closed + {h}), c, Create(h.name, true), Exists, since, at)
    case ClosingSome(hs, all, op, since, at) =>
      if hs == {} then Finish(s, c, op, Closed(all), since, at) else s
  }

  function Next(s: State, a: Action): State {
    match a
    case Invoke(c, op) =>
      if PcOf(s, c) == Ready then s.(pcs := s.pcs[c := Begun(op, |s.order|)]) else s
    case Work(c, startOk) => Step(s, c, startOk)
    case CloseHeld(c, h) =>
      var pc := PcOf(s, c);
      if pc.ClosingSome? && h in pc.hs
      then s.(closed := s.closed + {h}, pcs := s.pcs[c := pc.(hs := pc.hs - {h})])
      else s
  }

  function Run(s: State, acts: seq<Action>): State
    decreases |acts|
  {
    if acts == [] then s else Run(Next(s, acts[0]), acts[1..])
  }

  // ---------------------------------------------------------------- who has a session

  /** The sessions a client has taken charge of. */
  function Held(pc: Pc): set<Handle> {
    match pc
    case Holding(h, _) => {h}
    case Losing(h, _, _) => {h}
    case ClosingSome(hs, _, _, _, _) => hs
    case _ => {}
  }

  ghost predicate Registered(s: State, h: Handle) {
    h.name in s.names && s.names[h.name] == h
  }

  ghost predicate HeldBy(s: State, c: Client, h: Handle) { h in Held(PcOf(s, c)) }

  /** A started session is closed, registered under its own name, or in the hands of
      exactly one call in flight; never two of these. */
  ghost predicate Accounted(s: State, h: Handle) {
    && (h in s.closed || Registered(s, h) || exists c :: HeldBy(s, c, h))
    && (h in s.closed ==> !Registered(s, h) && forall c :: !HeldBy(s, c, h))
    && (Registered(s, h) ==> forall c :: !HeldBy(s, c, h))
    && (forall c, d :: HeldBy(s, c, h) && HeldBy(s, d, h) ==> c == d)
  }

  ghost predicate NoLeak(s: State) {
    && (forall h :: h in s.started ==> h.id < s.nextId)
    && (forall h :: h in s.started ==> Accounted(s, h))
    && (forall n :: n in s.names ==> s.names[n].name == n && s.names[n] in s.started)
    && (forall c, h :: HeldBy(s, c, h) ==> h in s.started)
    && s.closed <= s.started
  }

  lemma HeldAfter(s: State, t: State, c: Client, pc: Pc)
    requires t.pcs == s.pcs[c := pc]
    ensures forall d, h :: HeldBy(t, d, h) <==> (if d == c then h in Held(pc) else HeldBy(s, d, h))
  {}

  /** A step that leaves every session where it is. */
  lemma SameHolders(s: State, t: State, c: Client, pc: Pc)
    requires NoLeak(s) && t.pcs == s.pcs[c := pc] && Held(pc) == Held(PcOf(s, c))
    requires t.names == s.names && t.closed == s.closed && t.started == s.started && t.nextId == s.nextId
    ensures NoLeak(t)
  {
    hide Held;
    HeldAfter(s, t, c, pc);
    forall d, h ensures HeldBy(t, d, h) <==> HeldBy(s, d, h) {}
    forall h | h in t.started ensures Accounted(t, h) {
      assert Accounted(s, h);
      MovedNothing(s, t, h);
    }
  }

  lemma MovedNothing(s: State, t: State, h: Handle)
    requires Accounted(s, h) && t.names == s.names && t.closed == s.closed
    requires forall d :: HeldBy(t, d, h) <==> HeldBy(s, d, h)
    ensures Accounted(t, h)
  {
    hide HeldBy;
  }

  /** A new session in the hands of the call that started it. */
  lemma StartKeeps(s: State, c: Client, name: Name, since: nat)
    requires NoLeak(s) && Held(PcOf(s, c)) == {}
    ensures var h := Handle(s.nextId, name);
            NoLeak(s.(nextId := s.nextId + 1, started := s.started + {h}, pcs := s.pcs[c := Holding(h, since)]))
  {
    var h := Handle(s.nextId, name);
    var t := s.(nextId := s.nextId + 1, started := s.started + {h}, pcs := s.pcs[c := Holding(h, since)]);
    HeldAfter(s, t, c, Holding(h, since));
    assert HeldBy(t, c, h);
    forall g | g in t.started ensures Accounted(t, g) {
      if g != h {
        assert Accounted(s, g);
        MovedNothing(s, t, g);
      }
    }
  }

  /** Sessions that go from the map into the hands of `c`. */
  lemma TakeOutKeeps(s: State, t: State, c: Client, pc: Pc)
    requires NoLeak(s) && Held(PcOf(s, c)) == {} && t.pcs == s.pcs[c := pc]
    requires t.closed == s.closed && t.started == s.started && t.nextId == s.nextId
    requires forall n :: n in t.names ==> n in s.names && t.names[n] == s.names[n]
    requires forall h :: h in Held(pc) <==> Registered(s, h) && !Registered(t, h)
    ensures NoLeak(t)
  {
    hide Held;
    HeldAfter(s, t, c, pc);
    forall d, h | HeldBy(t, d, h) ensures h in t.started {
      if d == c { assert Registered(s, h); }
    }
    forall h | h in t.started ensures Accounted(t, h) {
      assert Accounted(s, h);
      if Registered(s, h) && !Registered(t, h) { assert HeldBy(t, c, h); }
      if !Registered(s, h) { assert !Registered(t, h); }
      if exists d :: HeldBy(s, d, h) {
        var d :| HeldBy(s, d, h);
        assert HeldBy(t, d, h);
      }
    }
  }

  /** A session that goes from the hands of `c` into the map. */
  lemma InsertKeeps(s: State, t: State, c: Client, h: Handle, pc: Pc)
    requires NoLeak(s) && Held(PcOf(s, c)) == {h} && Held(pc) == {} && t.pcs == s.pcs[c := pc]
    requires h.name !in s.names && t.names == s.names[h.name := h]
    requires t.closed == s.closed && t.started == s.started && t.nextId == s.nextId
    ensures NoLeak(t)
  {
    hide Held;
    HeldAfter(s, t, c, pc);
    assert HeldBy(s, c, h);
    forall g | g in t.started ensures Accounted(t, g) {
      assert Accounted(s, g);
      if g == h {
        assert Registered(t, h);
        forall d ensures !HeldBy(t, d, h) { if d != c { assert HeldBy(s, d, h) ==> d == c; } }
      } else {
        assert Registered(t, g) <==> Registered(s, g);
        MovedElsewhere(s, t, g);
      }
    }
  }

  lemma MovedElsewhere(s: State, t: State, h: Handle)
    requires Accounted(s, h) && (Registered(t, h) <==> Registered(s, h)) && (h in t.closed <==> h in s.closed)
    requires forall d :: HeldBy(t, d, h) <==> HeldBy(s, d, h)
    ensures Accounted(t, h)
  {
    hide HeldBy, Registered;
  }

  /** A session that `c` holds is closed. */
  lemma CloseKeeps(s: State, t: State, c: Client, h: Handle, pc: Pc)
    requires NoLeak(s) && h in Held(PcOf(s, c)) && Held(pc) == Held(PcOf(s, c)) - {h} && t.pcs == s.pcs[c := pc]
    requires t.closed == s.closed + {h} && t.names == s.names && t.started == s.started && t.nextId == s.nextId
    ensures NoLeak(t)
  {
    hide Held;
    HeldAfter(s, t, c, pc);
    assert HeldBy(s, c, h);
    assert h in s.started && t.closed <= t.started;
    forall d, g | HeldBy(t, d, g) ensures g in t.started { assert HeldBy(s, d, g); }
    forall g | g in t.started ensures Accounted(t, g) {
      assert Accounted(s, g);
      if g == h {
        forall d ensures !HeldBy(t, d, h) { if d != c { assert HeldBy(s, d, h) ==> d == c; } }
        assert !Registered(t, h);
      } else {
        assert Registered(t, g) <==> Registered(s, g);
        MovedElsewhere(s, t, g);
      }
    }
  }

  lemma BegunKeeps(s: State, c: Client, startOk: bool)
    requires NoLeak(s) && PcOf(s, c).Begun?
    ensures NoLeak(Step(s, c, startOk))
  {
    var t := Step(s, c, startOk);
    match PcOf(s, c).op
    case Create(_, _) => SameHolders(s, t, c, PcOf(t, c));
    case Lookup(_) => SameHolders(s, t, c, Ready);
    case CloseOne(name) =>
      if name !in s.names {
        SameHolders(s, t, c, Ready);
      } else {
        TakeOutKeeps(s, t, c, PcOf(t, c));
      }
    case CloseAll => TakeOutKeeps(s, t, c, PcOf(t, c));
  }

  lemma StepKeeps(s: State, c: Client, startOk: bool)
    requires NoLeak(s)
    ensures NoLeak(Step(s, c, startOk))
  {
    hide NoLeak;
    var t := Step(s, c, startOk);
    match PcOf(s, c)
    case Ready =>
    case Begun(_, _) => BegunKeeps(s, c, startOk);
    case Starting(name, since, _) =>
      if startOk { StartKeeps(s, c, name, since); } else { SameHolders(s, t, c, Ready); }
    case Holding(h, since) =>
      if h.name in s.names { SameHolders(s, t, c, PcOf(t, c)); } else { InsertKeeps(s, t, c, h, Ready); }
    case Losing(h, since, at) => CloseKeeps(s, t, c, h, Ready);
    case ClosingSome(hs, _, _, _, _) => if hs == {} { SameHolders(s, t, c, Ready); }
  }

  lemma NextKeeps(s: State, a: Action)
    requires NoLeak(s)
    ensures NoLeak(Next(s, a))
  {
    hide NoLeak, Step;
    match a
    case Invoke(c, op) => if PcOf(s, c) == Ready { SameHolders(s, Next(s, a), c, Begun(op, |s.order|)); }
    case Work(c, startOk) => StepKeeps(s, c, startOk);
    case CloseHeld(c, h) =>
      if PcOf(s, c).ClosingSome? && h in PcOf(s, c).hs { CloseKeeps(s, Next(s, a), c, h, PcOf(Next(s, a), c)); }
  }

  lemma {:induction false} RunKeeps(s: State, acts: seq<Action>)
    requires NoLeak(s)
    ensures NoLeak(Run(s, acts))
    decreases |acts|
  {
    hide NoLeak, Next;
    if acts != [] {
      NextKeeps(s, acts[0]);
      RunKeeps(Next(s, acts[0]), acts[1..]);
    }
  }

  /** No session leaks: in every reachable interleaving a started session is closed, or
      registered under its own name, or held by exactly one call in flight; once every
      call has returned, every session outside the registry is closed. */
  lemma NoSessionLeaks(acts: seq<Action>, h: Handle)
    ensures var s := Run(INIT, acts);
            h in s.started ==>
              Accounted(s, h)
              && ((forall c :: PcOf(s, c) == Ready) ==> (h in s.closed <==> !Registered(s, h)))
    ensures var s := Run(INIT, acts);
            forall n :: n in s.names ==> s.names[n].name == n && s.names[n] in s.started
  {
    RunKeeps(INIT, acts);
    var s := Run(INIT, acts);
    hide Run;
    if h in s.started && forall c :: PcOf(s, c) == Ready {
      assert Accounted(s, h);
      forall c ensures !HeldBy(s, c, h) { assert PcOf(s, c) == Ready; }
    }
  }

  // ------------------------------------------------------------------ linearization

  /** The names after the calls in `order`, one at a time. */
  function Replay(order: seq<Entry>): Names {
    if order == [] then map[]
    else var e := order[|order| - 1]; Apply(Replay(order[..|order| - 1]), e.op, e.h, e.startOk).0
  }

  /** Entry `i` answers what the sequential map answers at its place. */
  ghost predicate AnswersAt(order: seq<Entry>, i: nat)
    requires i < |order|
  {
    order[i].answer == Apply(Replay(order[..i]), order[i].op, order[i].h, order[i].startOk).1
  }

  /** A call took effect at `at`, between its invocation and `until`; a start that failed
      took none, and the name was free at `at`. */
  ghost predicate TookEffect(order: seq<Entry>, c: Client, op: Op, answer: Answer, since: nat, at: nat, until: nat) {
    && since <= at <= until <= |order|
    && (if answer == StartFailed
        then op.Create? && Apply(Replay(order[..at]), op, NOBODY, false).1 == StartFailed
        else at < until && order[at].client == c && order[at].op == op && order[at].answer == answer)
  }

  ghost predicate PcLinear(order: seq<Entry>, c: Client, pc: Pc) {
    match pc
    case Ready => true
    case Begun(_, since) => since <= |order|
    case Starting(name, since, at) => TookEffect(order, c, Create(name, true), StartFailed, since, at, |order|)
    case Holding(_, since) => since <= |order|
    case Losing(h, since, at) => TookEffect(order, c, Create(h.name, true), Exists, since, at, |order|)
    case ClosingSome(_, all, op, since, at) => TookEffect(order, c, op, Closed(all), since, at, |order|)
  }

  ghost predicate Since(pc: Pc, n: nat) {
    match pc
    case Ready => true
    case Begun(_, since) => n <= since
    case Starting(_, since, _) => n <= since
    case Holding(_, since) => n <= since
    case Losing(_, since, _) => n <= since
    case ClosingSome(_, _, _, since, _) => n <= since
  }

  ghost predicate ReturnLinear(order: seq<Entry>, r: Return) {
    TookEffect(order, r.client, r.op, r.answer, r.since, r.at, r.until)
  }

  ghost predicate OrderLinear(order: seq<Entry>, names: Names) {
    Replay(order) == names && forall i :: 0 <= i < |order| ==> AnswersAt(order, i)
  }

  /** A client's calls follow one another. */
  ghost predicate OneByOne(s: State) {
    && (forall i :: 0 <= i < |s.returned| ==> Since(PcOf(s, s.returned[i].client), s.returned[i].until))
    && (forall i, j :: 0 <= i < j < |s.returned| && s.returned[i].client == s.returned[j].client
          ==> s.returned[i].until <= s.returned[j].since)
  }

  ghost predicate Linear(s: State) {
    && OrderLinear(s.order, s.names)
    && (forall c :: PcLinear(s.order, c, PcOf(s, c)))
    && (forall i :: 0 <= i < |s.returned| ==> ReturnLinear(s.order, s.returned[i]))
    && OneByOne(s)
  }

  lemma TookEffectStays(order: seq<Entry>, e: Entry, c: Client, op: Op, answer: Answer, since: nat, at: nat, until: nat, later: nat)
    requires TookEffect(order, c, op, answer, since, at, until) && until <= later <= |order| + 1
    ensures TookEffect(order + [e], c, op, answer, since, at, later)
  {
    assert (order + [e])[..at] == order[..at];
    if at < |order| { assert (order + [e])[at] == order[at]; }
  }

  /** One more effect: everything established stays, and the new entry is right. */
  lemma EffectLinear(s: State, c: Client, op: Op, h: Handle, startOk: bool)
    requires Linear(s)
    ensures var t := Effect(s, c, op, h, startOk);
            Linear(t) && t.pcs == s.pcs && t.returned == s.returned && |t.order| == |s.order| + 1
            && t.order[|s.order|] == Entry(c, op, h, startOk, Apply(s.names, op, h, startOk).1)
  {
    hide Apply;
    var t := Effect(s, c, op, h, startOk);
    var e := t.order[|s.order|];
    assert t.order == s.order + [e] && t.order[..|s.order|] == s.order;
    forall i | 0 <= i < |t.order| ensures AnswersAt(t.order, i) {
      assert t.order[..i] == (if i < |s.order| then s.order[..i] else s.order);
      if i < |s.order| { assert AnswersAt(s.order, i); }
    }
    forall d ensures PcLinear(t.order, d, PcOf(t, d)) {
      assert PcLinear(s.order, d, PcOf(s, d));
      PcLinearStays(s.order, e, d, PcOf(s, d));
    }
    hide TookEffect;
    forall i | 0 <= i < |t.returned| ensures ReturnLinear(t.order, t.returned[i]) {
      var r := s.returned[i];
      assert ReturnLinear(s.order, r);
      UntilInside(s.order, r);
      TookEffectStays(s.order, e, r.client, r.op, r.answer, r.since, r.at, r.until, r.until);
    }
  }

  lemma UntilInside(order: seq<Entry>, r: Return)
    requires ReturnLinear(order, r)
    ensures r.until <= |order|
  {}

  lemma PcLinearStays(order: seq<Entry>, e: Entry, c: Client, pc: Pc)
    requires PcLinear(order, c, pc)
    ensures PcLinear(order + [e], c, pc)
  {
    hide TookEffect;
    var n := |order|;
    match pc
    case Starting(name, since, at) => TookEffectStays(order, e, c, Create(name, true), StartFailed, since, at, n, n + 1);
    case Losing(h, since, at) => TookEffectStays(order, e, c, Create(h.name, true), Exists, since, at, n, n + 1);
    case ClosingSome(_, all, op, since, at) => TookEffectStays(order, e, c, op, Closed(all), since, at, n, n + 1);
    case _ =>
  }

  /** A client moves to another place in the same call, or begins one. */
  lemma MoveLinear(s: State, t: State, c: Client, pc: Pc)
    requires Linear(s) && t.pcs == s.pcs[c := pc] && PcLinear(s.order, c, pc)
    requires t.order == s.order && t.names == s.names && t.returned == s.returned
    requires forall n: nat :: n <= |s.order| && Since(PcOf(s, c), n) ==> Since(pc, n)
    ensures Linear(t)
  {
    hide TookEffect, OrderLinear, PcLinear, Since, ReturnLinear;
    forall d ensures PcLinear(t.order, d, PcOf(t, d)) { assert PcLinear(s.order, d, PcOf(s, d)); }
    forall i | 0 <= i < |t.returned| ensures Since(PcOf(t, t.returned[i].client), t.returned[i].until) {
      var r := s.returned[i];
      assert Since(PcOf(s, r.client), r.until) && ReturnLinear(s.order, r);
      UntilInside(s.order, r);
    }
  }

  lemma ReadyLinear(order: seq<Entry>, c: Client)
    ensures PcLinear(order, c, Ready) && forall n: nat :: Since(Ready, n)
  {}

  /** A call returns. */
  lemma FinishLinear(s: State, c: Client, op: Op, answer: Answer, since: nat, at: nat)
    requires Linear(s) && TookEffect(s.order, c, op, answer, since, at, |s.order|)
    requires forall n: nat :: n <= |s.order| && Since(PcOf(s, c), n) ==> n <= since
    ensures Linear(Finish(s, c, op, answer, since, at))
  {
    hide TookEffect, OrderLinear, PcLinear, Since;
    var t := Finish(s, c, op, answer, since, at);
    ReadyLinear(s.order, c);
    forall d ensures PcLinear(t.order, d, PcOf(t, d)) { assert PcLinear(s.order, d, PcOf(s, d)); }
    forall i | 0 <= i < |s.returned| ensures t.returned[i] == s.returned[i] && s.returned[i].until <= |s.order|
      && (s.returned[i].client == c ==> s.returned[i].until <= since)
    {
      var r := s.returned[i];
      assert ReturnLinear(s.order, r) && Since(PcOf(s, r.client), r.until);
      UntilInside(s.order, r);
    }
    forall i | 0 <= i < |t.returned| ensures ReturnLinear(t.order, t.returned[i]) {
      if i < |s.returned| { assert ReturnLinear(s.order, s.returned[i]); }
    }
    forall i | 0 <= i < |t.returned| ensures Since(PcOf(t, t.returned[i].client), t.returned[i].until) {
      if i < |s.returned| { assert Since(PcOf(s, s.returned[i].client), s.returned[i].until); }
    }
  }

  lemma EffectAndFinishLinear(s: State, c: Client, op: Op, since: nat)
    requires Linear(s) && PcOf(s, c) == Begun(op, since)
    requires Apply(s.names, op, NOBODY, true).1 != StartFailed
    ensures Linear(EffectAndFinish(s, c, op, since))
  {
    hide OrderLinear, Apply, OneByOne;
    assert PcLinear(s.order, c, PcOf(s, c));
    EffectLinear(s, c, op, NOBODY, true);
    var t := Effect(s, c, op, NOBODY, true);
    assert PcOf(t, c) == PcOf(s, c);
    FinishLinear(t, c, op, Answered(t), since, |s.order|);
  }

  lemma BegunLinear(s: State, c: Client, startOk: bool)
    requires Linear(s) && PcOf(s, c).Begun?
    ensures Linear(Step(s, c, startOk))
  {
    hide OneByOne, Linear;
    var Begun(op, since) := PcOf(s, c);
    LinearPc(s, c);
    var t := Step(s, c, startOk);
    match op
    case Create(name, isBash) =>
      if !isBash || name in s.names {
        EffectAndFinishLinear(s, c, op, since);
      } else {
        ReplayWhole(s);
        MoveLinear(s, t, c, Starting(name, since, |s.order|));
      }
    case Lookup(_) => EffectAndFinishLinear(s, c, op, since);
    case CloseOne(name) =>
      if name !in s.names {
        EffectAndFinishLinear(s, c, op, since);
      } else {
        EffectLinear(s, c, op, NOBODY, true);
        MoveLinear(Effect(s, c, op, NOBODY, true), t, c, PcOf(t, c));
      }
    case CloseAll =>
      EffectLinear(s, c, op, NOBODY, true);
      MoveLinear(Effect(s, c, op, NOBODY, true), t, c, PcOf(t, c));
  }

  lemma LinearPc(s: State, c: Client)
    requires Linear(s)
    ensures PcLinear(s.order, c, PcOf(s, c))
  {}

  lemma ReplayWhole(s: State)
    requires Linear(s)
    ensures Replay(s.order[..|s.order|]) == s.names
  {
    assert s.order[..|s.order|] == s.order;
  }

  lemma StepLinear(s: State, c: Client, startOk: bool)
    requires Linear(s)
    ensures Linear(Step(s, c, startOk))
  {
    hide OneByOne, Linear, Replay;
    LinearPc(s, c);
    var t := Step(s, c, startOk);
    match PcOf(s, c)
    case Ready =>
    case Begun(_, _) => BegunLinear(s, c, startOk);
    case Starting(name, since, at) =>
      if startOk {
        MoveLinear(s, t, c, PcOf(t, c));
      } else {
        FinishLinear(s, c, Create(name, true), StartFailed, since, at);
      }
    case Holding(h, since) =>
      EffectLinear(s, c, Create(h.name, true), h, true);
      var u := Effect(s, c, Create(h.name, true), h, true);
      assert PcOf(u, c) == PcOf(s, c);
      if h.name in s.names {
        MoveLinear(u, t, c, PcOf(t, c));
      } else {
        FinishLinear(u, c, Create(h.name, true), Created, since, |s.order|);
      }
    case Losing(h, since, at) =>
      var u := s.(closed := s.closed + {h});
      SameLinear(s, u);
      FinishLinear(u, c, Create(h.name, true), Exists, since, at);
    case ClosingSome(hs, all, op, since, at) =>
      if hs == {} { FinishLinear(s, c, op, Closed(all), since, at); }
  }

  lemma SameLinear(s: State, t: State)
    requires Linear(s) && t.names == s.names && t.pcs == s.pcs && t.order == s.order && t.returned == s.returned
    ensures Linear(t)
  {
    hide OrderLinear, PcLinear, Since, ReturnLinear;
    forall c ensures PcOf(t, c) == PcOf(s, c) {}
  }

  lemma NextLinear(s: State, a: Action)
    requires Linear(s)
    ensures Linear(Next(s, a))
  {
    hide Linear, Step;
    match a
    case Invoke(c, op) =>
      if PcOf(s, c) == Ready { MoveLinear(s, Next(s, a), c, Begun(op, |s.order|)); }
    case Work(c, startOk) => StepLinear(s, c, startOk);
    case CloseHeld(c, h) =>
      LinearPc(s, c);
      if PcOf(s, c).ClosingSome? && h in PcOf(s, c).hs {
        var u := s.(closed := s.closed + {h});
        SameLinear(s, u);
        MoveLinear(u, Next(s, a), c, PcOf(Next(s, a), c));
      }
  }

  lemma {:induction false} RunLinear(s: State, acts: seq<Action>)
    requires Linear(s)
    ensures Linear(Run(s, acts))
    decreases |acts|
  {
    hide Linear, Next;
    if acts != [] {
      NextLinear(s, acts[0]);
      RunLinear(Next(s, acts[0]), acts[1..]);
    }
  }

  /** A call that returned before another began stands before it in the order. */
  ghost predicate RespectsRealTime(calls: seq<Return>) {
    forall i, j :: 0 <= i < |calls| && 0 <= j < |calls| && Ordered(calls[i], calls[j]) ==> calls[i].at < calls[j].at
  }

  predicate Ordered(a: Return, b: Return) {
    a.until <= b.since && a.answer != StartFailed
  }

  /** No place in the order serves two returned calls. */
  ghost predicate EachOnce(calls: seq<Return>) {
    forall i, j :: 0 <= i < j < |calls| && BothServed(calls[i], calls[j]) ==> calls[i].at != calls[j].at
  }

  predicate BothServed(a: Return, b: Return) {
    a.answer != StartFailed && b.answer != StartFailed
  }

  /** The registry is linearizable. In every reachable interleaving there is one order of
      the calls that took effect such that the sequential map gives the registry and
      every answer; each returned call stands in it once, between its invocation and its
      return, so calls that did not overlap keep their order. A start that failed is in
      no order, and its name was free at some moment of the call. */
  lemma RegistryLinearizes(acts: seq<Action>)
    ensures var s := Run(INIT, acts);
            && Replay(s.order) == s.names
            && (forall i :: 0 <= i < |s.order| ==> AnswersAt(s.order, i))
            && (forall i :: 0 <= i < |s.returned| ==> ReturnLinear(s.order, s.returned[i]))
            && RespectsRealTime(s.returned) && EachOnce(s.returned)
  {
    RunLinear(INIT, acts);
    var s := Run(INIT, acts);
    hide Run;
    forall i, j | 0 <= i < j < |s.returned| && BothServed(s.returned[i], s.returned[j])
      ensures s.returned[i].at != s.returned[j].at
    {
      var a, b := s.returned[i], s.returned[j];
      assert ReturnLinear(s.order, a) && ReturnLinear(s.order, b);
      if a.client == b.client { assert a.until <= b.since; }
    }
    forall i, j | 0 <= i < |s.returned| && 0 <= j < |s.returned| && Ordered(s.returned[i], s.returned[j])
      ensures s.returned[i].at < s.returned[j].at
    {
      assert ReturnLinear(s.order, s.returned[i]) && ReturnLinear(s.order, s.returned[j]);
    }
  }

  // ------------------------------------------------------------ the laws of a registry

  /** The call started session `h` and registered it under `n`. */
  predicate Creates(e: Entry, n: Name, h: Handle) {
    e.op.Create? && e.op.name == n && e.answer == Created && e.h == h
  }

  /** The call took the session named `n`, if there is one, out of the registry. */
  predicate Clears(e: Entry, n: Name) {
    e.answer.Closed? && (e.op == CloseOne(n) || e.op == CloseAll)
  }

  ghost predicate CreatedAt(order: seq<Entry>, i: nat, n: Name, h: Handle, j: nat) {
    && j < i <= |order| && Creates(order[j], n, h)
    && forall k :: j < k < i ==> !Clears(order[k], n)
  }

  /** Before entry `i`, session `h` was created under `n`, and `n` was not closed since. */
  ghost predicate LiveAt(order: seq<Entry>, i: nat, n: Name, h: Handle) {
    exists j: nat :: CreatedAt(order, i, n, h, j)
  }

  ghost predicate FreeAt(order: seq<Entry>, i: nat, n: Name) {
    forall h :: !LiveAt(order, i, n, h)
  }

  /** What a registry answers, by the calls before it: a lookup and a close of one name
      find the live session, a close of everything gets exactly the live ones, and a create
      succeeds exactly on a free name. */
  ghost predicate Lawful(order: seq<Entry>, i: nat)
    requires i < |order|
  {
    var answer := order[i].answer;
    match order[i].op
    case Lookup(n) =>
      (forall h :: answer == Found(h) <==> LiveAt(order, i, n, h)) && (answer == NotFound <==> FreeAt(order, i, n))
    case CloseOne(n) =>
      (forall h :: answer == Closed({h}) <==> LiveAt(order, i, n, h)) && (answer == NotFound <==> FreeAt(order, i, n))
    case CloseAll =>
      answer.Closed? && forall h :: h in answer.handles <==> exists n :: LiveAt(order, i, n, h)
    case Create(n, isBash) =>
      && (answer == BadType <==> !isBash)
      && (answer == Exists <==> isBash && !FreeAt(order, i, n))
      && (answer == Created <==> isBash && FreeAt(order, i, n))
  }

  /** One entry more. */
  lemma LiveNext(order: seq<Entry>, i: nat, n: Name, h: Handle)
    requires i < |order|
    ensures LiveAt(order, i + 1, n, h) <==>
            Creates(order[i], n, h) || (LiveAt(order, i, n, h) && !Clears(order[i], n))
  {
    hide Creates, Clears;
    if Creates(order[i], n, h) {
      assert CreatedAt(order, i + 1, n, h, i);
    } else if LiveAt(order, i, n, h) && !Clears(order[i], n) {
      var j: nat :| CreatedAt(order, i, n, h, j);
      assert CreatedAt(order, i + 1, n, h, j);
    }
    if LiveAt(order, i + 1, n, h) && !Creates(order[i], n, h) {
      var j: nat :| CreatedAt(order, i + 1, n, h, j);
      assert CreatedAt(order, i, n, h, j);
    }
  }

  /** The replayed names are the live sessions. */
  lemma {:induction false} ReplayIsLive(order: seq<Entry>, i: nat)
    requires i <= |order| && forall k :: 0 <= k < i ==> AnswersAt(order, k)
    ensures forall n, h :: LiveAt(order, i, n, h) <==> n in Replay(order[..i]) && Replay(order[..i])[n] == h
    decreases i
  {
    if i > 0 {
      ReplayIsLive(order, i - 1);
      assert order[..i][..i - 1] == order[..i - 1] && order[..i][i - 1] == order[i - 1];
      hide LiveAt;
      var m, e := Replay(order[..i - 1]), order[i - 1];
      assert AnswersAt(order, i - 1);
      forall n, h ensures LiveAt(order, i, n, h) <==> n in Replay(order[..i]) && Replay(order[..i])[n] == h {
        LiveNext(order, i - 1, n, h);
        ApplyNames(m, e, n, h);
      }
    }
  }

  lemma ApplyNames(m: Names, e: Entry, n: Name, h: Handle)
    requires e.answer == Apply(m, e.op, e.h, e.startOk).1
    ensures var m' := Apply(m, e.op, e.h, e.startOk).0;
            n in m' && m'[n] == h <==> Creates(e, n, h) || (n in m && m[n] == h && !Clears(e, n))
  {}

  lemma AnswerIsLawful(order: seq<Entry>, i: nat)
    requires i < |order| && order[i].startOk && forall k :: 0 <= k <= i ==> AnswersAt(order, k)
    ensures Lawful(order, i)
  {
    hide LiveAt, Replay;
    ReplayIsLive(order, i);
    var m := Replay(order[..i]);
    assert AnswersAt(order, i);
    if order[i].op.CloseAll? {
      forall h ensures h in m.Values <==> exists n :: LiveAt(order, i, n, h) {
        if h in m.Values {
          var n :| n in m && m[n] == h;
          assert LiveAt(order, i, n, h);
        }
      }
    } else {
      NameIsFree(order, i, order[i].op.name, m);
    }
  }

  lemma NameIsFree(order: seq<Entry>, i: nat, n: Name, m: Names)
    requires forall n, h :: LiveAt(order, i, n, h) <==> n in m && m[n] == h
    ensures FreeAt(order, i, n) <==> n !in m
  {
    hide LiveAt;
    if n in m { assert LiveAt(order, i, n, m[n]); }
  }

  /** Only what has started takes effect. */
  ghost predicate Effective(order: seq<Entry>) {
    forall i :: 0 <= i < |order| ==> order[i].startOk
  }

  lemma NextEffective(s: State, a: Action)
    requires Effective(s.order)
    ensures Effective(Next(s, a).order)
  {
    hide Apply;
  }

  lemma {:induction false} RunEffective(s: State, acts: seq<Action>)
    requires Effective(s.order)
    ensures Effective(Run(s, acts).order)
    decreases |acts|
  {
    hide Next, Effective;
    if acts != [] {
      NextEffective(s, acts[0]);
      RunEffective(Next(s, acts[0]), acts[1..]);
    }
  }

  /** The registry answers as a registry should. In every interleaving there is one order of
      the calls that took effect, each returned call between its invocation and its return
      (`RegistryLinearizes`), in which every answer is the lawful one. */
  lemma RegistryAnswers(acts: seq<Action>)
    ensures var s := Run(INIT, acts); forall i :: 0 <= i < |s.order| ==> Lawful(s.order, i)
  {
    hide Linear, Lawful, Run;
    RegistryLinearizes(acts);
    InitSound();
    RunEffective(INIT, acts);
    var s := Run(INIT, acts);
    forall i | 0 <= i < |s.order| ensures Lawful(s.order, i) { AnswerIsLawful(s.order, i); }
  }

  lemma InitSound()
    ensures INIT.order == [] && NoLeak(INIT) && Linear(INIT)
  {}

  /** Entries `from` on register no session of `closed`. */
  ghost predicate CreatesOpen(closed: set<Handle>, from: nat, order: seq<Entry>) {
    forall j :: from <= j < |order| && order[j].answer == Created ==> order[j].h !in closed
  }

  lemma StepCreatesOpen(s: State, a: Action, closed: set<Handle>, from: nat)
    requires NoLeak(s) && closed <= s.closed && CreatesOpen(closed, from, s.order)
    ensures var t := Next(s, a);
            closed <= t.closed && s.order <= t.order && CreatesOpen(closed, from, t.order)
  {
    hide Accounted;
    if a.Work? && PcOf(s, a.c).Holding? { HeldIsOpen(s, a.c, PcOf(s, a.c).h); }
  }

  lemma HeldIsOpen(s: State, c: Client, h: Handle)
    requires NoLeak(s) && HeldBy(s, c, h)
    ensures h !in s.closed
  {
    assert Accounted(s, h);
  }

  lemma {:induction false} RunCreatesOpen(s: State, acts: seq<Action>, closed: set<Handle>, from: nat)
    requires NoLeak(s) && closed <= s.closed && CreatesOpen(closed, from, s.order)
    ensures var t := Run(s, acts); s.order <= t.order && CreatesOpen(closed, from, t.order)
    decreases |acts|
  {
    hide NoLeak, Next, CreatesOpen;
    if acts != [] {
      StepCreatesOpen(s, acts[0], closed, from);
      NextKeeps(s, acts[0]);
      RunCreatesOpen(Next(s, acts[0]), acts[1..], closed, from);
    }
  }

  lemma LiveIsRegistered(s: State, n: Name, h: Handle)
    requires Linear(s) && NoLeak(s) && LiveAt(s.order, |s.order|, n, h)
    ensures h !in s.closed
  {
    hide LiveAt, OneByOne, PcLinear, ReturnLinear, Replay;
    assert s.order[..|s.order|] == s.order;
    ReplayIsLive(s.order, |s.order|);
    assert Registered(s, h) && Accounted(s, h);
  }

  /** A live session was live at every moment since, or created since. */
  lemma LiveSince(order: seq<Entry>, i: nat, n: Name, h: Handle, prefix: seq<Entry>)
    requires prefix <= order && |prefix| <= i && LiveAt(order, i, n, h)
    ensures LiveAt(prefix, |prefix|, n, h) || exists j: nat :: |prefix| <= j < |order| && order[j].answer == Created && order[j].h == h
  {
    var j: nat :| CreatedAt(order, i, n, h, j);
    if j < |prefix| { assert CreatedAt(prefix, |prefix|, n, h, j); }
  }

  /** A lookup never finds a session that was closed before it began: in every interleaving,
      at whatever moment, if a lookup takes effect after the moment and finds `h`, then
      `h` was not closed at that moment. */
  lemma NeverFindsClosed(before: seq<Action>, after: seq<Action>, r: Return, h: Handle)
    ensures var s := Run(INIT, before);
            var t := Run(s, after);
            r in t.returned && r.op.Lookup? && r.answer == Found(h) && r.since >= |s.order| ==> h !in s.closed
  {
    hide Run, Linear, NoLeak, LiveAt, Lawful;
    var s := Run(INIT, before);
    var t := Run(s, after);
    InitSound();
    RunKeeps(INIT, before);
    RunLinear(INIT, before);
    RunCreatesOpen(s, after, s.closed, |s.order|);
    if r in t.returned && r.op.Lookup? && r.answer == Found(h) && r.since >= |s.order| {
      RunAppend(INIT, before, after);
      RegistryAnswers(before + after);
      RegistryLinearizes(before + after);
      var at := FoundLive(t.order, t.returned, r, h);
      LiveSince(t.order, at, r.op.name, h, s.order);
      if LiveAt(s.order, |s.order|, r.op.name, h) { LiveIsRegistered(s, r.op.name, h); }
    }
  }

  lemma FoundLive(order: seq<Entry>, calls: seq<Return>, r: Return, h: Handle) returns (at: nat)
    requires r in calls && r.op.Lookup? && r.answer == Found(h)
    requires forall i :: 0 <= i < |calls| ==> ReturnLinear(order, calls[i])
    requires forall i :: 0 <= i < |order| ==> Lawful(order, i)
    ensures at >= r.since && LiveAt(order, at, r.op.name, h)
  {
    hide LiveAt;
    assert ReturnLinear(order, r);
    at := r.at;
    assert Lawful(order, at);
  }

  lemma {:induction false} RunAppend(s: State, a: seq<Action>, b: seq<Action>)
    ensures Run(s, a + b) == Run(Run(s, a), b)
    decreases |a|
  {
    hide Next;
    if a == [] {
      assert a + b == b;
    } else {
      assert (a + b)[1..] == a[1..] + b;
      RunAppend(Next(s, a[0]), a[1..], b);
    }
  }
}
