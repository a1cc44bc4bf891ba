/** The broadcast behind every release of a commit lock: swap the channel under a small lock,
    close the old one outside it, and skip both when nobody is registered. */
module OpRelease {

  type Thread = nat
  type Mutex = nat
  type Chan = nat

  /** Where a thread stands. A committer goes Idle, Holding, Unlocked, Loaded and, if it swapped,
      WillClose; a closing mount goes Idle, Refused, Registered, Snapped, Parked, and at
      last Won or Lost. */
  datatype Phase =
    | Idle
    | Holding(m: Mutex)
    | Unlocked(m: Mutex)
    | Loaded(m: Mutex, waiters: nat)
    | WillClose(ch: Chan)
    | Refused(m: Mutex)
    | Registered(m: Mutex)
    | Snapped(m: Mutex, ch: Chan)
    | Parked(m: Mutex, ch: Chan)
    | Won(m: Mutex)
    | Lost

  datatype State = State(
    phase: map<Thread, Phase>, holder: map<Mutex, Thread>, relMu: set<Thread>, relCh: Chan, nextCh: Chan,
    closed: set<Chan>, relWaiters: nat)

  datatype Action =
    | TryLock(t: Thread, m: Mutex)
    | Unlock(t: Thread)
    | LoadWaiters(t: Thread)
    | SwapOrSkip(t: Thread)
    | CloseOld(t: Thread)
    | Refuse(t: Thread, m: Mutex)
    | Register(t: Thread)
    | Snapshot(t: Thread)
    | Recheck(t: Thread)
    | GiveUp(t: Thread)
    | Wake(t: Thread)
    | Expire(t: Thread)
    | Depart(t: Thread)

  function PhaseOf(s: State, t: Thread): Phase {
    if t in s.phase then s.phase[t] else Idle
  }

  predicate IsRegistered(p: Phase) {
    p.Registered? || p.Snapped? || p.Parked? || p.Won? || p.Lost?
  }

  predicate Enabled(s: State, a: Action) {
    var p := PhaseOf(s, a.t);
    match a
    case TryLock(_, m) => p == Idle && m !in s.holder
    case Unlock(_) => p.Holding?
    case LoadWaiters(_) => p.Unlocked? && s.relMu == {}
    case SwapOrSkip(_) => p.Loaded?
    case CloseOld(_) => p.WillClose?
    case Refuse(_, m) => p == Idle && m in s.holder
    case Register(_) => p.Refused?
    case Snapshot(_) => p.Registered? && s.relMu == {}
    case Recheck(_) => p.Snapped?
    case GiveUp(_) => p.Snapped?
    case Wake(_) => p.Parked? && p.ch in s.closed
    case Expire(_) => p.Parked?
    case Depart(_) => p.Won? || p.Lost?
  }

  function Go(s: State, t: Thread, p: Phase): State {
    s.(phase := s.phase[t := p])
  }

  function Next(s: State, a: Action): State
    requires Enabled(s, a)
  {
    var t := a.t;
    var p := PhaseOf(s, t);
    match a
    case TryLock(_, m) => Go(s, t, Holding(m)).(holder := s.holder[m := t])
    case Unlock(_) => Go(s, t, Unlocked(p.m)).(holder := s.holder - {p.m})
    case LoadWaiters(_) => Go(s, t, Loaded(p.m, s.relWaiters)).(relMu := {t})
    case SwapOrSkip(_) =>
      if p.waiters == 0 then Go(s, t, Idle).(relMu := {})
      else Go(s, t, WillClose(s.relCh)).(relMu := {}, relCh := s.nextCh, nextCh := s.nextCh + 1)
    case CloseOld(_) => Go(s, t, Idle).(closed := s.closed + {p.ch})
    case Refuse(_, m) => Go(s, t, Refused(m))
    case Register(_) => Go(s, t, Registered(p.m)).(relWaiters := s.relWaiters + 1)
    case Snapshot(_) => Go(s, t, Snapped(p.m, s.relCh))
    case Recheck(_) =>
      if p.m in s.holder then Go(s, t, Parked(p.m, p.ch))
      else Go(s, t, Won(p.m)).(holder := s.holder[p.m := t])
    case GiveUp(_) =>
      if p.m in s.holder then Go(s, t, Lost) else Go(s, t, Won(p.m)).(holder := s.holder[p.m := t])
    case Wake(_) => Go(s, t, Registered(p.m))
    case Expire(_) => Go(s, t, Registered(p.m))
    case Depart(_) =>
      Go(s, t, if p.Won? then Holding(p.m) else Idle).(relWaiters := if s.relWaiters > 0 then s.relWaiters - 1 else 0)
  }

  const START := State(map[], map[], {}, 0, 1, {}, 0)

  ghost predicate Legal(s: State, run: seq<Action>)
    decreases |run|
  {
    run != [] ==> Enabled(s, run[0]) && Legal(Next(s, run[0]), run[1..])
  }

  ghost function After(s: State, run: seq<Action>): State
    requires Legal(s, run)
    decreases |run|
  {
    if run == [] then s else After(Next(s, run[0]), run[1..])
  }

  // ----- what every state keeps

  function Waiting(s: State): set<Thread> {
    set t | t in s.phase && IsRegistered(s.phase[t])
  }

  /** The counter counts the registered; a release that saw nobody runs before any snapshot. */
  predicate Counted(s: State) {
    && s.relWaiters == |Waiting(s)|
    && (forall t :: t in s.phase && s.phase[t].Loaded? ==> s.relMu == {t})
    && (forall t :: t in s.relMu ==> t in s.phase && s.phase[t].Loaded?)
    && (forall t, u :: t in s.phase && u in s.phase && s.phase[t].Loaded? && s.phase[t].waiters == 0 ==>
      !s.phase[u].Snapped? && !s.phase[u].Parked?)
  }

  /** Each channel is current, about to be closed by one thread, or closed: never closed twice. */
  predicate ChannelsKept(s: State) {
    && s.relCh < s.nextCh && s.relCh !in s.closed
    && (forall c :: c in s.closed ==> c < s.nextCh)
    && (forall t :: t in s.phase && s.phase[t].WillClose? ==>
      s.phase[t].ch != s.relCh && s.phase[t].ch !in s.closed && s.phase[t].ch < s.nextCh)
    && (forall t, u :: t in s.phase && u in s.phase && t != u && s.phase[t].WillClose? && s.phase[u].WillClose? ==>
      s.phase[t].ch != s.phase[u].ch)
  }

  predicate BeingClosed(s: State, ch: Chan) {
    exists t :: t in s.phase && s.phase[t] == WillClose(ch)
  }

  /** A snapshot is current, about to be closed, or closed. */
  predicate SnapshotsKept(s: State) {
    forall t :: t in s.phase && (s.phase[t].Snapped? || s.phase[t].Parked?) ==>
      s.phase[t].ch == s.relCh || s.phase[t].ch in s.closed || BeingClosed(s, s.phase[t].ch)
  }

  predicate ReleaseOnItsWay(s: State, m: Mutex) {
    exists t :: t in s.phase && Releasing(s.phase[t], m)
  }

  /** Nobody sleeps past a release: while a waiter is parked on an open channel its lock is held,
      or a release of it has yet to signal, or its channel is about to be closed. */
  predicate NoLostWakeup(s: State) {
    forall t :: t in s.phase && s.phase[t].Parked? && s.phase[t].ch !in s.closed ==>
      s.phase[t].m in s.holder || ReleaseOnItsWay(s, s.phase[t].m) || BeingClosed(s, s.phase[t].ch)
  }

  /** A thread that thinks it holds a lock does. */
  predicate LocksHeld(s: State) {
    forall t :: t in s.phase && (s.phase[t].Holding? || s.phase[t].Won?) ==>
      s.phase[t].m in s.holder && s.holder[s.phase[t].m] == t
  }

  /** A lock that is taken has a holder who knows. */
  predicate HoldersKnow(s: State) {
    forall m :: m in s.holder ==> Owns(PhaseOf(s, s.holder[m]), m)
  }

  predicate Owns(p: Phase, m: Mutex) {
    p == Holding(m) || p == Won(m)
  }

  predicate Kept(s: State) {
    Counted(s) && ChannelsKept(s) && SnapshotsKept(s) && NoLostWakeup(s) && LocksHeld(s) && HoldersKnow(s)
  }

  lemma WaitingGo(s: State, t: Thread, p: Phase)
    ensures Waiting(Go(s, t, p)) == if IsRegistered(p) then Waiting(s) + {t} else Waiting(s) - {t}
  {
  }

  lemma CounterNext(s: State, a: Action)
    requires s.relWaiters == |Waiting(s)| && Enabled(s, a)
    ensures Next(s, a).relWaiters == |Waiting(Next(s, a))|
  {
    var r := Next(s, a);
    WaitingGo(s, a.t, PhaseOf(r, a.t));
    assert Waiting(r) == Waiting(Go(s, a.t, PhaseOf(r, a.t)));
    WithAndWithout(Waiting(s), a.t);
    assert a.t in Waiting(s) <==> IsRegistered(PhaseOf(s, a.t));
  }

  lemma WithAndWithout(a: set<Thread>, t: Thread)
    ensures |a + {t}| == if t in a then |a| else |a| + 1
    ensures |a - {t}| == if t in a then |a| - 1 else |a|
  {
    if t in a {
      assert a + {t} == a;
    } else {
      assert a - {t} == a;
    }
  }

  lemma NobodyWaits(s: State, u: Thread)
    requires s.relWaiters == |Waiting(s)| == 0 && u in s.phase
    ensures !s.phase[u].Snapped? && !s.phase[u].Parked?
  {
    assert Waiting(s) == {};
    assert u !in Waiting(s);
  }

  lemma CountedNext(s: State, a: Action)
    requires Counted(s) && Enabled(s, a)
    ensures Counted(Next(s, a))
  {
    CounterNext(s, a);
    if a.LoadWaiters? && s.relWaiters == 0 {
      forall u | u in s.phase ensures !s.phase[u].Snapped? && !s.phase[u].Parked? {
        NobodyWaits(s, u);
      }
    }
  }

  lemma ChannelsNext(s: State, a: Action)
    requires ChannelsKept(s) && Enabled(s, a)
    ensures ChannelsKept(Next(s, a))
  {
  }

  /** A channel on its way to being closed stays so until it is closed. */
  lemma BeingClosedNext(s: State, a: Action, ch: Chan)
    requires ChannelsKept(s) && Enabled(s, a) && BeingClosed(s, ch)
    ensures BeingClosed(Next(s, a), ch) || ch in Next(s, a).closed
  {
    var t :| t in s.phase && s.phase[t] == WillClose(ch);
    var r := Next(s, a);
    if a.t != t {
      assert t in r.phase && r.phase[t] == WillClose(ch);
    }
  }

  lemma SwapIsBeingClosed(s: State, a: Action)
    requires Enabled(s, a) && Next(s, a).relCh != s.relCh
    ensures BeingClosed(Next(s, a), s.relCh)
  {
    var r := Next(s, a);
    assert a.t in r.phase && r.phase[a.t] == WillClose(s.relCh);
  }

  lemma SnapshotsNext(s: State, a: Action)
    requires ChannelsKept(s) && SnapshotsKept(s) && Enabled(s, a)
    ensures SnapshotsKept(Next(s, a))
  {
    var r := Next(s, a);
    forall t | t in r.phase && (r.phase[t].Snapped? || r.phase[t].Parked?)
      ensures r.phase[t].ch == r.relCh || r.phase[t].ch in r.closed || BeingClosed(r, r.phase[t].ch)
    {
      var ch := r.phase[t].ch;
      if !a.Snapshot? || t != a.t {
        assert t in s.phase && (s.phase[t].Snapped? || s.phase[t].Parked?) && s.phase[t].ch == ch;
        if BeingClosed(s, ch) {
          BeingClosedNext(s, a, ch);
        } else if ch == s.relCh && r.relCh != s.relCh {
          SwapIsBeingClosed(s, a);
        }
      }
    }
  }

  predicate Releasing(p: Phase, m: Mutex) {
    p == Unlocked(m) || (p.Loaded? && p.m == m)
  }

  /** A release on its way has yet to signal, or has just swapped the channel out. */
  lemma ReleaseNext(s: State, a: Action, m: Mutex, w: Thread)
    requires Counted(s) && ChannelsKept(s) && Enabled(s, a) && ReleaseOnItsWay(s, m) && w in s.phase && s.phase[w].Parked?
    ensures ReleaseOnItsWay(Next(s, a), m) || Next(s, a).relCh != s.relCh
  {
    var t :| t in s.phase && Releasing(s.phase[t], m);
    var r := Next(s, a);
    if a.t != t {
      assert t in r.phase && Releasing(r.phase[t], m);
    } else if a.LoadWaiters? {
      assert t in r.phase && Releasing(r.phase[t], m);
    } else {
      assert a.SwapOrSkip? && s.phase[t].waiters != 0;
    }
  }

  lemma ParkedAwake(s: State, a: Action, t: Thread)
    requires Kept(s) && Enabled(s, a) && t in Next(s, a).phase && Next(s, a).phase[t].Parked?
    requires t in s.phase && s.phase[t] == Next(s, a).phase[t] && s.phase[t].ch !in Next(s, a).closed
    ensures var r := Next(s, a); var m, ch := r.phase[t].m, r.phase[t].ch;
      m in r.holder || ReleaseOnItsWay(r, m) || BeingClosed(r, ch)
  {
    var r := Next(s, a);
    var m, ch := s.phase[t].m, s.phase[t].ch;
    if BeingClosed(s, ch) {
      BeingClosedNext(s, a, ch);
    } else if m in s.holder {
      if m !in r.holder {
        assert a.Unlock? && a.t in r.phase && Releasing(r.phase[a.t], m);
      }
    } else {
      ReleaseNext(s, a, m, t);
      if r.relCh != s.relCh {
        SwapIsBeingClosed(s, a);
      }
    }
  }

  lemma NoLostWakeupNext(s: State, a: Action)
    requires Kept(s) && Enabled(s, a)
    ensures NoLostWakeup(Next(s, a))
  {
    var r := Next(s, a);
    forall t | t in r.phase && r.phase[t].Parked? && r.phase[t].ch !in r.closed
      ensures r.phase[t].m in r.holder || ReleaseOnItsWay(r, r.phase[t].m) || BeingClosed(r, r.phase[t].ch)
    {
      if !a.Recheck? || t != a.t {
        ParkedAwake(s, a, t);
      }
    }
  }

  lemma HoldersKnowNext(s: State, a: Action)
    requires HoldersKnow(s) && Enabled(s, a)
    ensures HoldersKnow(Next(s, a))
  {
    var r := Next(s, a);
    forall m | m in r.holder ensures Owns(PhaseOf(r, r.holder[m]), m) {
      if m in s.holder && r.holder[m] == s.holder[m] {
        assert Owns(PhaseOf(s, s.holder[m]), m);
      }
    }
  }

  lemma LocksHeldNext(s: State, a: Action)
    requires LocksHeld(s) && Enabled(s, a)
    ensures LocksHeld(Next(s, a))
  {
    var r := Next(s, a);
    forall t | t in r.phase && (r.phase[t].Holding? || r.phase[t].Won?)
      ensures r.phase[t].m in r.holder && r.holder[r.phase[t].m] == t
    {
      if t != a.t {
        assert t in s.phase && s.phase[t] == r.phase[t];
      }
    }
  }

  lemma {:induction false} KeptAlways(s: State, run: seq<Action>)
    requires Kept(s) && Legal(s, run)
    ensures Kept(After(s, run))
    decreases |run|
  {
    if run != [] {
      CountedNext(s, run[0]);
      ChannelsNext(s, run[0]);
      SnapshotsNext(s, run[0]);
      NoLostWakeupNext(s, run[0]);
      LocksHeldNext(s, run[0]);
      HoldersKnowNext(s, run[0]);
      KeptAlways(Next(s, run[0]), run[1..]);
    }
  }

  /** In every reachable state no wake-up has been lost and no channel is closed twice. */
  lemma EveryRunKeeps(run: seq<Action>)
    requires Legal(START, run)
    ensures Kept(After(START, run))
  {
    KeptAlways(START, run);
  }

  lemma HolderOwns(s: State, m: Mutex)
    requires HoldersKnow(s)
    ensures m in s.holder ==> Owns(PhaseOf(s, s.holder[m]), m)
  {
  }

  /** So when every committer has finished, every waiter still parked can run. */
  lemma NobodySleepsForever(run: seq<Action>, t: Thread)
    requires Legal(START, run)
    requires var s := After(START, run); forall u :: u in s.phase ==>
      s.phase[u].Idle? || s.phase[u].Parked?
    requires PhaseOf(After(START, run), t).Parked?
    ensures Enabled(After(START, run), Wake(t))
  {
    EveryRunKeeps(run);
    HolderOwns(After(START, run), PhaseOf(After(START, run), t).m);
  }
}

/** The broadcast behind every freed content slot of the rate governor: the channel is swapped and
    closed under the lock that guards the count. */
module SlotWake {
  import OpRelease

  type Thread = nat
  type Chan = nat

  datatype Phase = Asking | Parked(ch: Chan) | Slotted

  datatype State = State(phase: map<Thread, Phase>, inflight: nat, cap: nat, wake: Chan, nextCh: Chan, closed: set<Chan>)

  /** `Look` checks the cap and, when full, captures the channel in the same critical section. */
  datatype Action = Look(t: Thread) | Wake(t: Thread) | Cancel(t: Thread) | Free(t: Thread)

  function PhaseOf(s: State, t: Thread): Phase {
    if t in s.phase then s.phase[t] else Asking
  }

  predicate Enabled(s: State, a: Action) {
    var p := PhaseOf(s, a.t);
    match a
    case Look(_) => p.Asking?
    case Wake(_) => p.Parked? && p.ch in s.closed
    case Cancel(_) => p.Parked?
    case Free(_) => p.Slotted?
  }

  function Next(s: State, a: Action): State
    requires Enabled(s, a)
  {
    var t := a.t;
    match a
    case Look(_) =>
      if s.inflight < s.cap then s.(phase := s.phase[t := Slotted], inflight := s.inflight + 1)
      else s.(phase := s.phase[t := Parked(s.wake)])
    case Wake(_) => s.(phase := s.phase[t := Asking])
    case Cancel(_) => s.(phase := s.phase[t := Asking])
    case Free(_) =>
      if s.inflight > 0 then
        s.(phase := s.phase[t := Asking], inflight := s.inflight - 1,
           wake := s.nextCh, nextCh := s.nextCh + 1, closed := s.closed + {s.wake})
      else s.(phase := s.phase[t := Asking])
  }

  ghost predicate Legal(s: State, run: seq<Action>)
    decreases |run|
  {
    run != [] ==> Enabled(s, run[0]) && Legal(Next(s, run[0]), run[1..])
  }

  ghost function After(s: State, run: seq<Action>): State
    requires Legal(s, run)
    decreases |run|
  {
    if run == [] then s else After(Next(s, run[0]), run[1..])
  }

  function Holders(s: State): set<Thread> {
    set t | t in s.phase && s.phase[t].Slotted?
  }

  predicate SlotsCounted(s: State) {
    s.inflight == |Holders(s)| <= s.cap
  }

  /** Whoever is parked on an open channel parked on the current one, and every slot is taken. */
  predicate ParkedOnFull(s: State) {
    && s.wake < s.nextCh && s.wake !in s.closed && (forall c :: c in s.closed ==> c < s.nextCh)
    && (forall t :: t in s.phase && s.phase[t].Parked? && s.phase[t].ch !in s.closed ==>
      s.phase[t].ch == s.wake && s.inflight >= s.cap)
  }

  predicate Kept(s: State) {
    SlotsCounted(s) && ParkedOnFull(s)
  }

  lemma KeptNext(s: State, a: Action)
    requires Kept(s) && Enabled(s, a)
    ensures Kept(Next(s, a))
  {
    SlotsNext(s, a);
    ParkedNext(s, a);
  }

  lemma ParkedNext(s: State, a: Action)
    requires ParkedOnFull(s) && Enabled(s, a) && (a.Free? ==> s.inflight > 0)
    ensures ParkedOnFull(Next(s, a))
  {
  }

  lemma SlotsNext(s: State, a: Action)
    requires SlotsCounted(s) && Enabled(s, a)
    ensures SlotsCounted(Next(s, a)) && (a.Free? ==> s.inflight > 0)
  {
    HoldersNext(s, a);
    OpRelease.WithAndWithout(Holders(s), a.t);
    assert a.t in Holders(s) <==> PhaseOf(s, a.t).Slotted?;
  }

  lemma HoldersNext(s: State, a: Action)
    requires Enabled(s, a)
    ensures Holders(Next(s, a)) ==
      if PhaseOf(Next(s, a), a.t).Slotted? then Holders(s) + {a.t} else Holders(s) - {a.t}
  {
  }

  lemma {:induction false} KeptAlways(s: State, run: seq<Action>)
    requires Kept(s) && Legal(s, run)
    ensures Kept(After(s, run))
    decreases |run|
  {
    if run != [] {
      KeptNext(s, run[0]);
      KeptAlways(Next(s, run[0]), run[1..]);
    }
  }

  /** In every run, a waiter parked on an open channel means the cap is reached, so some holder
      has yet to free a slot and wake it. */
  lemma NoLostSlot(cap: nat, run: seq<Action>, t: Thread)
    requires cap > 0 && Legal(State(map[], 0, cap, 0, 1, {}), run)
    requires var s := After(State(map[], 0, cap, 0, 1, {}), run); PhaseOf(s, t).Parked? && PhaseOf(s, t).ch !in s.closed
    ensures var s := After(State(map[], 0, cap, 0, 1, {}), run);
      s.inflight == cap && exists u :: Enabled(s, Free(u)) && PhaseOf(s, t).ch in Next(s, Free(u)).closed
  {
    var start := State(map[], 0, cap, 0, 1, {});
    KeptAlways(start, run);
    CapKept(start, run);
    var s := After(start, run);
    assert Holders(s) != {};
    var u :| u in Holders(s);
    assert Enabled(s, Free(u));
  }

  lemma {:induction false} CapKept(s: State, run: seq<Action>)
    requires Legal(s, run)
    ensures After(s, run).cap == s.cap
    decreases |run|
  {
    if run != [] {
      CapKept(Next(s, run[0]), run[1..]);
    }
  }
}
