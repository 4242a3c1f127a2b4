/**
 The reader/writer lock of 3rd/cppdap/src/rwmutex.h.

 A state says which threads hold, sleep or have been woken; an event is one
 critical section of the lock, the scheduler's choice of the thread a
 notify_one wakes included. The class holds the two counters of the source and
 is proved to follow the events; everything else is proved about all runs.
 */
module RwMutex {
  import opened Common

  type Thread = nat

  datatype State = State(
    owner: Option<Thread>,      // who holds the std::mutex between critical sections
    readers: multiset<Thread>,  // one occurrence for every read lock held
    writers: set<Thread>,       // returned from lockWriter, unlockWriter not yet called
    sleeping: set<Thread>,      // inside cv.wait
    woken: set<Thread>          // notified or spuriously woken, mutex not yet re-acquired
  )

  datatype Event =
    | LockReader(t: Thread)
    | UnlockReader(t: Thread, notified: Thread)
    | LockWriter(t: Thread)
    | UnlockWriter(t: Thread, notified: Thread)
    | SpuriousWake(t: Thread)
    | Reacquire(t: Thread)

  const INIT := State(None, multiset{}, {}, {}, {})

  function Waiting(s: State): set<Thread> {
    s.sleeping + s.woken
  }

  /** A notify_one must pick a sleeper whenever there is one. */
  predicate LegalChoice(s: State, notified: Thread) {
    s.sleeping != {} ==> notified in s.sleeping
  }

  predicate Enabled(s: State, e: Event) {
    match e
    case LockReader(t) => s.owner.None? && t !in Waiting(s)
    case UnlockReader(t, n) => s.owner.None? && t in s.readers && t !in Waiting(s) && LegalChoice(s, n)
    case LockWriter(t) => s.owner.None? && t !in Waiting(s)
    case UnlockWriter(t, n) => t in s.writers && LegalChoice(s, n)
    case SpuriousWake(t) => t in s.sleeping
    case Reacquire(t) => s.owner.None? && t in s.woken
  }

  function Notify(s: State, n: Thread): State {
    if n in s.sleeping then s.(sleeping := s.sleeping - {n}, woken := s.woken + {n}) else s
  }

  function Apply(s: State, e: Event): State {
    match e
    case LockReader(t) =>
      s.(readers := s.readers + multiset{t})
    case UnlockReader(t, n) =>
      var left := s.(readers := s.readers - multiset{t});
      if left.readers == multiset{} && Waiting(s) != {} then Notify(left, n) else left
    case LockWriter(t) =>
      if s.readers != multiset{} then s.(sleeping := s.sleeping + {t})
      else s.(owner := Some(t), writers := s.writers + {t})
    case UnlockWriter(t, n) =>
      var left := s.(owner := None, writers := s.writers - {t});
      if Waiting(s) != {} then Notify(left, n) else left
    case SpuriousWake(t) =>
      Notify(s, t)
    case Reacquire(t) =>
      var left := s.(woken := s.woken - {t});
      if s.readers != multiset{} then left.(sleeping := s.sleeping + {t})
      else left.(owner := Some(t), writers := s.writers + {t})
  }

  /** A run is a list of events, each enabled where it happens. */
  predicate CanRun(s: State, es: seq<Event>)
    decreases es
  {
    es == [] || (Enabled(s, es[0]) && CanRun(Apply(s, es[0]), es[1..]))
  }

  function After(s: State, es: seq<Event>): State
    decreases es
  {
    if es == [] then s else After(Apply(s, es[0]), es[1..])
  }

  ghost predicate Reachable(s: State) {
    exists es :: CanRun(INIT, es) && After(INIT, es) == s
  }

  predicate Inv(s: State) {
    && s.writers == (if s.owner.Some? then {s.owner.value} else {})
    && (s.writers != {} ==> s.readers == multiset{})
    && s.sleeping !! s.woken
    && Waiting(s) !! s.writers
    && (s.sleeping != {} ==> s.readers != multiset{} || s.writers != {} || s.woken != {})
  }

  lemma StepKeepsInv(s: State, e: Event)
    requires Inv(s) && Enabled(s, e)
    ensures Inv(Apply(s, e))
  {
    match e
    case LockReader(t) => assert t in Apply(s, e).readers;
    case UnlockReader(t, n) =>
    case LockWriter(t) =>
    case UnlockWriter(t, n) =>
    case SpuriousWake(t) => assert t in Apply(s, e).woken;
    case Reacquire(t) =>
  }

  lemma {:induction false} RunKeepsInv(s: State, es: seq<Event>)
    requires Inv(s) && CanRun(s, es)
    ensures Inv(After(s, es))
    decreases es
  {
    if es != [] {
      StepKeepsInv(s, es[0]);
      RunKeepsInv(Apply(s, es[0]), es[1..]);
    }
  }

  lemma ReachableInv(s: State)
    requires Reachable(s)
    ensures Inv(s)
  {
    var es :| CanRun(INIT, es) && After(INIT, es) == s;
    RunKeepsInv(INIT, es);
  }

  /** Mutual exclusion over all interleavings, spurious wake-ups included. */
  lemma MutualExclusion(s: State)
    requires Reachable(s)
    ensures |s.writers| <= 1
    ensures s.writers != {} ==> s.readers == multiset{}
    ensures s.sleeping !! s.woken && Waiting(s) !! s.writers
  {
    ReachableInv(s);
  }

  /** Whether thread t has asked for the write lock and not given it back, if it had or
      not before the run. */
  predicate Asks(before: bool, es: seq<Event>, t: Thread)
    decreases es
  {
    if es == [] then before
    else Asks(es[0] == LockWriter(t) || (before && !(es[0].UnlockWriter? && es[0].t == t)), es[1..], t)
  }

  /** How many read locks it has taken and not given back. */
  function Reads(before: int, es: seq<Event>, t: Thread): int
    decreases es
  {
    if es == [] then before
    else Reads(before + (if es[0] == LockReader(t) then 1 else if es[0].UnlockReader? && es[0].t == t then -1 else 0), es[1..], t)
  }

  lemma WritersStay(s: State, e: Event, t: Thread)
    requires Inv(s) && Enabled(s, e)
    ensures t in Apply(s, e).writers + Waiting(Apply(s, e)) <==>
      e == LockWriter(t) || (t in s.writers + Waiting(s) && !(e.UnlockWriter? && e.t == t))
  {
    match e
    case UnlockReader(u, n) => NotifyKeepsWaiting(s.(readers := s.readers - multiset{u}), n);
    case UnlockWriter(u, n) => NotifyKeepsWaiting(s.(owner := None, writers := s.writers - {u}), n);
    case SpuriousWake(u) => NotifyKeepsWaiting(s, u);
    case _ =>
  }

  lemma NotifyKeepsWaiting(s: State, n: Thread)
    ensures Waiting(Notify(s, n)) == Waiting(s)
  {
  }

  lemma ReadersStay(s: State, e: Event, t: Thread)
    requires Enabled(s, e)
    ensures Apply(s, e).readers[t]
      == s.readers[t] + (if e == LockReader(t) then 1 else if e.UnlockReader? && e.t == t then -1 else 0)
  {
  }

  /** Nothing gets lost: whoever has asked for the write lock has it or waits for it,
      until it is given back, and whoever has taken a read lock has it until then. */
  lemma {:induction false} LocksAreAccounted(s: State, es: seq<Event>, t: Thread)
    requires Inv(s) && CanRun(s, es)
    ensures t in After(s, es).writers + Waiting(After(s, es)) <==> Asks(t in s.writers + Waiting(s), es, t)
    ensures After(s, es).readers[t] == Reads(s.readers[t], es, t)
    decreases es
  {
    if es != [] {
      StepKeepsInv(s, es[0]);
      WritersStay(s, es[0], t);
      ReadersStay(s, es[0], t);
      LocksAreAccounted(Apply(s, es[0]), es[1..], t);
    }
  }

  /** Events that only finish what has been requested: no new lock, no spurious wake-up. */
  predicate Drains(e: Event) {
    e.UnlockReader? || e.UnlockWriter? || e.Reacquire?
  }

  ghost predicate Quiescent(s: State) {
    forall e :: Drains(e) ==> !Enabled(s, e)
  }

  /** A thread that waits for the write lock while it holds a read lock blocks itself. */
  predicate SelfBlocked(s: State, t: Thread) {
    t in s.readers && t in Waiting(s)
  }

  /** No wake-up is lost: with a writer asleep and no thread blocking itself,
      some unlock or re-acquisition can happen, and a re-acquisition is only
      missing while a lock is held. */
  lemma NoLostWakeup(s: State)
    requires Reachable(s) && s.sleeping != {}
    ensures s.readers != multiset{} || s.writers != {} || (s.woken != {} && forall t <- s.woken :: Enabled(s, Reacquire(t)))
    ensures (forall t :: !SelfBlocked(s, t)) ==> !Quiescent(s)
  {
    ReachableInv(s);
    var n :| n in s.sleeping;
    if t :| t in s.writers {
      assert Drains(UnlockWriter(t, n)) && Enabled(s, UnlockWriter(t, n));
    } else if t :| t in s.woken {
      assert Drains(Reacquire(t)) && Enabled(s, Reacquire(t));
    } else {
      var t :| t in s.readers;
      if !SelfBlocked(s, t) {
        assert Drains(UnlockReader(t, n)) && Enabled(s, UnlockReader(t, n));
      }
    }
  }

  /** What a state with nothing left to do looks like, exactly. */
  lemma QuiescentShape(s: State)
    requires Reachable(s)
    ensures Quiescent(s) <==> s.writers == {} && s.woken == {} && forall t :: t in s.readers ==> t in s.sleeping
    ensures Quiescent(s) && (forall t :: !SelfBlocked(s, t)) ==> s.readers == multiset{} && Waiting(s) == {}
  {
    ReachableInv(s);
    var n: Thread := if s.sleeping != {} then var n :| n in s.sleeping; n else 0;
    if Quiescent(s) {
      if t :| t in s.writers { assert Drains(UnlockWriter(t, n)) && Enabled(s, UnlockWriter(t, n)); }
      if t :| t in s.woken { assert Drains(Reacquire(t)) && Enabled(s, Reacquire(t)); }
      forall t | t in s.readers ensures t in s.sleeping {
        assert Drains(UnlockReader(t, n));
      }
      if (forall t :: !SelfBlocked(s, t)) && s.readers != multiset{} {
        var t :| t in s.readers;
        assert SelfBlocked(s, t);
      }
    }
  }

  function Measure(s: State): nat {
    2 * |s.readers| + 2 * |s.sleeping| + 3 * |s.woken| + 2 * |s.writers|
  }

  lemma DrainDecreases(s: State, e: Event)
    requires Inv(s) && Enabled(s, e) && Drains(e)
    ensures Measure(Apply(s, e)) < Measure(s)
  {
    match e
    case UnlockReader(t, n) =>
      var left := s.(readers := s.readers - multiset{t});
      assert |left.readers| == |s.readers| - 1;
      NotifyCost(left, n);
    case UnlockWriter(t, n) =>
      var left := s.(owner := None, writers := s.writers - {t});
      assert |left.writers| == |s.writers| - 1;
      NotifyCost(left, n);
    case Reacquire(t) => ReacquireDecreases(s, t);
  }

  lemma ReacquireDecreases(s: State, t: Thread)
    requires t in s.woken
    ensures Measure(Apply(s, Reacquire(t))) < Measure(s)
  {
    assert |s.woken - {t}| == |s.woken| - 1;
    assert |s.sleeping + {t}| <= |s.sleeping| + 1;
    assert |s.writers + {t}| <= |s.writers| + 1;
  }

  lemma NotifyCost(s: State, n: Thread)
    ensures Measure(Notify(s, n)) <= Measure(s) + 1
  {
    if n in s.sleeping {
      assert |s.sleeping - {n}| == |s.sleeping| - 1;
      assert |s.woken + {n}| <= |s.woken| + 1;
    }
  }

  predicate Draining(es: seq<Event>) {
    forall e <- es :: Drains(e)
  }

  /** With no new requests and no spurious wake-ups every run stops. */
  lemma {:induction false} DrainTerminates(s: State, es: seq<Event>)
    requires Inv(s) && CanRun(s, es) && Draining(es)
    ensures |es| <= Measure(s)
    decreases es
  {
    if es != [] {
      assert Drains(es[0]);
      DrainDecreases(s, es[0]);
      StepKeepsInv(s, es[0]);
      DrainTerminates(Apply(s, es[0]), es[1..]);
    }
  }

  /** Thread t holds the write lock at some point of the run. */
  predicate Served(s: State, es: seq<Event>, t: Thread)
    decreases es
  {
    t in s.writers || (es != [] && Served(Apply(s, es[0]), es[1..], t))
  }

  lemma {:induction false} WaiterStaysOrIsServed(s: State, es: seq<Event>, t: Thread)
    requires Inv(s) && CanRun(s, es) && t in Waiting(s)
    ensures Served(s, es, t) || t in Waiting(After(s, es))
    decreases es
  {
    if es != [] {
      StepKeepsInv(s, es[0]);
      var s' := Apply(s, es[0]);
      if t in Waiting(s') {
        WaiterStaysOrIsServed(s', es[1..], t);
      } else {
        assert t in s'.writers;
      }
    }
  }

  /** Such a thread only has to ask: first for a read lock, then for the write lock. */
  lemma SelfBlockedIsReachable(t: Thread)
    ensures var es := [LockReader(t), LockWriter(t)];
      CanRun(INIT, es) && Reachable(After(INIT, es)) && SelfBlocked(After(INIT, es), t)
  {
    var es := [LockReader(t), LockWriter(t)];
    var s := Apply(INIT, LockReader(t));
    var s' := Apply(s, LockWriter(t));
    assert es[1..] == [LockWriter(t)] && es[1..][1..] == [];
    assert CanRun(s', []) && After(s', []) == s';
    assert CanRun(s, es[1..]) && After(s, es[1..]) == s';
    assert CanRun(INIT, es) && After(INIT, es) == s';
  }

  /** It never gets the write lock, as long as read locks are released by the threads
      that took them. */
  lemma {:induction false} SelfBlockedForever(s: State, es: seq<Event>, t: Thread)
    requires Inv(s) && CanRun(s, es) && SelfBlocked(s, t)
    ensures SelfBlocked(After(s, es), t) && !Served(s, es, t)
    decreases es
  {
    if es != [] {
      StepKeepsInv(s, es[0]);
      SelfBlockedForever(Apply(s, es[0]), es[1..], t);
    }
  }

  /** A writer sleeps in every state of the run. */
  predicate Asleep(s: State, es: seq<Event>, w: Thread)
    decreases es
  {
    w in s.sleeping && (es == [] || Asleep(Apply(s, es[0]), es[1..], w))
  }

  /** n events of readers x and y, who relieve each other without a gap; x starts out
      with the lock. */
  function Relay(x: Thread, y: Thread, w: Thread, n: nat): (es: seq<Event>)
    ensures |es| == n && forall e <- es :: e.LockReader? || e.UnlockReader?
    decreases n
  {
    if n == 0 then [] else if n == 1 then [LockReader(y)]
    else [LockReader(y)] + ([UnlockReader(x, w)] + Relay(y, x, w, n - 2))
  }

  /** x has the only lock, w sleeps, and the readers are not waiting themselves. */
  predicate Relaying(s: State, x: Thread, y: Thread, w: Thread) {
    s.owner == None && s.readers == multiset{x} && w in s.sleeping && x !in Waiting(s) && y !in Waiting(s)
  }

  lemma RelayStep(s: State, x: Thread, y: Thread, w: Thread) returns (s': State, s'': State)
    requires Relaying(s, x, y, w)
    ensures s' == Apply(s, LockReader(y)) && Enabled(s, LockReader(y))
    ensures s'' == Apply(s', UnlockReader(x, w)) && Enabled(s', UnlockReader(x, w))
    ensures w in s'.sleeping && Relaying(s'', y, x, w)
  {
    s' := Apply(s, LockReader(y));
    assert s'.readers == multiset{x, y};
    s'' := Apply(s', UnlockReader(x, w));
    assert s''.readers == multiset{y};
  }

  lemma {:induction false} RelayOvertakes(s: State, x: Thread, y: Thread, w: Thread, n: nat)
    requires Relaying(s, x, y, w)
    ensures CanRun(s, Relay(x, y, w, n)) && Asleep(s, Relay(x, y, w, n), w)
    decreases n
  {
    var s', s'' := RelayStep(s, x, y, w);
    if n == 1 {
      RunOn(s, LockReader(y), [], w);
    } else if n > 1 {
      var es := Relay(y, x, w, n - 2);
      RelayOvertakes(s'', y, x, w, n - 2);
      RunOn(s', UnlockReader(x, w), es, w);
      RunOn(s, LockReader(y), [UnlockReader(x, w)] + es, w);
    }
  }

  lemma RunOn(s: State, e: Event, es: seq<Event>, w: Thread)
    requires Enabled(s, e) && CanRun(Apply(s, e), es)
    ensures CanRun(s, [e] + es) && After(s, [e] + es) == After(Apply(s, e), es)
    ensures w in s.sleeping && Asleep(Apply(s, e), es, w) ==> Asleep(s, [e] + es, w)
  {
    assert ([e] + es)[0] == e && ([e] + es)[1..] == es;
  }

  /** While readers keep coming, a writer can be overtaken by any number of them: from a
      reachable state, a run of n reader events through which it sleeps. */
  lemma ReadersOvertake(x: Thread, y: Thread, w: Thread, n: nat) returns (s: State, es: seq<Event>)
    requires x != w && y != w
    ensures Reachable(s) && CanRun(s, es) && Asleep(s, es, w)
    ensures |es| == n && forall e <- es :: e.LockReader? || e.UnlockReader?
  {
    var s' := Apply(INIT, LockReader(x));
    s := Apply(s', LockWriter(w));
    RunOn(s', LockWriter(w), [], w);
    RunOn(INIT, LockReader(x), [LockWriter(w)] + [], w);
    assert Reachable(s) by {
      assert CanRun(INIT, [LockReader(x)] + ([LockWriter(w)] + [])) && After(INIT, [LockReader(x)] + ([LockWriter(w)] + [])) == s;
    }
    es := Relay(x, y, w, n);
    RelayOvertakes(s, x, y, w, n);
  }

  lemma {:induction false} DrainBlocksNobody(s: State, es: seq<Event>)
    requires Inv(s) && CanRun(s, es) && Draining(es) && forall t :: !SelfBlocked(s, t)
    ensures forall t :: !SelfBlocked(After(s, es), t)
    decreases es
  {
    if es != [] {
      assert Drains(es[0]);
      StepKeepsInv(s, es[0]);
      var s' := Apply(s, es[0]);
      forall t ensures !SelfBlocked(s', t) {
        assert !SelfBlocked(s, t);
      }
      DrainBlocksNobody(s', es[1..]);
    }
  }

  lemma {:induction false} RunsCompose(s: State, es: seq<Event>, fs: seq<Event>)
    requires CanRun(s, es) && CanRun(After(s, es), fs)
    ensures CanRun(s, es + fs) && After(s, es + fs) == After(After(s, es), fs)
    decreases es
  {
    if es == [] {
      assert es + fs == fs;
    } else {
      assert (es + fs)[1..] == es[1..] + fs;
      RunsCompose(Apply(s, es[0]), es[1..], fs);
    }
  }

  /** When the lock is drained, every waiting writer has held the lock, unless
      a waiting thread holds a read lock itself; and then not all have. */
  lemma AllServedIff(s: State, es: seq<Event>)
    requires Reachable(s) && CanRun(s, es) && Draining(es) && Quiescent(After(s, es))
    ensures (forall t <- Waiting(s) :: Served(s, es, t)) <==> (forall t :: !SelfBlocked(s, t))
    ensures (forall t :: !SelfBlocked(s, t)) ==> After(s, es) == INIT
  {
    ReachableInv(s);
    if t :| SelfBlocked(s, t) {
      SelfBlockedForever(s, es, t);
    } else {
      var past :| CanRun(INIT, past) && After(INIT, past) == s;
      RunsCompose(INIT, past, es);
      assert Reachable(After(s, es));
      DrainBlocksNobody(s, es);
      QuiescentShape(After(s, es));
      ReachableInv(After(s, es));
      forall t | t in Waiting(s) ensures Served(s, es, t) {
        WaiterStaysOrIsServed(s, es, t);
      }
    }
  }

  lemma CountersDecide(s: State, n: Thread)
    requires s.sleeping !! s.woken
    ensures |s.sleeping| + |s.woken| > 0 <==> Waiting(s) != {}
    ensures |s.readers| == 0 <==> s.readers == multiset{}
    ensures |Notify(s, n).sleeping| + |Notify(s, n).woken| == |s.sleeping| + |s.woken|
  {
  }

  /** The lock with the fields of the source. The mutex and the condition
      variable appear as the thread that holds the one and the threads asleep
      in the other; the ghost field follows the events. */
  class RWMutex {
    var readLocks: int
    var pendingWriteLocks: int
    var mutexOwner: Option<Thread>
    var cvSleepers: set<Thread>
    ghost var state: State

    ghost predicate Valid()
      reads this
    {
      && Inv(state)
      && readLocks == |state.readers|
      && pendingWriteLocks == |state.sleeping| + |state.woken|
      && mutexOwner == state.owner
      && cvSleepers == state.sleeping
    }

    constructor ()
      ensures Valid() && state == INIT
    {
      readLocks, pendingWriteLocks := 0, 0;
      mutexOwner, cvSleepers := None, {};
      state := INIT;
    }

    method LockReader(t: Thread)
      requires Valid() && Enabled(state, Event.LockReader(t))
      modifies this
      ensures Valid() && state == Apply(old(state), Event.LockReader(t))
    {
      StepKeepsInv(state, Event.LockReader(t));
      readLocks := readLocks + 1;
      state := Apply(state, Event.LockReader(t));
    }

    method UnlockReader(t: Thread, notified: Thread)
      requires Valid() && Enabled(state, Event.UnlockReader(t, notified))
      modifies this
      ensures Valid() && state == Apply(old(state), Event.UnlockReader(t, notified))
    {
      StepKeepsInv(state, Event.UnlockReader(t, notified));
      CountersDecide(state.(readers := state.readers - multiset{t}), notified);
      readLocks := readLocks - 1;
      if readLocks == 0 && pendingWriteLocks > 0 {
        NotifyOne(notified);
      }
      state := Apply(state, Event.UnlockReader(t, notified));
    }

    /** lockWriter up to its return, or up to the point where it sleeps. */
    method LockWriter(t: Thread) returns (locked: bool)
      requires Valid() && Enabled(state, Event.LockWriter(t))
      modifies this
      ensures Valid() && state == Apply(old(state), Event.LockWriter(t))
      ensures locked <==> t in state.writers
    {
      StepKeepsInv(state, Event.LockWriter(t));
      if readLocks > 0 {
        pendingWriteLocks := pendingWriteLocks + 1;
        cvSleepers := cvSleepers + {t};
        locked := false;
      } else {
        mutexOwner := Some(t);
        locked := true;
      }
      state := Apply(state, Event.LockWriter(t));
    }

    /** A woken thread takes the mutex again and tests the wait's predicate. */
    method LockWriterWoken(t: Thread) returns (locked: bool)
      requires Valid() && Enabled(state, Event.Reacquire(t))
      modifies this
      ensures Valid() && state == Apply(old(state), Event.Reacquire(t))
      ensures locked <==> t in state.writers
    {
      StepKeepsInv(state, Event.Reacquire(t));
      if readLocks == 0 {
        pendingWriteLocks := pendingWriteLocks - 1;
        mutexOwner := Some(t);
        locked := true;
      } else {
        cvSleepers := cvSleepers + {t};
        locked := false;
      }
      state := Apply(state, Event.Reacquire(t));
    }

    method UnlockWriter(t: Thread, notified: Thread)
      requires Valid() && Enabled(state, Event.UnlockWriter(t, notified))
      modifies this
      ensures Valid() && state == Apply(old(state), Event.UnlockWriter(t, notified))
    {
      StepKeepsInv(state, Event.UnlockWriter(t, notified));
      CountersDecide(state.(owner := None, writers := state.writers - {t}), notified);
      if pendingWriteLocks > 0 {
        NotifyOne(notified);
      }
      mutexOwner := None;
      state := Apply(state, Event.UnlockWriter(t, notified));
    }

    /** cv.notify_one, with the thread the scheduler picks. */
    method NotifyOne(notified: Thread)
      modifies this`cvSleepers
      ensures cvSleepers == old(cvSleepers) - {notified}
    {
      cvSleepers := cvSleepers - {notified};
    }
  }
}
