/**
 The blocking queue of 3rd/cppdap/src/chan.h, with any number of threads that
 put, take, close and reset. An event is one critical section; a taker that
 finds nothing sleeps, and put wakes sleepers only when the queue was empty.
 */
module Chan {
  import opened Common

  type Thread = nat

  datatype State<T> = State(queue: seq<T>, closed: bool, sleeping: set<Thread>, woken: set<Thread>)

  datatype Event<T> =
    | Put(item: T)
    | Close
    | Reset
    | Take(t: Thread)          // take() up to its return, or up to the point where it sleeps
    | Resume(t: Thread)        // a woken taker holds the mutex again
    | SpuriousWake(t: Thread)

  function Init<T>(): State<T> {
    State([], false, {}, {})
  }

  predicate Enabled<T>(s: State<T>, e: Event<T>) {
    match e
    case Take(t) => t !in s.sleeping && t !in s.woken
    case Resume(t) => t in s.woken
    case SpuriousWake(t) => t in s.sleeping
    case _ => true
  }

  function NotifyAll<T>(s: State<T>): State<T> {
    s.(sleeping := {}, woken := s.woken + s.sleeping)
  }

  /** A taker that holds the mutex: it sleeps, gives up, or pops the front. */
  function Attempt<T>(s: State<T>, t: Thread): State<T> {
    if |s.queue| == 0 && !s.closed then s.(sleeping := s.sleeping + {t})
    else if |s.queue| == 0 then s
    else s.(queue := s.queue[1..])
  }

  function Apply<T>(s: State<T>, e: Event<T>): State<T> {
    match e
    case Put(x) =>
      var s' := s.(queue := s.queue + [x]);
      if |s.queue| == 0 && !s.closed then NotifyAll(s') else s'
    case Close => NotifyAll(s.(closed := true))
    case Reset => s.(queue := [], closed := false)
    case Take(t) => Attempt(s, t)
    case Resume(t) => Attempt(s.(woken := s.woken - {t}), t)
    case SpuriousWake(t) => s.(sleeping := s.sleeping - {t}, woken := s.woken + {t})
  }

  /** What an event returns to its caller: nothing while it sleeps. */
  datatype Outcome<T> = NoReturn | Returned(result: Option<T>)

  function Return<T>(s: State<T>, e: Event<T>): Outcome<T> {
    if !(e.Take? || e.Resume?) then NoReturn
    else if |s.queue| > 0 then Returned(Some(s.queue[0]))
    else if s.closed then Returned(None)
    else NoReturn
  }

  /** The states of a run that starts in Init; the last event is es[|es| - 1]. */
  function After<T>(es: seq<Event<T>>): State<T> {
    if |es| == 0 then Init() else Apply(After(es[..|es| - 1]), es[|es| - 1])
  }

  predicate CanRun<T>(es: seq<Event<T>>) {
    |es| == 0 || (CanRun(es[..|es| - 1]) && Enabled(After(es[..|es| - 1]), es[|es| - 1]))
  }

  /** The items put since the last reset, in order. */
  function Puts<T>(es: seq<Event<T>>): seq<T> {
    if |es| == 0 || es[|es| - 1].Reset? then []
    else
      var before := Puts(es[..|es| - 1]);
      if es[|es| - 1].Put? then before + [es[|es| - 1].item] else before
  }

  /** The items returned since the last reset by all takers together, in order. */
  function Takes<T>(es: seq<Event<T>>): seq<T> {
    if |es| == 0 || es[|es| - 1].Reset? then []
    else
      var before := Takes(es[..|es| - 1]);
      var r := Return(After(es[..|es| - 1]), es[|es| - 1]);
      if r.Returned? && r.result.Some? then before + [r.result.value] else before
  }

  predicate Inv<T>(s: State<T>) {
    s.sleeping !! s.woken && (s.sleeping != {} ==> |s.queue| == 0 && !s.closed)
  }

  lemma StepKeepsInv<T>(s: State<T>, e: Event<T>)
    requires Inv(s) && Enabled(s, e)
    ensures Inv(Apply(s, e))
  {
  }

  /** put notifies only on the empty, open queue, and still no taker sleeps
      through an item or through close. */
  lemma {:induction false} NoLostWakeup<T>(es: seq<Event<T>>)
    requires CanRun(es)
    ensures Inv(After(es))
    ensures After(es).sleeping != {} ==> |After(es).queue| == 0 && !After(es).closed
    decreases es
  {
    if |es| > 0 {
      NoLostWakeup(es[..|es| - 1]);
      StepKeepsInv(After(es[..|es| - 1]), es[|es| - 1]);
    }
  }

  /** Every item is taken at most once and in put order: what was taken,
      followed by what is queued, is what was put. */
  lemma {:induction false} FirstInFirstOut<T>(es: seq<Event<T>>)
    requires CanRun(es)
    ensures Takes(es) + After(es).queue == Puts(es)
  {
    if |es| > 0 {
      var before := es[..|es| - 1];
      FirstInFirstOut(before);
      var s := After(before);
      match es[|es| - 1]
      case Put(x) => assert Takes(before) + (s.queue + [x]) == Takes(before) + s.queue + [x];
      case Take(t) => if |s.queue| > 0 { assert s.queue == [s.queue[0]] + s.queue[1..]; }
      case Resume(t) => if |s.queue| > 0 { assert s.queue == [s.queue[0]] + s.queue[1..]; }
      case _ =>
    }
  }

  /** A close with no reset behind it. */
  predicate Closed<T>(es: seq<Event<T>>) {
    exists i :: 0 <= i < |es| && es[i].Close? && forall j | i < j < |es| :: !es[j].Reset?
  }

  /** The flag says what has happened. */
  lemma {:induction false} ClosedIff<T>(es: seq<Event<T>>)
    ensures After(es).closed <==> Closed(es)
  {
    if |es| > 0 {
      var before, e := es[..|es| - 1], es[|es| - 1];
      ClosedIff(before);
      if Closed(before) {
        var i :| 0 <= i < |before| && before[i].Close? && forall j | i < j < |before| :: !before[j].Reset?;
        assert es[i].Close? && (!e.Reset? ==> forall j | i < j < |es| :: !es[j].Reset?);
      }
      if Closed(es) {
        var i :| 0 <= i < |es| && es[i].Close? && forall j | i < j < |es| :: !es[j].Reset?;
        assert i < |before| ==> before[i].Close? && !e.Reset? && forall j | i < j < |before| :: !before[j].Reset?;
      }
      assert e.Close? ==> es[|es| - 1].Close?;
    }
  }

  /** take returns none exactly on a queue that has been closed and whose every item
      has been taken, and sleeps exactly on one that has not and is empty. */
  lemma NoneMeansClosedAndDrained<T>(es: seq<Event<T>>, e: Event<T>)
    requires CanRun(es) && Enabled(After(es), e) && (e.Take? || e.Resume?)
    ensures Return(After(es), e) == Returned(None) <==> Closed(es) && Takes(es) == Puts(es)
    ensures Return(After(es), e) == NoReturn <==> !Closed(es) && Takes(es) == Puts(es)
    ensures Return(After(es), e) == NoReturn <==> e.t in Apply(After(es), e).sleeping
  {
    NoLostWakeup(es);
    FirstInFirstOut(es);
    ClosedIff(es);
    if Takes(es) == Puts(es) {
      assert |Takes(es)| + |After(es).queue| == |Puts(es)|;
    }
  }

  /** Thread t has called take, which has not returned. */
  predicate InTake<T>(es: seq<Event<T>>, t: Thread) {
    |es| > 0 &&
    var before, e := es[..|es| - 1], es[|es| - 1];
    if (e.Take? || e.Resume?) && e.t == t then Return(After(before), e) == NoReturn else InTake(before, t)
  }

  /** Whoever is inside take sleeps or has been woken, and nobody else. */
  lemma {:induction false} TakersStay<T>(es: seq<Event<T>>, t: Thread)
    requires CanRun(es)
    ensures InTake(es, t) <==> t in After(es).sleeping + After(es).woken
  {
    if |es| > 0 {
      NoLostWakeup(es[..|es| - 1]);
      TakersStay(es[..|es| - 1], t);
    }
  }

  /** Once it has been closed, and until a reset, no taker sleeps: whoever is inside
      take can go on, and every take returns. */
  lemma ClosedReleasesAll<T>(es: seq<Event<T>>, t: Thread)
    requires CanRun(es) && Closed(es)
    ensures After(es).sleeping == {}
    ensures InTake(es, t) ==> Enabled(After(es), Resume(t)) && Return(After(es), Resume(t)).Returned?
    ensures !InTake(es, t) ==> Enabled(After(es), Take(t)) && Return(After(es), Take(t)).Returned?
  {
    NoLostWakeup(es);
    ClosedIff(es);
    TakersStay(es, t);
  }

  /** The channel with the fields of the source; the condition variable appears
      as the set of threads asleep in it. */
  class Channel<T> {
    var closed: bool
    var queue: seq<T>
    var cvSleepers: set<Thread>
    ghost var woken: set<Thread>

    constructor ()
      ensures Abstract() == Init()
    {
      closed, queue, cvSleepers, woken := false, [], {}, {};
    }

    ghost function Abstract(): State<T>
      reads this
    {
      State(queue, closed, cvSleepers, woken)
    }

    method ResetAll()
      modifies this
      ensures Abstract() == Apply(old(Abstract()), Reset)
    {
      queue := [];
      closed := false;
    }

    method CloseAll()
      modifies this
      ensures Abstract() == Apply(old(Abstract()), Close)
    {
      closed := true;
      NotifySleepers();
    }

    method Push(item: T)
      modifies this
      ensures Abstract() == Apply(old(Abstract()), Put(item))
    {
      var notify := |queue| == 0 && !closed;
      queue := queue + [item];
      if notify {
        NotifySleepers();
      }
    }

    /** take(), from the call or, when resumed, from the end of the wait. */
    method Pop(t: Thread, resumed: bool) returns (r: Outcome<T>)
      requires Enabled(Abstract(), if resumed then Resume(t) else Take(t))
      modifies this
      ensures var e := if resumed then Resume(t) else Take(t);
        Abstract() == Apply(old(Abstract()), e) && r == Return(old(Abstract()), e)
    {
      if resumed {
        woken := woken - {t};
      }
      if !(|queue| > 0 || closed) {
        cvSleepers := cvSleepers + {t};
        return NoReturn;
      }
      if |queue| == 0 {
        return Returned(None);
      }
      var out := queue[0];
      queue := queue[1..];
      return Returned(Some(out));
    }

    /** cv.notify_all */
    method NotifySleepers()
      modifies this`cvSleepers, this`woken
      ensures cvSleepers == {} && woken == old(woken) + old(cvSleepers)
    {
      woken := woken + cvSleepers;
      cvSleepers := {};
    }
  }
}
