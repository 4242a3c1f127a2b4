/**
 The in-memory pipe of 3rd/cppdap/src/io.cpp: any number of threads write and
 read bytes; a read that finds no byte sleeps and keeps what it has so far.
 */
module Pipe {
  import opened Common

  type Thread = nat

  /** A call of read that has not returned. */
  datatype Call<Byte> = Call(want: nat, got: seq<Byte>, asleep: bool)

  datatype State<Byte> = State(data: seq<Byte>, closed: bool, calls: map<Thread, Call<Byte>>)

  datatype Event<Byte> =
    | Write(bytes: seq<Byte>)
    | Close
    | Read(t: Thread, want: nat)
    | Resume(t: Thread)
    | SpuriousWake(t: Thread)

  function Init<Byte>(): State<Byte> {
    State([], false, map[])
  }

  predicate Enabled<Byte>(s: State<Byte>, e: Event<Byte>) {
    match e
    case Read(t, _) => t !in s.calls
    case Resume(t) => t in s.calls && !s.calls[t].asleep
    case SpuriousWake(t) => t in s.calls && s.calls[t].asleep
    case _ => true
  }

  function NotifyAll<Byte>(s: State<Byte>): State<Byte> {
    s.(calls := map t | t in s.calls :: s.calls[t].(asleep := false))
  }

  /** The call that an event of a reader continues. */
  function CallOf<Byte>(s: State<Byte>, e: Event<Byte>): Call<Byte>
    requires Enabled(s, e) && (e.Read? || e.Resume?)
  {
    if e.Read? then Call(e.want, [], false) else s.calls[e.t]
  }

  /** How many bytes the call takes out of the buffer before it returns or sleeps. */
  function Taken<Byte>(s: State<Byte>, c: Call<Byte>): nat {
    if s.closed || c.want < |c.got| then 0 else Min(c.want - |c.got|, |s.data|)
  }

  predicate Returns<Byte>(s: State<Byte>, c: Call<Byte>) {
    s.closed || (|s.data| > 0 && |c.got| + Taken(s, c) == c.want)
  }

  function Apply<Byte>(s: State<Byte>, e: Event<Byte>): State<Byte> {
    if !Enabled(s, e) then s else
    match e
    case Write(bytes) =>
      if s.closed || |bytes| == 0 then s
      else
        var s' := s.(data := s.data + bytes);
        if |s.data| == 0 then NotifyAll(s') else s'
    case Close => NotifyAll(s.(closed := true))
    case SpuriousWake(t) => s.(calls := s.calls[t := s.calls[t].(asleep := false)])
    case _ =>
      var c := CallOf(s, e);
      var k := Taken(s, c);
      var s' := s.(data := s.data[k..]);
      if Returns(s, c) then s'.(calls := s.calls - {e.t})
      else s'.(calls := s.calls[e.t := Call(c.want, c.got + s.data[..k], true)])
  }

  function After<Byte>(es: seq<Event<Byte>>): State<Byte> {
    if |es| == 0 then Init() else Apply(After(es[..|es| - 1]), es[|es| - 1])
  }

  predicate CanRun<Byte>(es: seq<Event<Byte>>) {
    |es| == 0 || (CanRun(es[..|es| - 1]) && Enabled(After(es[..|es| - 1]), es[|es| - 1]))
  }

  predicate Closed<Byte>(es: seq<Event<Byte>>) {
    exists i :: 0 <= i < |es| && es[i].Close?
  }

  /** The flag says what has happened. */
  lemma {:induction false} ClosedIff<Byte>(es: seq<Event<Byte>>)
    ensures After(es).closed <==> Closed(es)
  {
    if |es| > 0 {
      var before, e := es[..|es| - 1], es[|es| - 1];
      ClosedIff(before);
      if Closed(before) {
        var i :| 0 <= i < |before| && before[i].Close?;
        assert es[i].Close?;
      }
      if i :| 0 <= i < |es| && es[i].Close? {
        assert i < |before| ==> before[i].Close?;
      }
    }
  }

  /** All bytes accepted by write: those before a close. */
  function Written<Byte>(es: seq<Event<Byte>>): seq<Byte>
    requires CanRun(es)
  {
    if |es| == 0 then []
    else
      var before := es[..|es| - 1];
      var e := es[|es| - 1];
      if e.Write? && !Closed(before) then Written(before) + e.bytes else Written(before)
  }

  /** All bytes taken out of the buffer, by thread t or, for None, by anybody. */
  function Popped<Byte>(es: seq<Event<Byte>>, who: Option<Thread>): seq<Byte>
    requires CanRun(es)
  {
    if |es| == 0 then []
    else
      var before := es[..|es| - 1];
      var e := es[|es| - 1];
      var s := After(before);
      if (e.Read? || e.Resume?) && (who.None? || who.value == e.t)
      then Popped(before, who) + s.data[..Taken(s, CallOf(s, e))]
      else Popped(before, who)
  }

  /** The bytes handed to the caller when event e makes its read return. */
  function ReturnOf<Byte>(s: State<Byte>, e: Event<Byte>): Option<seq<Byte>>
    requires Enabled(s, e)
  {
    if !(e.Read? || e.Resume?) then None
    else
      var c := CallOf(s, e);
      if Returns(s, c) then Some(c.got + s.data[..Taken(s, c)]) else None
  }

  /** The results of all reads of thread t so far, one after the other. */
  function Delivered<Byte>(es: seq<Event<Byte>>, t: Thread): seq<Byte>
    requires CanRun(es)
  {
    if |es| == 0 then []
    else
      var before := es[..|es| - 1];
      var e := es[|es| - 1];
      var r := ReturnOf(After(before), e);
      if r.Some? && e.t == t then Delivered(before, t) + r.value else Delivered(before, t)
  }

  function InHand<Byte>(s: State<Byte>, t: Thread): seq<Byte> {
    if t in s.calls then s.calls[t].got else []
  }

  predicate Inv<Byte>(s: State<Byte>) {
    forall t <- s.calls ::
      && |s.calls[t].got| <= s.calls[t].want
      && (|s.calls[t].got| == s.calls[t].want ==> s.calls[t].want == 0)
      && (s.calls[t].asleep ==> |s.data| == 0 && !s.closed)
  }

  lemma StepKeepsInv<Byte>(s: State<Byte>, e: Event<Byte>)
    requires Inv(s) && Enabled(s, e)
    ensures Inv(Apply(s, e))
  {
  }

  /** A sleeping reader implies an empty, open pipe, for any number of readers. */
  lemma {:induction false} NoLostWakeup<Byte>(es: seq<Event<Byte>>)
    requires CanRun(es)
    ensures Inv(After(es))
    ensures forall t <- After(es).calls :: After(es).calls[t].asleep ==> |After(es).data| == 0 && !Closed(es)
  {
    ClosedIff(es);
    if |es| > 0 {
      NoLostWakeup(es[..|es| - 1]);
      StepKeepsInv(After(es[..|es| - 1]), es[|es| - 1]);
    }
  }

  /** A read of an open pipe returns exactly the bytes asked for. */
  lemma OpenReadIsComplete<Byte>(es: seq<Event<Byte>>, e: Event<Byte>)
    requires CanRun(es) && Enabled(After(es), e) && ReturnOf(After(es), e).Some?
    ensures |ReturnOf(After(es), e).value| <= CallOf(After(es), e).want
    ensures !Closed(es) ==> |ReturnOf(After(es), e).value| == CallOf(After(es), e).want
  {
    NoLostWakeup(es);
    ClosedIff(es);
  }

  /** After a close no reader sleeps, and each read returns when it goes on, with what
      it has got by then: what is still buffered is lost. */
  lemma ClosedReadReturns<Byte>(es: seq<Event<Byte>>, e: Event<Byte>)
    requires CanRun(es) && Closed(es) && Enabled(After(es), e) && (e.Read? || e.Resume?)
    ensures forall t <- After(es).calls :: !After(es).calls[t].asleep
    ensures ReturnOf(After(es), e) == Some(InHand(After(es), e.t)) && Apply(After(es), e).data == After(es).data
  {
    NoLostWakeup(es);
    ClosedIff(es);
    var c := CallOf(After(es), e);
    assert c.got == InHand(After(es), e.t) && c.got + After(es).data[..0] == c.got;
  }

  /** Bytes leave the pipe in the order they were written, whoever reads them. */
  lemma {:induction false} PoppedInOrder<Byte>(es: seq<Event<Byte>>)
    requires CanRun(es)
    ensures Popped(es, None) + After(es).data == Written(es)
  {
    if |es| > 0 {
      var before := es[..|es| - 1];
      var e := es[|es| - 1];
      var s := After(before);
      PoppedInOrder(before);
      ClosedIff(before);
      if e.Write? {
        assert Popped(before, None) + (s.data + e.bytes) == Popped(before, None) + s.data + e.bytes;
        assert |e.bytes| == 0 ==> Written(before) + e.bytes == Written(before);
      } else if e.Read? || e.Resume? {
        var k := Taken(s, CallOf(s, e));
        assert s.data == s.data[..k] + s.data[k..];
      }
    }
  }

  /** A reader gets exactly the bytes it took out, complete reads first. */
  lemma {:induction false} ReaderKeepsItsBytes<Byte>(es: seq<Event<Byte>>, t: Thread)
    requires CanRun(es)
    ensures Delivered(es, t) + InHand(After(es), t) == Popped(es, Some(t))
  {
    if |es| > 0 {
      var before := es[..|es| - 1];
      var e := es[|es| - 1];
      var s := After(before);
      ReaderKeepsItsBytes(before, t);
      if (e.Read? || e.Resume?) && e.t == t {
        var c := CallOf(s, e);
        var chunk := s.data[..Taken(s, c)];
        assert c.got == InHand(s, t);
        assert Delivered(before, t) + (c.got + chunk) == Delivered(before, t) + c.got + chunk;
      }
    }
  }

  ghost predicate OnlyReader<Byte>(es: seq<Event<Byte>>, t: Thread) {
    forall e <- es :: e.Read? || e.Resume? ==> e.t == t
  }

  lemma {:induction false} OnlyReaderPopsAll<Byte>(es: seq<Event<Byte>>, t: Thread)
    requires CanRun(es) && OnlyReader(es, t)
    ensures Popped(es, Some(t)) == Popped(es, None)
  {
    if |es| > 0 {
      OnlyReaderPopsAll(es[..|es| - 1], t);
      assert es[|es| - 1] in es;
    }
  }

  /** With one reader and any number of writers: delivered, in hand and still
      buffered, one after the other, are the bytes written. */
  lemma Conservation<Byte>(es: seq<Event<Byte>>, t: Thread)
    requires CanRun(es) && OnlyReader(es, t)
    ensures Delivered(es, t) + InHand(After(es), t) + After(es).data == Written(es)
  {
    OnlyReaderPopsAll(es, t);
    ReaderKeepsItsBytes(es, t);
    PoppedInOrder(es);
  }

  /** The pipe with the fields of the source. */
  class PipeBuffer<Byte> {
    var data: seq<Byte>
    var closed: bool
    ghost var calls: map<Thread, Call<Byte>>

    constructor ()
      ensures Abstract() == Init()
    {
      data, closed, calls := [], false, map[];
    }

    ghost function Abstract(): State<Byte>
      reads this
    {
      State(data, closed, calls)
    }

    method CloseBoth()
      modifies this
      ensures Abstract() == Apply(old(Abstract()), Close)
    {
      closed := true;
      NotifySleepers();
    }

    method WriteBytes(bytes: seq<Byte>) returns (ok: bool)
      modifies this
      ensures Abstract() == Apply(old(Abstract()), Write(bytes))
      ensures ok == !old(closed)
    {
      if closed {
        return false;
      }
      if |bytes| == 0 {
        return true;
      }
      var notify := |data| == 0;
      for i := 0 to |bytes|
        invariant data == old(data) + bytes[..i] && closed == old(closed) && calls == old(calls)
      {
        data := data + [bytes[i]];
      }
      assert bytes[..|bytes|] == bytes;
      if notify {
        NotifySleepers();
      }
      return true;
    }

    /** One pass of the read loop of thread t, which has got so far: from a
        wait that ends to the next sleep, or to the return. */
    method ReadPass(t: Thread, want: nat, soFar: seq<Byte>, resumed: bool) returns (r: Option<seq<Byte>>)
      requires Inv(Abstract())
      requires resumed ==> t in calls && calls[t] == Call(want, soFar, false)
      requires !resumed ==> t !in calls && soFar == []
      modifies this
      ensures var e := if resumed then Resume(t) else Read(t, want);
        Abstract() == Apply(old(Abstract()), e) && r == ReturnOf(old(Abstract()), e)
    {
      var out := soFar;
      var n := |out|;
      ghost var c := Call(want, soFar, false);
      while true
        invariant n == |out| <= want && closed == old(closed)
        invariant calls == old(calls)
        invariant (out == soFar && data == old(data)) ||
          (!closed && !Returns(old(Abstract()), c) && data == [] && out == soFar + old(data))
        decreases |data|
      {
        if !closed && |data| == 0 {
          assert out == soFar + old(data)[..|old(data)|];
          calls := calls[t := Call(want, out, true)];
          return None;
        }
        if closed {
          assert out == soFar + old(data)[..0];
          calls := calls - {t};
          return Some(out);
        }
        while n < want && |data| > 0
          invariant closed == old(closed) && calls == old(calls)
          invariant n == |out| <= want && n - |soFar| <= |old(data)|
          invariant out == soFar + old(data)[..n - |soFar|] && data == old(data)[n - |soFar|..]
        {
          out := out + [data[0]];
          data := data[1..];
          n := n + 1;
        }
        if n == want {
          calls := calls - {t};
          return Some(out);
        }
      }
    }

    /** cv.notify_all */
    ghost method NotifySleepers()
      modifies this`calls
      ensures Abstract() == NotifyAll(old(Abstract()))
    {
      calls := map t | t in calls :: calls[t].(asleep := false);
    }
  }
}
