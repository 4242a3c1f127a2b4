/**
 How 3rd/cppdap/src/session.cpp finds the handler of a response: sequence numbers
 from a 32-bit counter shared by all senders, and a map from the number of a
 request to its handler. Any number of threads send; the peer answers anything.

 The k-th number that is drawn names its request and its handler.
 */
module Correlation {
  import opened Common
  import opened Serialization
  import opened Messages

  type Thread = nat

  const WRAP := 0x1_0000_0000

  /** nextSeq++ for the k-th time, from 1 on. */
  function Drawn(k: nat): nat {
    (k + 1) % WRAP
  }

  /** A request keeps its number in an int; events and responses do not. */
  function AsInt(n: nat): int {
    if n < WRAP / 2 then n else n - WRAP
  }

  datatype Sort = Request | EventOrResponse

  function SeqOf(sort: Sort, k: nat): int {
    if sort == Request then AsInt(Drawn(k)) else Drawn(k)
  }

  /** The k-th number from 0 on is k + 1 modulo the period: unsigned in events and
      responses, signed in requests. */
  lemma SeqIsCount(sort: Sort, k: nat)
    ensures (SeqOf(sort, k) - (k + 1)) % WRAP == 0
    ensures if sort == Request then -WRAP / 2 <= SeqOf(sort, k) < WRAP / 2 else 0 <= SeqOf(sort, k) < WRAP
  {
    SameRemainderIff(SeqOf(EventOrResponse, k), k + 1);
    if sort == Request && Drawn(k) >= WRAP / 2 {
      assert (SeqOf(sort, k) - (k + 1)) == Drawn(k) - (k + 1) - WRAP;
      MultipleLess(Drawn(k) - (k + 1));
    }
  }

  lemma MultipleLess(n: int)
    requires n % WRAP == 0
    ensures (n - WRAP) % WRAP == 0
  {
  }

  lemma SeqsDiffer(a: Sort, i: nat, b: Sort, j: nat)
    requires i < j < WRAP
    ensures SeqOf(a, i) != SeqOf(b, j)
  {
  }

  /** All messages of a session have different numbers exactly if there are no
      more than the counter can tell apart. */
  lemma SeqsDistinctIff(sorts: seq<Sort>)
    ensures (forall i, j | 0 <= i < j < |sorts| :: SeqOf(sorts[i], i) != SeqOf(sorts[j], j)) <==> |sorts| <= WRAP
  {
    if |sorts| <= WRAP {
      forall i, j | 0 <= i < j < |sorts| ensures SeqOf(sorts[i], i) != SeqOf(sorts[j], j) {
        SeqsDiffer(sorts[i], i, sorts[j], j);
      }
    } else {
      assert SeqOf(sorts[0], 0) == 1 && SeqOf(sorts[WRAP], WRAP) == 1;
    }
  }

  /** How far a thread is with sending request k. */
  datatype Stage = Numbered(k: nat) | Registered(k: nat)

  datatype Ran = Ran(handler: nat, requestSeq: int)

  datatype State = State(drawn: nat, responseMap: map<int, nat>, stages: map<Thread, Stage>,
                         wire: set<nat>, answered: set<nat>, ran: seq<Ran>)

  datatype Event =
    | Draw(t: Thread)                 // send of a request draws a number
    | DrawOther                       // an event or a response is sent
    | Register(t: Thread)               // ... puts the handler
    | Finish(t: Thread, written: bool)  // ... writes the message, or fails
    | Receive(reply: Reply)

  function Init(): State {
    State(0, map[], map[], {}, {}, [])
  }

  predicate Enabled(s: State, e: Event) {
    match e
    case Draw(t) => t !in s.stages
    case Register(t) => t in s.stages && s.stages[t].Numbered?
    case Finish(t, _) => t in s.stages && s.stages[t].Registered?
    case _ => true
  }

  /** Whether the handler of an answered request is called. */
  predicate Complete(r: Reply) {
    r.success.Some? && (r.success.value || r.hasMessage)
  }

  /** By its fields: a success, or a failure with a message. */
  lemma CompleteIff(j: Json)
    requires ReplyOf(j).Some?
    ensures Complete(ReplyOf(j).value) <==>
      || FieldCell(j, SUCCESS) == Some(Bool(true))
      || (FieldCell(j, SUCCESS) == Some(Bool(false)) && exists m :: FieldCell(j, MESSAGE) == Some(Str(m)))
  {
    if FieldCell(j, MESSAGE).Some? && FieldCell(j, MESSAGE).value.Str? {
      assert FieldCell(j, MESSAGE) == Some(Str(FieldCell(j, MESSAGE).value.s));
    }
  }

  function RequestSeq(k: nat): int {
    SeqOf(Request, k)
  }

  function Emplace(m: map<int, nat>, q: int, k: nat): map<int, nat> {
    if q in m then m else m[q := k]
  }

  function Answer(s: State, r: Reply): State {
    if r.requestSeq !in s.responseMap then s
    else
      var k := s.responseMap[r.requestSeq];
      s.(responseMap := s.responseMap - {r.requestSeq}, answered := s.answered + {k},
         ran := if Complete(r) then s.ran + [Ran(k, r.requestSeq)] else s.ran)
  }

  function Apply(s: State, e: Event): State
    requires Enabled(s, e)
  {
    match e
    case Draw(t) => s.(drawn := s.drawn + 1, stages := s.stages[t := Numbered(s.drawn)])
    case DrawOther => s.(drawn := s.drawn + 1)
    case Register(t) =>
      var k := s.stages[t].k;
      s.(responseMap := Emplace(s.responseMap, RequestSeq(k), k), stages := s.stages[t := Registered(k)])
    case Finish(t, written) =>
      s.(stages := s.stages - {t}, wire := if written then s.wire + {s.stages[t].k} else s.wire)
    case Receive(r) => Answer(s, r)
  }

  /** The handler of request k is where a response will find it. */
  predicate Waiting(s: State, k: nat) {
    RequestSeq(k) in s.responseMap && s.responseMap[RequestSeq(k)] == k
  }

  predicate HandlersInv(s: State) {
    match s
    case State(drawn, responseMap, _, _, answered, _) =>
      && (forall q <- responseMap :: responseMap[q] < drawn && q == RequestSeq(responseMap[q]) && responseMap[q] !in answered)
      && (forall k <- answered :: k < drawn)
  }

  /** The requests whose handlers were refused: each has been sent without a
      handler of its own, for good. */
  predicate RefusedInv(s: State, refused: set<nat>) {
    forall k <- refused :: k < s.drawn && k !in s.answered && !Waiting(s, k)
  }

  predicate WireInv(s: State, refused: set<nat>) {
    forall k <- s.wire :: k < s.drawn && (k in s.answered || k in refused || Waiting(s, k))
  }

  /** What is known of the request a thread is sending. */
  predicate StageInv(s: State, refused: set<nat>, stage: Stage) {
    && stage.k < s.drawn && stage.k !in s.wire
    && (stage.Numbered? ==> stage.k !in s.answered && stage.k !in refused && !Waiting(s, stage.k))
    && (stage.Registered? ==> stage.k in s.answered || stage.k in refused || Waiting(s, stage.k))
  }

  predicate StagesInv(s: State, refused: set<nat>) {
    && (forall t <- s.stages :: StageInv(s, refused, s.stages[t]))
    && (forall t, u | t in s.stages && u in s.stages && t != u :: s.stages[t].k != s.stages[u].k)
  }

  predicate RanInv(s: State) {
    && (forall i | 0 <= i < |s.ran| :: s.ran[i].handler in s.answered && s.ran[i].requestSeq == RequestSeq(s.ran[i].handler))
    && (forall i, j | 0 <= i < j < |s.ran| :: s.ran[i].handler != s.ran[j].handler)
  }

  predicate Inv(s: State, refused: set<nat>) {
    HandlersInv(s) && RefusedInv(s, refused) && WireInv(s, refused) && StagesInv(s, refused) && RanInv(s)
  }

  /** Whose handler a step refuses: a number that is taken keeps its handler. */
  function Refuses(s: State, e: Event): set<nat>
    requires Enabled(s, e)
  {
    if e.Register? && RequestSeq(s.stages[e.t].k) in s.responseMap then {s.stages[e.t].k} else {}
  }

  lemma DrawKeepsInv(s: State, refused: set<nat>, t: Thread)
    requires Inv(s, refused) && t !in s.stages
    ensures Inv(Apply(s, Draw(t)), refused)
  {
    var s' := Apply(s, Draw(t));
    forall u <- s.stages ensures StageInv(s', refused, s.stages[u]) {
      assert StageInv(s, refused, s.stages[u]);
    }
  }

  lemma RegisterKeepsInv(s: State, refused: set<nat>, t: Thread)
    requires Inv(s, refused) && Enabled(s, Register(t))
    ensures Inv(Apply(s, Register(t)), refused + Refuses(s, Register(t)))
  {
    var k, s', refused' := s.stages[t].k, Apply(s, Register(t)), refused + Refuses(s, Register(t));
    assert StageInv(s, refused, s.stages[t]);
    forall i: nat | i != k ensures Waiting(s', i) <==> Waiting(s, i) {
    }
    forall u <- s'.stages ensures StageInv(s', refused', s'.stages[u]) {
      assert StageInv(s, refused, s.stages[u]);
    }
  }

  lemma FinishKeepsInv(s: State, refused: set<nat>, t: Thread, written: bool)
    requires Inv(s, refused) && Enabled(s, Finish(t, written))
    ensures Inv(Apply(s, Finish(t, written)), refused)
  {
    var s' := Apply(s, Finish(t, written));
    assert StageInv(s, refused, s.stages[t]);
    forall u <- s'.stages ensures StageInv(s', refused, s'.stages[u]) {
      assert StageInv(s, refused, s.stages[u]);
    }
  }

  lemma ReceiveKeepsInv(s: State, refused: set<nat>, r: Reply)
    requires Inv(s, refused)
    ensures Inv(Answer(s, r), refused)
  {
    if r.requestSeq in s.responseMap {
      var s', k := Answer(s, r), s.responseMap[r.requestSeq];
      forall i: nat | i != k ensures Waiting(s', i) <==> Waiting(s, i) {
      }
      forall t <- s.stages ensures StageInv(s', refused, s.stages[t]) {
        assert StageInv(s, refused, s.stages[t]);
      }
    }
  }

  /** Every step, whatever the numbers. */
  lemma StepKeepsInv(s: State, refused: set<nat>, e: Event)
    requires Inv(s, refused) && Enabled(s, e)
    ensures Inv(Apply(s, e), refused + Refuses(s, e))
  {
    assert refused + {} == refused;
    match e
    case Draw(t) => DrawKeepsInv(s, refused, t);
    case DrawOther =>
      forall t <- s.stages ensures StageInv(Apply(s, e), refused, s.stages[t]) {
        assert StageInv(s, refused, s.stages[t]);
      }
    case Register(t) => RegisterKeepsInv(s, refused, t);
    case Finish(t, written) => FinishKeepsInv(s, refused, t, written);
    case Receive(r) => ReceiveKeepsInv(s, refused, r);
  }

  /** A handler is refused exactly if that of another request still waits, whose draw
      is a multiple of the counter's period away. It may be a later one, which
      registered first. */
  lemma RefusedIff(s: State, refused: set<nat>, t: Thread)
    requires Inv(s, refused) && Enabled(s, Register(t))
    ensures Refuses(s, Register(t)) != {} <==>
      exists i: nat :: i < s.drawn && i != s.stages[t].k && (i - s.stages[t].k) % WRAP == 0 && Waiting(s, i)
  {
    var k := s.stages[t].k;
    assert StageInv(s, refused, s.stages[t]);
    if RequestSeq(k) in s.responseMap {
      var i := s.responseMap[RequestSeq(k)];
      SameSeqIff(i, k);
      assert Waiting(s, i);
    }
    if i: nat :| i < s.drawn && i != k && (i - k) % WRAP == 0 && Waiting(s, i) {
      SameSeqIff(i, k);
    }
  }

  lemma SameRemainderIff(a: nat, b: nat)
    ensures a % WRAP == b % WRAP <==> (a - b) % WRAP == 0
  {
    var p, q, m := a / WRAP, b / WRAP, (a - b) / WRAP;
    assert a - b == WRAP * (p - q) + (a % WRAP - b % WRAP);
    assert a - b == WRAP * m + (a - b) % WRAP;
  }

  lemma SameSeqIff(i: nat, j: nat)
    ensures RequestSeq(i) == RequestSeq(j) <==> (i - j) % WRAP == 0
  {
    SameRemainderIff(i + 1, j + 1);
  }

  /* Whole runs, of any length */

  predicate CanRun(es: seq<Event>) {
    |es| == 0 || (CanRun(es[..|es| - 1]) && Enabled(After(es[..|es| - 1]), es[|es| - 1]))
  }

  /** The state after the events; one that is not enabled does nothing. */
  function After(es: seq<Event>): State {
    if |es| == 0 then Init()
    else
      var s, e := After(es[..|es| - 1]), es[|es| - 1];
      if Enabled(s, e) then Apply(s, e) else s
  }

  /** The requests whose handlers were refused in a run. */
  function Refused(es: seq<Event>): set<nat> {
    if |es| == 0 then {}
    else
      var s, e := After(es[..|es| - 1]), es[|es| - 1];
      Refused(es[..|es| - 1]) + if Enabled(s, e) then Refuses(s, e) else {}
  }

  lemma {:induction false} RunKeepsInv(es: seq<Event>)
    requires CanRun(es)
    ensures Inv(After(es), Refused(es))
  {
    if |es| > 0 {
      RunKeepsInv(es[..|es| - 1]);
      StepKeepsInv(After(es[..|es| - 1]), Refused(es[..|es| - 1]), es[|es| - 1]);
    }
  }

  lemma SeqsBelowWrapDiffer(i: nat, j: nat)
    requires i < WRAP && j < WRAP && i != j
    ensures RequestSeq(i) != RequestSeq(j)
  {
    SameSeqIff(i, j);
  }

  lemma NoRefusalBelowWrap(s: State, refused: set<nat>, e: Event)
    requires Inv(s, refused) && Enabled(s, e) && s.drawn <= WRAP
    ensures Refuses(s, e) == {}
  {
    if e.Register? && RequestSeq(s.stages[e.t].k) in s.responseMap {
      assert StageInv(s, refused, s.stages[e.t]);
      SeqsBelowWrapDiffer(s.responseMap[RequestSeq(s.stages[e.t].k)], s.stages[e.t].k);
    }
  }

  /** Up to the counter's period no handler is refused. */
  lemma {:induction false} NothingIsRefusedBelowWrap(es: seq<Event>)
    requires CanRun(es) && After(es).drawn <= WRAP
    ensures Refused(es) == {}
  {
    if |es| > 0 {
      var before, e := es[..|es| - 1], es[|es| - 1];
      assert Apply(After(before), e).drawn >= After(before).drawn;
      NothingIsRefusedBelowWrap(before);
      RunKeepsInv(before);
      NoRefusalBelowWrap(After(before), {}, e);
    }
  }

  /** A request that was written and not answered has its handler in the map, under
      its own number, exactly if that was not refused. */
  lemma UnansweredIsRegistered(es: seq<Event>, k: nat)
    requires CanRun(es) && k in After(es).wire && k !in After(es).answered
    ensures Waiting(After(es), k) <==> k !in Refused(es)
    ensures After(es).drawn <= WRAP ==> Waiting(After(es), k)
  {
    RunKeepsInv(es);
    if After(es).drawn <= WRAP {
      NothingIsRefusedBelowWrap(es);
    }
  }

  /** Every handler runs at most once, and only for the number of its request; a
      refused one never runs. */
  lemma HandlersRunOnce(es: seq<Event>, i: nat, j: nat)
    requires CanRun(es) && i < |After(es).ran| && j < |After(es).ran|
    ensures After(es).ran[i].requestSeq == RequestSeq(After(es).ran[i].handler)
    ensures After(es).ran[i].handler == After(es).ran[j].handler <==> i == j
    ensures After(es).ran[i].handler !in Refused(es)
    ensures After(es).drawn <= WRAP ==> (After(es).ran[i].requestSeq == After(es).ran[j].requestSeq <==> i == j)
  {
    RunKeepsInv(es);
    var s := After(es);
    assert s.ran[i].handler < s.drawn && s.ran[j].handler < s.drawn;
    if i != j && s.drawn <= WRAP {
      SeqsBelowWrapDiffer(s.ran[i].handler, s.ran[j].handler);
    }
  }

  /** A response with the number of a request that was written and not answered
      calls its handler, if that was not refused and the response is complete;
      complete or not, the request is then answered for good. */
  lemma ResponseFindsItsHandler(es: seq<Event>, k: nat, r: Reply)
    requires CanRun(es) && k in After(es).wire && k !in After(es).answered && k !in Refused(es)
    requires r.requestSeq == RequestSeq(k)
    ensures var s, s' := After(es), After(es + [Receive(r)]);
      && s'.ran == (if Complete(r) then s.ran + [Ran(k, RequestSeq(k))] else s.ran)
      && k in s'.answered && RequestSeq(k) !in s'.responseMap
  {
    UnansweredIsRegistered(es, k);
    assert (es + [Receive(r)])[..|es|] == es;
  }

  /** For a refused request, the same response calls another handler, or none. */
  lemma RefusedResponseGoesElsewhere(es: seq<Event>, k: nat, r: Reply)
    requires CanRun(es) && k in Refused(es) && r.requestSeq == RequestSeq(k)
    ensures var s, s' := After(es), After(es + [Receive(r)]);
      if r.requestSeq in s.responseMap && Complete(r)
      then s.responseMap[r.requestSeq] != k && s'.ran == s.ran + [Ran(s.responseMap[r.requestSeq], r.requestSeq)]
      else s'.ran == s.ran
  {
    RunKeepsInv(es);
    assert (es + [Receive(r)])[..|es|] == es;
  }

  /** A response changes nothing exactly if no handler waits under its number. */
  lemma OtherResponsesFindNothing(es: seq<Event>, r: Reply)
    requires CanRun(es)
    ensures var s, s' := After(es), After(es + [Receive(r)]);
      s' == s <==> forall k: nat | k < s.drawn && RequestSeq(k) == r.requestSeq :: !Waiting(s, k)
  {
    RunKeepsInv(es);
    assert (es + [Receive(r)])[..|es|] == es;
    var s := After(es);
    if r.requestSeq in s.responseMap {
      assert Waiting(s, s.responseMap[r.requestSeq]);
      assert s.responseMap[r.requestSeq] in Answer(s, r).answered;
    }
  }

  /* A run in which a response reaches the handler of another request */

  function Others(n: nat): seq<Event> {
    if n == 0 then [] else Others(n - 1) + [DrawOther]
  }

  lemma OneMore(es: seq<Event>, e: Event)
    requires CanRun(es) && Enabled(After(es), e)
    ensures CanRun(es + [e]) && After(es + [e]) == Apply(After(es), e) && Refused(es + [e]) == Refused(es) + Refuses(After(es), e)
  {
    assert (es + [e])[..|es|] == es;
  }

  lemma {:induction false} OthersOnlyDraw(es: seq<Event>, n: nat)
    requires CanRun(es)
    ensures CanRun(es + Others(n)) && After(es + Others(n)) == After(es).(drawn := After(es).drawn + n)
    ensures Refused(es + Others(n)) == Refused(es)
  {
    if n == 0 {
      assert es + Others(0) == es;
    } else {
      OthersOnlyDraw(es, n - 1);
      assert es + Others(n) == es + Others(n - 1) + [DrawOther];
      OneMore(es + Others(n - 1), DrawOther);
    }
  }

  /** Request 0, as many other messages as make the counter wrap, and one more
      request: it is written with the number of request 0, its handler is refused, and
      a response to it calls the handler of request 0. */
  lemma WrappedNumberMeetsOldHandler(t: Thread) returns (es: seq<Event>)
    ensures CanRun(es) && {0, WRAP} <= After(es).wire && After(es).answered == {} && Refused(es) == {WRAP}
    ensures RequestSeq(0) == RequestSeq(WRAP)
    ensures After(es + [Receive(Reply(RequestSeq(WRAP), Some(true), false))]).ran == [Ran(0, RequestSeq(0))]
  {
    es := [];
    es := Sent(es, t);
    var before := es;
    OthersOnlyDraw(es, WRAP - 1);
    es := es + Others(WRAP - 1);
    SameSeqIff(0, WRAP);
    es := Sent(es, t);
    assert Refused(es) == {WRAP};
    OneMore(es, Receive(Reply(RequestSeq(WRAP), Some(true), false)));
  }

  /** A request sent by one thread, from the number to the wire. */
  lemma Sent(es: seq<Event>, t: Thread) returns (es': seq<Event>)
    requires CanRun(es) && t !in After(es).stages
    ensures var s, k := After(es), After(es).drawn;
      && CanRun(es') && After(es').drawn == k + 1 && After(es').stages == s.stages && After(es').wire == s.wire + {k}
      && After(es').answered == s.answered && After(es').ran == s.ran
      && After(es').responseMap == Emplace(s.responseMap, RequestSeq(k), k)
      && Refused(es') == Refused(es) + if RequestSeq(k) in s.responseMap then {k} else {}
  {
    var s, k := After(es), After(es).drawn;
    OneMore(es, Draw(t));
    var es1, s1 := es + [Draw(t)], Apply(s, Draw(t));
    OneMore(es1, Register(t));
    var es2, s2 := es1 + [Register(t)], Apply(s1, Register(t));
    OneMore(es2, Finish(t, true));
    es' := es2 + [Finish(t, true)];
    WholeSend(s, t);
    assert Refused(es') == Refused(es) + Refuses(s1, Register(t));
  }

  lemma WholeSend(s: State, t: Thread)
    requires t !in s.stages
    ensures var s1 := Apply(s, Draw(t));
      var s3 := Apply(Apply(s1, Register(t)), Finish(t, true));
      s3 == s.(drawn := s.drawn + 1, wire := s.wire + {s.drawn}, responseMap := Emplace(s.responseMap, RequestSeq(s.drawn), s.drawn))
  {
    var s2 := Apply(Apply(s, Draw(t)), Register(t));
    assert s2.stages - {t} == s.stages;
  }

  /** The sending and receiving side, with the fields of the source. The ghost
      fields say which request is meant. */
  class Impl {
    var nextSeq: nat
    var responseMap: map<int, nat>
    ghost var drawn: nat
    ghost var stages: map<Thread, Stage>
    ghost var wire: set<nat>
    ghost var answered: set<nat>
    ghost var ran: seq<Ran>

    constructor ()
      ensures Valid() && Abs() == Init()
    {
      nextSeq, responseMap := 1, map[];
      drawn, stages, wire, answered, ran := 0, map[], {}, {}, [];
    }

    ghost predicate Valid()
      reads this
    {
      nextSeq == Drawn(drawn)
    }

    ghost function Abs(): State
      reads this
    {
      State(drawn, responseMap, stages, wire, answered, ran)
    }

    method DrawNumber() returns (n: nat)
      requires Valid()
      modifies this`nextSeq, this`drawn
      ensures Valid() && n == Drawn(old(drawn)) && drawn == old(drawn) + 1
    {
      n := nextSeq;
      nextSeq := (nextSeq + 1) % WRAP;
      drawn := drawn + 1;
    }

    /** The first statement of send for a request. */
    method BeginRequest(ghost t: Thread) returns (number: int)
      requires Valid() && Enabled(Abs(), Draw(t))
      modifies this
      ensures Valid() && Abs() == Apply(old(Abs()), Draw(t)) && number == RequestSeq(old(drawn))
    {
      stages := stages[t := Numbered(drawn)];
      var n := DrawNumber();
      return if n >= 0x8000_0000 then n - WRAP else n;
    }

    method SendEvent() returns (number: int)
      requires Valid()
      modifies this
      ensures Valid() && Abs() == Apply(old(Abs()), DrawOther) && number == SeqOf(EventOrResponse, old(drawn))
    {
      number := DrawNumber();
    }

    method PutHandler(number: int, handler: nat, ghost t: Thread) returns (added: bool)
      requires Valid() && Enabled(Abs(), Register(t)) && handler == stages[t].k && number == RequestSeq(handler)
      modifies this
      ensures Valid() && Abs() == Apply(old(Abs()), Register(t)) && added == (number !in old(responseMap))
    {
      added := number !in responseMap;
      if added {
        responseMap := responseMap[number := handler];
      }
      stages := stages[t := Registered(handler)];
    }

    /** The rest of send: the message, if the arguments can be serialized and it can
        be written. */
    method FinishRequest(number: int, command: string, s: Schema, v: Value, writerOpen: bool, accepted: bool, ghost t: Thread)
      returns (sent: Option<Json>)
      requires Valid() && Enabled(Abs(), Finish(t, false)) && number == RequestSeq(stages[t].k) && Typed(s, v)
      modifies this
      ensures Valid() && Abs() == Apply(old(Abs()), Finish(t, sent.Some?))
      ensures sent == if Write(s, v).Some? && writerOpen && accepted then Some(RequestMessage(number, command, Write(s, v).value)) else None
    {
      var serializer := new NlohmannSerializer();
      var serialized := serializer.Serialize(s, v);
      sent := None;
      if serialized && writerOpen && accepted {
        sent := Some(RequestMessage(number, command, Cell(serializer.json, serializer.removed)));
        wire := wire + {stages[t].k};
      }
      stages := stages - {t};
    }

    /** processResponse, with the handler it calls. */
    method ProcessResponse(j: Json) returns (called: Option<nat>)
      requires Valid()
      modifies this
      ensures Valid() && Abs() == match ReplyOf(j) case None => old(Abs()) case Some(r) => Apply(old(Abs()), Receive(r))
      ensures called == match ReplyOf(j)
                        case None => None
                        case Some(r) =>
                          if r.requestSeq in old(responseMap) && Complete(r) then Some(old(responseMap)[r.requestSeq]) else None
    {
      var d := new NlohmannDeserializer(Some(j));
      var requestSeq := d.DeserializeField(REQUEST_SEQ, Integer);
      if requestSeq == None || requestSeq.value.n !in responseMap {
        return None;
      }
      var handler := responseMap[requestSeq.value.n];
      responseMap := responseMap - {requestSeq.value.n};
      answered := answered + {handler};
      var success := d.DeserializeField(SUCCESS, Boolean);
      if success == None {
        return None;
      }
      if !success.value.b {
        var message := d.DeserializeField(MESSAGE, String);
        if message == None {
          return None;
        }
      }
      ran := ran + [Ran(handler, requestSeq.value.n)];
      return Some(handler);
    }
  }
}
