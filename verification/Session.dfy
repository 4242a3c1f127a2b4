/**
 From the messages that arrive to the responses that leave, in
 3rd/cppdap/src/session.cpp: the receiving thread processes messages and puts
 what is to be done into the inbox, a Chan; the dispatching thread takes it from
 there and runs it.
 */
module Session {
  import opened Common
  import opened Serialization
  import opened Messages
  import Chan
  import Correlation

  /** What is registered: request and event types by name. */
  datatype Registry = Registry(requests: map<string, Schema>, events: map<string, Schema>)

  datatype Payload =
    | RunRequest(requestSeq: int, command: string, arguments: Value)
    | RunEvent(event: string, body: Value)

  function ReadTyped(j: Json, name: string, types: map<string, Schema>, key: string): Option<Value> {
    if key in types then ReadField(j, name, types[key]) else None
  }

  function RequestPayload(j: Json, requestSeq: int, registry: Registry): Option<Payload> {
    match ReadString(j, COMMAND)
    case None => None
    case Some(command) =>
      match ReadTyped(j, ARGUMENTS, registry.requests, command)
      case None => None
      case Some(arguments) => Some(RunRequest(requestSeq, command, arguments))
  }

  function EventPayload(j: Json, registry: Registry): Option<Payload> {
    match ReadString(j, EVENT)
    case None => None
    case Some(event) =>
      match ReadTyped(j, BODY, registry.events, event)
      case None => None
      case Some(body) => Some(RunEvent(event, body))
  }

  /** What a message leaves to be done by the dispatching thread. A response is
      done with here and now. */
  function PayloadOf(j: Json, registry: Registry): Option<Payload> {
    match (ReadString(j, TYPE), ReadInteger(j, SEQ))
    case (Some(kind), Some(n)) =>
      if kind == REQUEST then RequestPayload(j, n, registry)
      else if kind == EVENT_TYPE then EventPayload(j, registry)
      else None
    case _ => None
  }

  /* A request from session to session */

  /** A request is accepted by a session that has registered its command and
      type, with its number and with its arguments unchanged, exactly if these
      survive serialization as a struct field. */
  lemma SentRequestArrivesIff(n: Int64, command: string, s: Schema, v: Value, registry: Registry)
    requires Typed(s, v) && DistinctNames(s) && command in registry.requests && registry.requests[command] == s
    requires Write(s, v).Some?
    ensures PayloadOf(RequestMessage(n, command, Write(s, v).value), registry) == Some(RunRequest(n, command, v))
      <==> Keeps(s, v, true)
  {
    var cell := Write(s, v).value;
    var j := RequestMessage(n, command, cell);
    RequestFields(n, command, cell);
    RoundTripIff(s, v, true);
    RequestIsRecognised(j, n, command, registry);
  }

  /** The same for an event, whose body is read unchanged exactly under that condition. */
  lemma SentEventArrivesIff(n: Int64, event: string, s: Schema, v: Value, registry: Registry)
    requires Typed(s, v) && DistinctNames(s) && event in registry.events && registry.events[event] == s
    requires Write(s, v).Some?
    ensures PayloadOf(EventMessage(n, event, Write(s, v).value), registry) == Some(RunEvent(event, v)) <==> Keeps(s, v, true)
  {
    var cell := Write(s, v).value;
    var j := EventMessage(n, event, cell);
    EventFields(n, event, cell);
    RoundTripIff(s, v, true);
    EventIsRecognised(j, n, event, registry);
  }

  lemma EventIsRecognised(j: Json, n: Int64, event: string, registry: Registry)
    requires FieldCell(j, TYPE) == Some(Str(EVENT_TYPE)) && FieldCell(j, SEQ) == Some(Int(n))
    requires FieldCell(j, EVENT) == Some(Str(event)) && event in registry.events
    ensures var body := Read(registry.events[event], FieldCell(j, BODY));
      PayloadOf(j, registry) == if body.Some? then Some(RunEvent(event, body.value)) else None
  {
    TypesDiffer();
    assert ReadString(j, TYPE) == Some(EVENT_TYPE) && ReadInteger(j, SEQ) == Some(n) && ReadString(j, EVENT) == Some(event);
  }

  lemma TypesDiffer()
    ensures REQUEST != EVENT_TYPE && RESPONSE != REQUEST && RESPONSE != EVENT_TYPE
  {
    assert REQUEST[0] == 'r' && EVENT_TYPE[0] == 'e' && REQUEST[2] == 'q' && RESPONSE[2] == 's';
  }

  /** Everything that a message can leave to be done, by its fields alone: nothing else
      is accepted. */
  lemma PayloadIff(j: Json, registry: Registry, p: Payload)
    ensures PayloadOf(j, registry) == Some(p) <==>
      exists n: int :: FieldCell(j, SEQ) == Some(Int(n)) &&
        match p
        case RunRequest(requestSeq, command, arguments) =>
          && FieldCell(j, TYPE) == Some(Str(REQUEST)) && FieldCell(j, COMMAND) == Some(Str(command)) && requestSeq == ToInt64(n)
          && command in registry.requests && Read(registry.requests[command], FieldCell(j, ARGUMENTS)) == Some(arguments)
        case RunEvent(event, body) =>
          && FieldCell(j, TYPE) == Some(Str(EVENT_TYPE)) && FieldCell(j, EVENT) == Some(Str(event))
          && event in registry.events && Read(registry.events[event], FieldCell(j, BODY)) == Some(body)
  {
    TypesDiffer();
    if PayloadOf(j, registry) == Some(p) {
      assert FieldCell(j, SEQ) == Some(Int(FieldCell(j, SEQ).value.n));
    }
  }

  lemma RequestIsRecognised(j: Json, n: Int64, command: string, registry: Registry)
    requires FieldCell(j, TYPE) == Some(Str(REQUEST)) && FieldCell(j, SEQ) == Some(Int(n))
    requires FieldCell(j, COMMAND) == Some(Str(command)) && command in registry.requests
    ensures var arguments := Read(registry.requests[command], FieldCell(j, ARGUMENTS));
      PayloadOf(j, registry) == if arguments.Some? then Some(RunRequest(n, command, arguments.value)) else None
  {
    assert ReadString(j, TYPE) == Some(REQUEST) && ReadInteger(j, SEQ) == Some(n) && ReadString(j, COMMAND) == Some(command);
  }

  /** The whole way of a request and back: it was written and its handler waits, a
      peer has accepted it, and the response of the peer's payload calls that handler,
      once and for all. */
  lemma ResponseReachesItsHandler(es: seq<Correlation.Event>, k: nat, command: string, arguments: Cell, peer: Registry,
                                  p: Payload, n: Int64, outcome: Outcome)
    requires Correlation.CanRun(es) && k in Correlation.After(es).wire && k !in Correlation.After(es).answered
    requires k !in Correlation.Refused(es)
    requires PayloadOf(RequestMessage(Correlation.RequestSeq(k), command, arguments), peer) == Some(p)
    ensures p.RunRequest? && p.command == command
    ensures var reply := ReplyOf(ResponseMessage(n, p.requestSeq, p.command, outcome));
      && reply.Some?
      && var s, s' := Correlation.After(es), Correlation.After(es + [Correlation.Receive(reply.value)]);
         s'.ran == s.ran + [Correlation.Ran(k, Correlation.RequestSeq(k))] && k in s'.answered
  {
    var q: Int64 := Correlation.RequestSeq(k);
    RequestFields(q, command, arguments);
    RequestIsRequest(RequestMessage(q, command, arguments), q, command, peer, p);
    ResponseReadsBack(n, q, command, outcome);
    Correlation.ResponseFindsItsHandler(es, k, Reply(q, Some(outcome.Succeeded?), outcome.Failed?));
  }

  lemma RequestIsRequest(j: Json, n: Int64, command: string, registry: Registry, p: Payload)
    requires FieldCell(j, TYPE) == Some(Str(REQUEST)) && FieldCell(j, SEQ) == Some(Int(n))
    requires FieldCell(j, COMMAND) == Some(Str(command)) && PayloadOf(j, registry) == Some(p)
    ensures p.RunRequest? && p.requestSeq == n && p.command == command
  {
    assert ReadString(j, TYPE) == Some(REQUEST) && ReadInteger(j, SEQ) == Some(n) && ReadString(j, COMMAND) == Some(command);
  }

  /* The two threads */

  const DISPATCHER: Chan.Thread := 0

  datatype Response = Response(requestSeq: int, command: string, success: bool)

  /** arrived: the messages read so far; holding: what the receiving thread is
      about to put; running: what the dispatching thread took; handled: what the
      handlers have been called with. */
  datatype State = State(arrived: seq<Json>, holding: Option<Payload>, inbox: Chan.State<Payload>,
                         running: Option<Payload>, ended: bool, responses: seq<Response>, handled: seq<Payload>)

  datatype Event =
    | Arrive(j: Json)          // the receiving thread reads and processes a message
    | PutPayload               // ... and puts its payload
    | TakePayload              // the dispatching thread calls take
    | Wake                     // ... goes on after a wake-up in take
    | SpuriousWake
    | RunPayload(success: bool)  // ... runs what it took; a handler gives a result or an error
    | CloseInbox

  function Init(): State {
    State([], None, Chan.Init(), None, false, [], [])
  }

  predicate Enabled(s: State, e: Event) {
    match e
    case Arrive(_) => s.holding == None
    case PutPayload => s.holding.Some?
    case TakePayload => s.running == None && !s.ended && Chan.Enabled(s.inbox, Chan.Take(DISPATCHER))
    case Wake => Chan.Enabled(s.inbox, Chan.Resume(DISPATCHER))
    case SpuriousWake => Chan.Enabled(s.inbox, Chan.SpuriousWake(DISPATCHER))
    case RunPayload(_) => s.running.Some?
    case CloseInbox => true
  }

  /** take, as far as it gets; without an item the dispatching thread ends. */
  function Taken(s: State, e: Chan.Event<Payload>): State {
    var s' := s.(inbox := Chan.Apply(s.inbox, e));
    match Chan.Return(s.inbox, e)
    case NoReturn => s'
    case Returned(None) => s'.(ended := true)
    case Returned(Some(p)) => s'.(running := Some(p))
  }

  /** A synchronous handler answers a request once; an event has no answer. */
  function Answer(p: Payload, success: bool): seq<Response> {
    if p.RunRequest? then [Response(p.requestSeq, p.command, success)] else []
  }

  function Apply(s: State, e: Event, registry: Registry): State
    requires Enabled(s, e)
  {
    match e
    case Arrive(j) => s.(arrived := s.arrived + [j], holding := PayloadOf(j, registry))
    case PutPayload => s.(holding := None, inbox := Chan.Apply(s.inbox, Chan.Put(s.holding.value)))
    case TakePayload => Taken(s, Chan.Take(DISPATCHER))
    case Wake => Taken(s, Chan.Resume(DISPATCHER))
    case SpuriousWake => s.(inbox := Chan.Apply(s.inbox, Chan.SpuriousWake(DISPATCHER)))
    case RunPayload(success) =>
      s.(running := None, responses := s.responses + Answer(s.running.value, success), handled := s.handled + [s.running.value])
    case CloseInbox => s.(inbox := Chan.Apply(s.inbox, Chan.Close))
  }

  /* What is owed */

  /** Which request an answer answers. */
  datatype Owed = Owed(requestSeq: int, command: string)

  function OwedFor(p: Payload): seq<Owed> {
    if p.RunRequest? then [Owed(p.requestSeq, p.command)] else []
  }

  function OwedForAll(ps: seq<Payload>): seq<Owed> {
    if |ps| == 0 then [] else OwedForAll(ps[..|ps| - 1]) + OwedFor(ps[|ps| - 1])
  }

  function OwedIf(p: Option<Payload>): seq<Owed> {
    if p.Some? then OwedFor(p.value) else []
  }

  /** The accepted requests among the messages, in the order of their arrival. */
  function Accepted(arrived: seq<Json>, registry: Registry): seq<Owed> {
    if |arrived| == 0 then []
    else Accepted(arrived[..|arrived| - 1], registry) + OwedIf(PayloadOf(arrived[|arrived| - 1], registry))
  }

  function Answered(rs: seq<Response>): seq<Owed> {
    if |rs| == 0 then [] else Answered(rs[..|rs| - 1]) + [Owed(rs[|rs| - 1].requestSeq, rs[|rs| - 1].command)]
  }

  /** Answered, being run, queued and held. */
  function Total(answered: seq<Owed>, running: Option<Payload>, queue: seq<Payload>, holding: Option<Payload>): seq<Owed> {
    answered + OwedIf(running) + OwedForAll(queue) + OwedIf(holding)
  }

  /** That makes up what was accepted, in order. */
  ghost predicate Conserved(s: State, registry: Registry) {
    match s
    case State(arrived, holding, inbox, running, _, responses, _) =>
      Total(Answered(responses), running, inbox.queue, holding) == Accepted(arrived, registry)
  }

  /** The dispatching thread waits, runs a payload or has ended. */
  ghost predicate OneDispatcher(s: State) {
    match s
    case State(_, _, inbox, running, ended, _, _) =>
      && Chan.Inv(inbox)
      && (DISPATCHER in inbox.sleeping || DISPATCHER in inbox.woken ==> running == None && !ended)
      && (running.Some? ==> !ended)
  }

  ghost predicate Inv(s: State, registry: Registry) {
    Conserved(s, registry) && OneDispatcher(s)
  }

  lemma {:induction false} OwedForFirst(ps: seq<Payload>)
    requires |ps| > 0
    ensures OwedForAll(ps) == OwedFor(ps[0]) + OwedForAll(ps[1..])
    decreases |ps|
  {
    if |ps| == 1 {
      assert ps[..0] == [] && ps[1..] == [];
    } else {
      var init := ps[..|ps| - 1];
      OwedForFirst(init);
      assert ps[1..][..|ps| - 2] == init[1..];
    }
  }

  lemma TotalAfterTake(answered: seq<Owed>, queue: seq<Payload>, holding: Option<Payload>)
    requires |queue| > 0
    ensures Total(answered, Some(queue[0]), queue[1..], holding) == Total(answered, None, queue, holding)
  {
    OwedForFirst(queue);
    assert answered + [] + (OwedFor(queue[0]) + OwedForAll(queue[1..])) == answered + OwedFor(queue[0]) + OwedForAll(queue[1..]);
  }

  lemma TotalAfterPut(answered: seq<Owed>, running: Option<Payload>, queue: seq<Payload>, p: Payload)
    ensures Total(answered, running, queue + [p], None) == Total(answered, running, queue, Some(p))
  {
    assert (queue + [p])[..|queue|] == queue;
  }

  lemma AnsweredMore(rs: seq<Response>, p: Payload, success: bool)
    ensures Answered(rs + Answer(p, success)) == Answered(rs) + OwedFor(p)
  {
    if p.RunRequest? {
      assert (rs + Answer(p, success))[..|rs|] == rs;
    } else {
      assert rs + Answer(p, success) == rs;
    }
  }

  lemma TotalAfterRun(answered: seq<Owed>, p: Payload, queue: seq<Payload>, holding: Option<Payload>)
    ensures Total(answered + OwedFor(p), None, queue, holding) == Total(answered, Some(p), queue, holding)
  {
  }

  lemma TotalAfterArrive(answered: seq<Owed>, running: Option<Payload>, queue: seq<Payload>, p: Option<Payload>)
    ensures Total(answered, running, queue, p) == Total(answered, running, queue, None) + OwedIf(p)
  {
  }

  lemma TakenKeepsInv(s: State, e: Chan.Event<Payload>, registry: Registry)
    requires Inv(s, registry) && Chan.Enabled(s.inbox, e) && e in {Chan.Take(DISPATCHER), Chan.Resume(DISPATCHER)}
    requires s.running == None && !s.ended
    ensures Inv(Taken(s, e), registry)
  {
    Chan.StepKeepsInv(s.inbox, e);
    var s' := Taken(s, e);
    if |s.inbox.queue| > 0 {
      TotalAfterTake(Answered(s.responses), s.inbox.queue, s.holding);
    }
    assert Conserved(s', registry);
    assert OneDispatcher(s');
  }

  lemma ArriveKeepsInv(s: State, j: Json, registry: Registry)
    requires Inv(s, registry) && s.holding == None
    ensures Inv(s.(arrived := s.arrived + [j], holding := PayloadOf(j, registry)), registry)
  {
    assert (s.arrived + [j])[..|s.arrived|] == s.arrived;
    TotalAfterArrive(Answered(s.responses), s.running, s.inbox.queue, PayloadOf(j, registry));
  }

  lemma PutKeepsInv(s: State, registry: Registry)
    requires Inv(s, registry) && Enabled(s, PutPayload)
    ensures Inv(Apply(s, PutPayload, registry), registry)
  {
    Chan.StepKeepsInv(s.inbox, Chan.Put(s.holding.value));
    TotalAfterPut(Answered(s.responses), s.running, s.inbox.queue, s.holding.value);
  }

  lemma RunKeepsInv(s: State, success: bool, registry: Registry)
    requires Inv(s, registry) && s.running.Some?
    ensures Inv(Apply(s, RunPayload(success), registry), registry)
  {
    AnsweredMore(s.responses, s.running.value, success);
    TotalAfterRun(Answered(s.responses), s.running.value, s.inbox.queue, s.holding);
  }

  lemma StepKeepsInv(s: State, e: Event, registry: Registry)
    requires Inv(s, registry) && Enabled(s, e)
    ensures Inv(Apply(s, e, registry), registry)
  {
    match e
    case Arrive(j) => ArriveKeepsInv(s, j, registry);
    case PutPayload => PutKeepsInv(s, registry);
    case TakePayload => TakenKeepsInv(s, Chan.Take(DISPATCHER), registry);
    case Wake => TakenKeepsInv(s, Chan.Resume(DISPATCHER), registry);
    case SpuriousWake => Chan.StepKeepsInv(s.inbox, Chan.SpuriousWake(DISPATCHER));
    case RunPayload(success) => RunKeepsInv(s, success, registry);
    case CloseInbox => Chan.StepKeepsInv(s.inbox, Chan.Close);
  }

  /* Whole runs */

  function After(es: seq<Event>, registry: Registry): State {
    if |es| == 0 then Init()
    else
      var s, e := After(es[..|es| - 1], registry), es[|es| - 1];
      if Enabled(s, e) then Apply(s, e, registry) else s
  }

  predicate CanRun(es: seq<Event>, registry: Registry) {
    |es| == 0 || (CanRun(es[..|es| - 1], registry) && Enabled(After(es[..|es| - 1], registry), es[|es| - 1]))
  }

  lemma {:induction false} RunsKeepInv(es: seq<Event>, registry: Registry)
    requires CanRun(es, registry)
    ensures Inv(After(es, registry), registry)
  {
    if |es| > 0 {
      RunsKeepInv(es[..|es| - 1], registry);
      StepKeepsInv(After(es[..|es| - 1], registry), es[|es| - 1], registry);
    }
  }

  /** At every moment the responses answer, one each and in order, a first part of
      the accepted requests, with their numbers and commands. */
  lemma ResponsesFollowRequests(es: seq<Event>, registry: Registry)
    requires CanRun(es, registry)
    ensures var s := After(es, registry);
      |s.responses| <= |Accepted(s.arrived, registry)|
      && forall i | 0 <= i < |s.responses| ::
        Owed(s.responses[i].requestSeq, s.responses[i].command) == Accepted(s.arrived, registry)[i]
  {
    RunsKeepInv(es, registry);
    AnsweredIsOneEach(After(es, registry).responses);
  }

  lemma {:induction false} AnsweredIsOneEach(rs: seq<Response>)
    ensures |Answered(rs)| == |rs|
    ensures forall i | 0 <= i < |rs| :: Answered(rs)[i] == Owed(rs[i].requestSeq, rs[i].command)
    decreases |rs|
  {
    if |rs| > 0 {
      AnsweredIsOneEach(rs[..|rs| - 1]);
    }
  }

  /** What the messages leave to be done, in the order of their arrival. */
  function Payloads(arrived: seq<Json>, registry: Registry): seq<Payload> {
    if |arrived| == 0 then []
    else Payloads(arrived[..|arrived| - 1], registry) + AsSeq(PayloadOf(arrived[|arrived| - 1], registry))
  }

  function AsSeq(p: Option<Payload>): seq<Payload> {
    if p.Some? then [p.value] else []
  }

  /** Handled, being run, queued and held. */
  function Whole(handled: seq<Payload>, running: Option<Payload>, queue: seq<Payload>, holding: Option<Payload>): seq<Payload> {
    handled + AsSeq(running) + queue + AsSeq(holding)
  }

  ghost predicate InOrder(s: State, registry: Registry) {
    match s
    case State(arrived, holding, inbox, running, _, _, handled) =>
      Whole(handled, running, inbox.queue, holding) == Payloads(arrived, registry)
  }

  lemma WholeAfterTake(handled: seq<Payload>, queue: seq<Payload>, holding: Option<Payload>)
    requires |queue| > 0
    ensures Whole(handled, Some(queue[0]), queue[1..], holding) == Whole(handled, None, queue, holding)
  {
    assert queue == [queue[0]] + queue[1..];
  }

  lemma WholeAfterPut(handled: seq<Payload>, running: Option<Payload>, queue: seq<Payload>, p: Payload)
    ensures Whole(handled, running, queue + [p], None) == Whole(handled, running, queue, Some(p))
  {
  }

  lemma WholeAfterRun(handled: seq<Payload>, p: Payload, queue: seq<Payload>, holding: Option<Payload>)
    ensures Whole(handled + [p], None, queue, holding) == Whole(handled, Some(p), queue, holding)
  {
    assert handled + [p] + [] == handled + [p];
  }

  lemma WholeAfterArrive(s: State, j: Json, registry: Registry)
    requires InOrder(s, registry) && s.holding == None
    ensures Whole(s.handled, s.running, s.inbox.queue, PayloadOf(j, registry)) == Payloads(s.arrived + [j], registry)
  {
    assert (s.arrived + [j])[..|s.arrived|] == s.arrived;
    var w := s.handled + AsSeq(s.running) + s.inbox.queue;
    assert w + [] == w;
  }

  lemma TakenKeepsOrder(s: State, e: Chan.Event<Payload>, registry: Registry)
    requires InOrder(s, registry) && s.running == None && e in {Chan.Take(DISPATCHER), Chan.Resume(DISPATCHER)}
    ensures InOrder(Taken(s, e), registry)
  {
    if |s.inbox.queue| > 0 {
      WholeAfterTake(s.handled, s.inbox.queue, s.holding);
    }
  }

  lemma StepKeepsOrder(s: State, e: Event, registry: Registry)
    requires InOrder(s, registry) && OneDispatcher(s) && Enabled(s, e)
    ensures InOrder(Apply(s, e, registry), registry)
  {
    match e
    case Arrive(j) => WholeAfterArrive(s, j, registry);
    case PutPayload => WholeAfterPut(s.handled, s.running, s.inbox.queue, s.holding.value);
    case TakePayload => TakenKeepsOrder(s, Chan.Take(DISPATCHER), registry);
    case Wake => TakenKeepsOrder(s, Chan.Resume(DISPATCHER), registry);
    case RunPayload(_) => WholeAfterRun(s.handled, s.running.value, s.inbox.queue, s.holding);
    case _ =>
  }

  lemma {:induction false} RunsKeepOrder(es: seq<Event>, registry: Registry)
    requires CanRun(es, registry)
    ensures InOrder(After(es, registry), registry)
  {
    if |es| > 0 {
      var before := es[..|es| - 1];
      RunsKeepOrder(before, registry);
      RunsKeepInv(before, registry);
      StepKeepsOrder(After(before, registry), es[|es| - 1], registry);
    }
  }

  lemma WholeSplits(handled: seq<Payload>, running: Option<Payload>, queue: seq<Payload>, holding: Option<Payload>)
    ensures Whole(handled, running, queue, holding) == handled + (AsSeq(running) + queue + AsSeq(holding))
  {
  }

  /** Handlers are called with the contents of the accepted requests and events, each
      once and in the order of their arrival: at any moment with a first part of them,
      and the others are being run, queued and held. */
  lemma HandledInOrder(es: seq<Event>, registry: Registry)
    requires CanRun(es, registry)
    ensures var s := After(es, registry);
      Payloads(s.arrived, registry) == s.handled + (AsSeq(s.running) + s.inbox.queue + AsSeq(s.holding))
  {
    RunsKeepOrder(es, registry);
    var s := After(es, registry);
    WholeSplits(s.handled, s.running, s.inbox.queue, s.holding);
  }

  /** How the handlers of the requests ended, in the order in which they ran. */
  function Outcomes(es: seq<Event>, registry: Registry): seq<bool> {
    if |es| == 0 then []
    else
      var before, e := es[..|es| - 1], es[|es| - 1];
      var running := After(before, registry).running;
      Outcomes(before, registry) + if e.RunPayload? && running.Some? && running.value.RunRequest? then [e.success] else []
  }

  lemma StepAnswers(s: State, e: Event, registry: Registry)
    requires Enabled(s, e)
    ensures Apply(s, e, registry).responses == s.responses + if e.RunPayload? then Answer(s.running.value, e.success) else []
  {
    assert s.responses + [] == s.responses;
  }

  /** Each response says how its handler ended. */
  lemma {:induction false} ResponsesTellOutcomes(es: seq<Event>, registry: Registry)
    requires CanRun(es, registry)
    ensures var rs := After(es, registry).responses;
      |rs| == |Outcomes(es, registry)| && forall i | 0 <= i < |rs| :: rs[i].success == Outcomes(es, registry)[i]
  {
    if |es| > 0 {
      var before := es[..|es| - 1];
      ResponsesTellOutcomes(before, registry);
      StepAnswers(After(before, registry), es[|es| - 1], registry);
    }
  }

  /** Whenever the dispatching thread sleeps and nothing is about to be put, every
      accepted request has been answered. */
  lemma AllAnsweredWhenAsleep(es: seq<Event>, registry: Registry)
    requires CanRun(es, registry)
    requires DISPATCHER in After(es, registry).inbox.sleeping && After(es, registry).holding == None
    ensures Answered(After(es, registry).responses) == Accepted(After(es, registry).arrived, registry)
  {
    RunsKeepInv(es, registry);
  }

  /** Neither thread can go on by itself. */
  predicate Stuck(s: State) {
    && !Enabled(s, PutPayload) && !Enabled(s, TakePayload) && !Enabled(s, Wake)
    && !Enabled(s, RunPayload(true)) && !Enabled(s, RunPayload(false))
  }

  lemma StuckMeansAsleep(s: State)
    requires Stuck(s) && !s.ended
    ensures DISPATCHER in s.inbox.sleeping && s.holding == None
  {
  }

  /** Nothing is forgotten: when neither thread can go on by itself, and the
      dispatching thread has not ended, every accepted request has been answered. */
  lemma NothingIsForgotten(es: seq<Event>, registry: Registry)
    requires CanRun(es, registry) && Stuck(After(es, registry)) && !After(es, registry).ended
    ensures Answered(After(es, registry).responses) == Accepted(After(es, registry).arrived, registry)
  {
    StuckMeansAsleep(After(es, registry));
    AllAnsweredWhenAsleep(es, registry);
  }

  /* The threads' own steps come to an end */

  /** Steps that only work off what is there: no arrival, no close, no spurious
      wake-up. */
  predicate Drains(e: Event) {
    e.PutPayload? || e.TakePayload? || e.Wake? || e.RunPayload?
  }

  /** Where the dispatching thread is: it runs, waits in take, has ended, or is about
      to take. */
  function DispatcherWork(s: State): nat {
    if s.running.Some? then 2 else if s.ended || DISPATCHER in s.inbox.sleeping then 0 else 1
  }

  function Work(s: State): nat {
    (if s.holding.Some? then 4 else 0) + 2 * |s.inbox.queue| + DispatcherWork(s)
  }

  lemma DrainDecreases(s: State, e: Event, registry: Registry)
    requires Inv(s, registry) && Enabled(s, e) && Drains(e)
    ensures Work(Apply(s, e, registry)) < Work(s)
  {
  }

  /** Without arrivals, closes and spurious wake-ups, any run stops after at most as
      many steps as there is work. */
  lemma {:induction false} DrainTerminates(es: seq<Event>, more: seq<Event>, registry: Registry)
    requires CanRun(es, registry) && CanRun(es + more, registry) && forall e <- more :: Drains(e)
    ensures Work(After(es + more, registry)) + |more| <= Work(After(es, registry))
    decreases |more|
  {
    if |more| == 0 {
      assert es + more == es;
    } else {
      var init, e := more[..|more| - 1], more[|more| - 1];
      assert (es + more)[..|es + more| - 1] == es + init && (es + more)[|es + more| - 1] == e;
      DrainTerminates(es, init, registry);
      RunsKeepInv(es + init, registry);
      DrainDecreases(After(es + init, registry), e, registry);
    }
  }

  /** The inbox has been closed. */
  predicate Closed(es: seq<Event>) {
    exists i :: 0 <= i < |es| && es[i].CloseInbox?
  }

  lemma StepCloses(s: State, e: Event, registry: Registry)
    requires Enabled(s, e)
    ensures Apply(s, e, registry).inbox.closed <==> s.inbox.closed || e.CloseInbox?
    ensures Apply(s, e, registry).ended ==> s.ended || s.inbox.closed
  {
  }

  lemma {:induction false} ClosedIff(es: seq<Event>, registry: Registry)
    requires CanRun(es, registry)
    ensures After(es, registry).inbox.closed <==> Closed(es)
    ensures After(es, registry).ended ==> Closed(es)
  {
    if |es| > 0 {
      var before := es[..|es| - 1];
      ClosedIff(before, registry);
      StepCloses(After(before, registry), es[|es| - 1], registry);
      if Closed(before) {
        var i :| 0 <= i < |before| && before[i].CloseInbox?;
        assert es[i].CloseInbox?;
      }
      if i :| 0 <= i < |es| && es[i].CloseInbox? {
        assert i < |before| ==> before[i].CloseInbox?;
      }
    }
  }

  /** The dispatching thread ends only with the inbox drained. */
  lemma EndsWhenDrained(s: State, e: Event, registry: Registry)
    requires Inv(s, registry) && Enabled(s, e) && !s.ended && Apply(s, e, registry).ended
    ensures s.inbox.queue == []
    ensures s.holding == None ==> Answered(s.responses) == Accepted(s.arrived, registry)
  {
  }

  /** When neither thread can go on by itself, the dispatching thread has ended exactly
      if the inbox was closed; joining it then does not wait. */
  lemma EndedIff(es: seq<Event>, registry: Registry)
    requires CanRun(es, registry) && Stuck(After(es, registry))
    ensures After(es, registry).ended <==> Closed(es)
  {
    ClosedIff(es, registry);
    RunsKeepInv(es, registry);
    if !After(es, registry).ended {
      StuckMeansAsleep(After(es, registry));
    }
  }

  /** The two threads' side of a session. What the source keeps in local variables
      of the threads between two steps are fields here. */
  class Impl {
    const registry: Registry
    const inbox: Chan.Channel<Payload>
    var holding: Option<Payload>
    var running: Option<Payload>
    var ended: bool
    var responses: seq<Response>
    ghost var arrived: seq<Json>
    ghost var handled: seq<Payload>

    constructor (registry: Registry)
      ensures Abs() == Init() && fresh(inbox) && this.registry == registry
    {
      this.registry := registry;
      inbox := new Chan.Channel<Payload>();
      holding, running, ended, responses, arrived, handled := None, None, false, [], [], [];
    }

    ghost function Abs(): State
      reads this, inbox
    {
      State(arrived, holding, inbox.Abstract(), running, ended, responses, handled)
    }

    method ProcessMessage(j: Json) returns (r: Option<Payload>)
      ensures r == PayloadOf(j, registry)
    {
      var d := new NlohmannDeserializer(Some(j));
      var kind := d.DeserializeField(TYPE, String);
      if kind == None {
        return None;
      }
      var sequence := d.DeserializeField(SEQ, Integer);
      if sequence == None {
        return None;
      }
      if kind.value.s == REQUEST {
        r := ProcessRequest(d, j, sequence.value.n);
      } else if kind.value.s == EVENT_TYPE {
        r := ProcessEvent(d, j);
      } else {
        return None;
      }
    }

    method ProcessRequest(d: NlohmannDeserializer, j: Json, sequence: int) returns (r: Option<Payload>)
      requires d.json == Some(j)
      ensures r == RequestPayload(j, sequence, registry)
    {
      var command := d.DeserializeField(COMMAND, String);
      if command == None || command.value.s !in registry.requests {
        return None;
      }
      var arguments := d.DeserializeField(ARGUMENTS, registry.requests[command.value.s]);
      return if arguments.Some? then Some(RunRequest(sequence, command.value.s, arguments.value)) else None;
    }

    method ProcessEvent(d: NlohmannDeserializer, j: Json) returns (r: Option<Payload>)
      requires d.json == Some(j)
      ensures r == EventPayload(j, registry)
    {
      var event := d.DeserializeField(EVENT, String);
      if event == None || event.value.s !in registry.events {
        return None;
      }
      var body := d.DeserializeField(BODY, registry.events[event.value.s]);
      return if body.Some? then Some(RunEvent(event.value.s, body.value)) else None;
    }

    method Receive(j: Json)
      requires Enabled(Abs(), Arrive(j))
      modifies this
      ensures Abs() == Apply(old(Abs()), Arrive(j), registry)
    {
      holding := ProcessMessage(j);
      arrived := arrived + [j];
    }

    method PutHeld()
      requires Enabled(Abs(), PutPayload)
      modifies this, inbox
      ensures Abs() == Apply(old(Abs()), PutPayload, registry)
    {
      inbox.Push(holding.value);
      holding := None;
    }

    method TakeNext(resumed: bool)
      requires Enabled(Abs(), if resumed then Wake else TakePayload)
      modifies this, inbox
      ensures Abs() == Apply(old(Abs()), if resumed then Wake else TakePayload, registry)
    {
      var taken := inbox.Pop(DISPATCHER, resumed);
      match taken {
        case NoReturn =>
        case Returned(None) => ended := true;
        case Returned(Some(p)) => running := Some(p);
      }
    }

    /** Runs the payload. A request's handler succeeds or fails, and its answer is
        written with the next number. */
    method Run(outcome: Outcome, n: int) returns (sent: Option<Json>)
      requires Enabled(Abs(), RunPayload(outcome.Succeeded?))
      modifies this
      ensures Abs() == Apply(old(Abs()), RunPayload(outcome.Succeeded?), registry)
      ensures sent == match old(running).value
                      case RunRequest(requestSeq, command, _) => Some(ResponseMessage(n, requestSeq, command, outcome))
                      case RunEvent(_, _) => None
    {
      match running.value {
        case RunRequest(requestSeq, command, _) =>
          responses := responses + [Response(requestSeq, command, outcome.Succeeded?)];
          sent := Some(ResponseMessage(n, requestSeq, command, outcome));
        case RunEvent(_, _) =>
          sent := None;
          assert responses == responses + [];
      }
      handled := handled + [running.value];
      running := None;
    }
  }
}
