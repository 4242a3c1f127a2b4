/**
 The JSON messages of a session: the fields that 3rd/cppdap/src/session.cpp writes
 and reads.
 */
module Messages {
  import opened Common
  import opened Serialization

  const TYPE := "type"
  const SEQ := "seq"
  const COMMAND := "command"
  const ARGUMENTS := "arguments"
  const EVENT := "event"
  const BODY := "body"
  const REQUEST_SEQ := "request_seq"
  const SUCCESS := "success"
  const MESSAGE := "message"
  const REQUEST := "request"
  const RESPONSE := "response"
  const EVENT_TYPE := "event"

  function ReadField(j: Json, name: string, s: Schema): Option<Value> {
    if IsStructured(Some(j)) then Read(s, FieldCell(j, name)) else None
  }

  function ReadString(j: Json, name: string): Option<string> {
    match ReadField(j, name, String)
    case Some(StringValue(s)) => Some(s)
    case _ => None
  }

  function ReadInteger(j: Json, name: string): Option<int> {
    match ReadField(j, name, Integer)
    case Some(IntValue(n)) => Some(n)
    case _ => None
  }

  function ReadBoolean(j: Json, name: string): Option<bool> {
    match ReadField(j, name, Boolean)
    case Some(BoolValue(b)) => Some(b)
    case _ => None
  }

  /** The message that send writes for a request. */
  function RequestMessage(n: int, command: string, arguments: Cell): Json {
    var fields := map[SEQ := Int(n), TYPE := Str(REQUEST), COMMAND := Str(command)];
    Object(if arguments.removed then fields else fields[ARGUMENTS := arguments.json])
  }

  /** The message that send writes for an event. */
  function EventMessage(n: int, event: string, body: Cell): Json {
    var fields := map[SEQ := Int(n), TYPE := Str(EVENT_TYPE), EVENT := Str(event)];
    Object(if body.removed then fields else fields[BODY := body.json])
  }

  /** How a request handler ended: with a response, as it was serialized, or with an
      error. */
  datatype Outcome = Succeeded(body: Cell) | Failed(message: string)

  /** The message that answers a request. */
  function ResponseMessage(n: int, requestSeq: int, command: string, outcome: Outcome): Json {
    var fields := map[SEQ := Int(n), TYPE := Str(RESPONSE), REQUEST_SEQ := Int(requestSeq),
                      SUCCESS := Bool(outcome.Succeeded?), COMMAND := Str(command)];
    Object(match outcome
           case Succeeded(body) => if body.removed then fields else fields[BODY := body.json]
           case Failed(message) => fields[MESSAGE := Str(message)])
  }

  /** What a session looks at in a response; success and message may be missing. */
  datatype Reply = Reply(requestSeq: int, success: Option<bool>, hasMessage: bool)

  function ReplyOf(j: Json): Option<Reply> {
    match ReadInteger(j, REQUEST_SEQ)
    case None => None
    case Some(n) => Some(Reply(n, ReadBoolean(j, SUCCESS), ReadString(j, MESSAGE).Some?))
  }

  lemma NamesDiffer()
    ensures SEQ != TYPE && SEQ != COMMAND && SEQ != ARGUMENTS && SEQ != BODY && SEQ != REQUEST_SEQ && SEQ != SUCCESS && SEQ != MESSAGE
    ensures TYPE != COMMAND && TYPE != ARGUMENTS && TYPE != BODY && TYPE != REQUEST_SEQ && TYPE != SUCCESS && TYPE != MESSAGE
    ensures COMMAND != ARGUMENTS && COMMAND != BODY && COMMAND != REQUEST_SEQ && COMMAND != SUCCESS && COMMAND != MESSAGE
    ensures REQUEST_SEQ != BODY && REQUEST_SEQ != SUCCESS && REQUEST_SEQ != MESSAGE
    ensures SUCCESS != BODY && SUCCESS != MESSAGE && BODY != MESSAGE
    ensures EVENT != SEQ && EVENT != TYPE && EVENT != BODY
  {
    assert EVENT[0] == 'e';
    assert SEQ[0] == 's' && SEQ[1] == 'e' && TYPE[0] == 't' && COMMAND[0] == 'c' && ARGUMENTS[0] == 'a';
    assert BODY[0] == 'b' && REQUEST_SEQ[0] == 'r' && SUCCESS[0] == 's' && SUCCESS[1] == 'u' && MESSAGE[0] == 'm';
  }

  lemma RequestFields(n: int, command: string, arguments: Cell)
    ensures var j := RequestMessage(n, command, arguments);
      && FieldCell(j, TYPE) == Some(Str(REQUEST)) && FieldCell(j, SEQ) == Some(Int(n))
      && FieldCell(j, COMMAND) == Some(Str(command))
      && FieldCell(j, ARGUMENTS) == (if arguments.removed then None else Some(arguments.json))
      && j.fields.Keys <= {TYPE, SEQ, COMMAND, ARGUMENTS}
  {
    NamesDiffer();
  }

  lemma EventFields(n: int, event: string, body: Cell)
    ensures var j := EventMessage(n, event, body);
      && FieldCell(j, TYPE) == Some(Str(EVENT_TYPE)) && FieldCell(j, SEQ) == Some(Int(n))
      && FieldCell(j, EVENT) == Some(Str(event))
      && FieldCell(j, BODY) == (if body.removed then None else Some(body.json))
      && j.fields.Keys <= {TYPE, SEQ, EVENT, BODY}
  {
    NamesDiffer();
  }

  /** A response has the number of its request and its command; the body is there for
      a result, unless it asked for its removal, and the message for an error. */
  lemma ResponseFields(n: int, requestSeq: int, command: string, outcome: Outcome)
    ensures var j := ResponseMessage(n, requestSeq, command, outcome);
      && FieldCell(j, TYPE) == Some(Str(RESPONSE)) && FieldCell(j, SEQ) == Some(Int(n))
      && FieldCell(j, REQUEST_SEQ) == Some(Int(requestSeq)) && FieldCell(j, SUCCESS) == Some(Bool(outcome.Succeeded?))
      && FieldCell(j, COMMAND) == Some(Str(command))
      && FieldCell(j, BODY) == (if outcome.Succeeded? && !outcome.body.removed then Some(outcome.body.json) else None)
      && FieldCell(j, MESSAGE) == (if outcome.Failed? then Some(Str(outcome.message)) else None)
      && j.fields.Keys <= {TYPE, SEQ, REQUEST_SEQ, SUCCESS, COMMAND, BODY, MESSAGE}
  {
    NamesDiffer();
  }

  /** A response reads back as the complete reply to its request, whatever its body. */
  lemma ResponseReadsBack(n: Int64, requestSeq: Int64, command: string, outcome: Outcome)
    ensures var j := ResponseMessage(n, requestSeq, command, outcome);
      && ReadString(j, TYPE) == Some(RESPONSE) && ReadInteger(j, SEQ) == Some(n)
      && ReplyOf(j) == Some(Reply(requestSeq, Some(outcome.Succeeded?), outcome.Failed?))
  {
    ResponseFields(n, requestSeq, command, outcome);
  }

  /** A typed result is what the other side reads from the body of the response,
      exactly if it survives serialization as a struct field. */
  lemma ResultArrivesIff(n: Int64, requestSeq: Int64, command: string, s: Schema, v: Value)
    requires Typed(s, v) && DistinctNames(s) && Write(s, v).Some?
    ensures ReadField(ResponseMessage(n, requestSeq, command, Succeeded(Write(s, v).value)), BODY, s) == Some(v) <==> Keeps(s, v, true)
  {
    ResponseFields(n, requestSeq, command, Succeeded(Write(s, v).value));
    RoundTripIff(s, v, true);
  }

  /** An error is what it reads from the message. */
  lemma ErrorArrives(n: Int64, requestSeq: Int64, command: string, message: string)
    ensures ReadString(ResponseMessage(n, requestSeq, command, Failed(message)), MESSAGE) == Some(message)
  {
    ResponseFields(n, requestSeq, command, Failed(message));
  }
}
