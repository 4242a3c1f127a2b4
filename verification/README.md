# Verified models of m65dap

m65dap lets a debug-adapter client debug programs on a MEGA65: it speaks the
Debug Adapter Protocol on one side (through the bundled cppdap library) and the
line-oriented serial monitor of the MEGA65 on the other. This project models the
parts of it whose correctness is least obvious from the code, and proves what
they promise. `dafny verify dfyconfig.toml` checks everything.

| file | models |
|---|---|
| `RwMutex.dfy` | the reader/writer lock of cppdap, over any number of threads and any schedule, spurious wake-ups included |
| `Chan.dfy`, `Pipe.dfy` | the blocking queue and the in-memory byte pipe of cppdap, likewise |
| `ContentStream.dfy` | the framing of messages on a byte stream, "Base Protocol" of the Debug Adapter Protocol |
| `Serialization.dfy` | writing values to JSON trees and reading them back, driven by type descriptions |
| `Messages.dfy` | the JSON messages of a session and the fields that are read from them |
| `Correlation.dfy` | sequence numbers and the map from requests to response handlers |
| `Session.dfy` | from arriving messages through the receiving thread, the inbox and the dispatching thread to responses |
| `Monitor.dfy` | the monitor side, after the mock of the test suite: loading bytes, printing memory |
| `TargetMemory.dfy` | fetching target memory by monitor commands |
| `MemoryCache.dfy` | the cache of 256-byte lines |
| `RepairedRead.dfy` | its read with the line address moved on, over the same bounded table |
| `BreakpointCheck.dfy` | whether a breakpoint was triggered, decided through the cache |
| `Evaluation.dfy` | the printed value of an expression |
| `Debugger.dfy` | the state machine of pause, cont, next, breakpoints and evaluation, over the cache |
| `DebuggerRuns.dfy` | runs of that machine: one as it should be, and some that end wrong |
| `ReplaceAll.dfy` | the in-place string replacement |
| `Text.dfy`, `Common.dfy` | decimal and hexadecimal text; shared datatypes |

Objects that the source changes in place are classes with the source's fields;
their methods are proved against functions or relations on values, and the
theorems are about those. Threads appear as interleaved critical sections: an
event is what one thread does between taking a mutex and releasing it or falling
asleep. Commands to the target, calls into the peer and the choices of the
scheduler are parameters; a command that gets no answer may or may not have been
carried out.

## What the proofs found

These hold of the code as it is, and each is stated exactly.

* A thread that asks for the write lock while it holds a read lock blocks itself
  for ever. Once requests cease, every waiting writer is served if and only if there
  is no such thread (`RwMutex.AllServedIff`). While they go on, two readers who relieve
  each other keep a writer asleep through runs of any length
  (`RwMutex.ReadersOvertake`).
* An empty message stops the reader: a header with length zero is neither
  delivered nor consumed. Messages come back exactly when no message follows an
  empty one (`ContentStream.RoundTripIff`). The reader also passes over a NUL
  byte behind blanks or digits, and it takes only a header made of this one field.
  The protocol's text would allow further header fields; the model follows the code.
* `MemoryCache::read` does not advance the line address. It reads memory exactly if
  the access stays inside one line (`MemoryCache.WrappedIsDirectIff`). Advancing the
  address repairs it for all lengths as long as the table has free lines for what has
  to be fetched (`RepairedRead.ReadWithRoomIsDirect`). Beyond that the repaired read
  can still deliver one wrong line, the one that was mapped to the first entry of the
  table, and it does so exactly if the line that overwrote it during the read holds
  other bytes (`RepairedRead.ReadIsDirectIff`, with an example in
  `RepairedRead.ReadCanShowAnotherLine`).
* A cache miss with all lines in use leaves the overwritten line mapped from its
  old address. That is harmless exactly if both hold the same bytes
  (`MemoryCache.FullMissCoherentIff`). If its fetch fails, what it has written by then
  stays in the mapped line; so a failing fetch, and with it an evaluation, is sure to
  be harmless exactly with room for its line (`MemoryCache.FailedFetchIff`,
  `Debugger.EvaluateKeepsInvIff`). For a cache of any size, `DebuggerRuns.OverflowRun`
  evaluates one line more than it holds and then gets that line's byte from line 0.
* Within capacity, while memory changes, a mapped line holds memory as of the step
  that fetched it (`MemoryCache.LinesHoldTheirFills`), and this is what every
  evaluation shows in any run, whatever else goes wrong in it
  (`Debugger.EvaluationShowsFill`).
* A stop that is noticed by polling, a pause whose registers cannot be read and a
  step without answer leave mapped lines behind. The cache can be trusted afterwards
  exactly if no line was mapped before (`Debugger.PolledStopIff`,
  `Debugger.FailedPauseIff`, `Debugger.FailedNextIff`); `DebuggerRuns.StaleRun` is a
  whole run that ends with an outdated evaluation.
* Over a cache that answers for memory, a poll takes a running target for stopped
  exactly if the program counter is the target of the jump that `read` finds at the
  breakpoint, and always where it finds none; if the jump and its pointer each lie in
  one line, that is the jump in memory
  (`Debugger.PollOfRunningTargetIff`, `DebuggerRuns.PolledWhileRunning`).
* A breakpoint message that cannot be read, or that the check rejects, lets the target
  go on. If the debugger believed it stopped, as for a message that comes late, it is
  wrong from then on (`Debugger.UnreadBreakpointIff`,
  `Debugger.RejectedBreakpointIff`). A check that a failing fetch leaves undecided is
  sure to do no harm exactly if there is a free line for whatever it has to fetch
  (`Debugger.UndecidedBreakpointIff`).
* The check reads its jump by `read`, and through lines that were fetched before the
  target ran. Whatever memory has become, it answers for it, pointers across two lines
  set aside, exactly if the three bytes from the breakpoint on lie in one line and no
  line that the check may read is mapped (`BreakpointCheck.CheckAnswersForMemoryIff`).
  Given an indirect jump in one line, it answers exactly if the pointer lies in one
  line, too, and that line is not mapped
  (`BreakpointCheck.IndirectAnswersForMemoryIff`). In `DebuggerRuns.StaleCheckRun` it
  rejects a message by code that is no longer there; in `DebuggerRuns.NeverStops` the
  target halts, any number of times, at a breakpoint whose jump goes on in the next
  line, and is sent on each time.
* Unset optionals over optionals, nulls or empty structs, unset optionals over
  any-like types outside structs, and any-like types that hold something other than a
  scalar do not survive serialization; everything else does
  (`Serialization.RoundTripIff`).
* Sequence numbers are distinct exactly up to 2^32 messages
  (`Correlation.SeqsDistinctIff`). In longer sessions the handler of a request is
  refused exactly if that of another request, whose number differs by a multiple of
  2^32, still waits (`Correlation.RefusedIff`). Everything holds for the requests that
  are not refused, in sessions of any length; the response to a refused one reaches
  another handler or none (`Correlation.RefusedResponseGoesElsewhere`), and
  `Correlation.WrappedNumberMeetsOldHandler` is a run where that happens.

## Model

| member | source | states |
|---|---|---|
| RwMutex.MutualExclusion | 3rd/cppdap/src/rwmutex.h:59-87 | in every reachable state at most one thread writes, and none reads meanwhile; sleeping, woken and writing threads are disjoint |
| RwMutex.LocksAreAccounted | 3rd/cppdap/src/rwmutex.h:59-87 | in every run a thread that has asked for the write lock has it or waits for it until it is given back, and it has as many read locks as it took and has not given back |
| RwMutex.NoLostWakeup | 3rd/cppdap/src/rwmutex.h:64-87 | with a writer asleep, somebody reads, writes or has been woken and can go on; the lock is stuck only through a thread that blocks itself |
| RwMutex.QuiescentShape | 3rd/cppdap/src/rwmutex.h:59-87 | a state in which nothing can finish is one where all remaining readers sleep in lockWriter; without those it is the unlocked state |
| RwMutex.DrainTerminates | 3rd/cppdap/src/rwmutex.h:59-87 | without new requests and spurious wake-ups a run has at most as many steps as the weighted count of holders and waiters |
| RwMutex.AllServedIff | 3rd/cppdap/src/rwmutex.h:72-87 | when such a run has nothing left to do, every writer that waited has held the lock, if and only if no thread waits while it reads |
| RwMutex.SelfBlockedForever | 3rd/cppdap/src/rwmutex.h:72-80 | a thread that waits for the write lock while reading never gets it, whatever happens |
| RwMutex.ReadersOvertake | 3rd/cppdap/src/rwmutex.h:59-80 | for every n a reachable state and a run of n reader events from it through which a writer sleeps |
| RwMutex.SelfBlockedIsReachable | 3rd/cppdap/src/rwmutex.h:59-80 | a read lock and then a write lock by the same thread lead there |
| RwMutex.CountersDecide | 3rd/cppdap/src/rwmutex.h:67-84 | the two counters answer the questions the code asks them: is there a reader, is there a waiting writer |
| RwMutex.RWMutex.LockWriter | 3rd/cppdap/src/rwmutex.h:72-80 | counts the writer as pending and sleeps, or takes the lock, as the transition system says |
| RwMutex.RWMutex.LockWriterWoken | 3rd/cppdap/src/rwmutex.h:76-79 | a woken writer tests again, and sleeps again or leaves the count and has the lock |
| RwMutex.RWMutex.UnlockReader | 3rd/cppdap/src/rwmutex.h:64-70 | the last reader wakes one pending writer |
| RwMutex.RWMutex.UnlockWriter | 3rd/cppdap/src/rwmutex.h:82-87 | a writer that leaves wakes one pending writer |
| Chan.NoLostWakeup | 3rd/cppdap/src/chan.h:42-86 | a taker asleep means an empty and open queue, although put notifies only on the empty queue |
| Chan.FirstInFirstOut | 3rd/cppdap/src/chan.h:56-86 | since the last reset, the items taken by all takers followed by the items queued are the items put, in order |
| Chan.NoneMeansClosedAndDrained | 3rd/cppdap/src/chan.h:56-66 | take gives nothing exactly if there was a close with no reset since and everything put has been taken, and sleeps exactly if there was none and everything has been taken |
| Chan.ClosedReleasesAll | 3rd/cppdap/src/chan.h:49-66 | after a close with no reset since, no taker sleeps: whoever is inside take can go on, and every take returns |
| Chan.ClosedIff | 3rd/cppdap/src/chan.h:42-54 | the flag is set exactly after a close with no reset since |
| Chan.TakersStay | 3rd/cppdap/src/chan.h:56-86 | exactly the threads whose take has not returned sleep or have been woken |
| Chan.Channel.Push | 3rd/cppdap/src/chan.h:68-86 | put appends, and wakes all takers if the queue was empty and open |
| Chan.Channel.Pop | 3rd/cppdap/src/chan.h:56-66 | take pops the front, gives nothing, or sleeps |
| Pipe.NoLostWakeup | 3rd/cppdap/src/io.cpp:35-77 | a reader asleep means an empty and open pipe |
| Pipe.OpenReadIsComplete | 3rd/cppdap/src/io.cpp:41-58 | a read gives no more than asked for, and on an open pipe exactly as much |
| Pipe.ClosedReadReturns | 3rd/cppdap/src/io.cpp:35-59 | after a close no reader sleeps, and each read returns with what it has got by then; what is buffered stays there |
| Pipe.Conservation | 3rd/cppdap/src/io.cpp:41-77 | with one reader and any number of writers, bytes delivered, in the reader's hands and buffered are the bytes written, in order |
| Pipe.PoppedInOrder | 3rd/cppdap/src/io.cpp:41-77 | with any number of readers bytes leave in the order they were written |
| Pipe.PipeBuffer.ReadPass | 3rd/cppdap/src/io.cpp:41-58 | one pass of the reading loop takes what is there, up to what is still wanted |
| ContentStream.RoundTripIff | 3rd/cppdap/src/content_stream.cpp:46-92 | reading as often as messages were written returns exactly these messages if and only if no message follows an empty one |
| ContentStream.FrameIsRead | 3rd/cppdap/src/content_stream.cpp:182-187 | a written non-empty message is read back, its decimal length included, and no byte behind it is consumed |
| ContentStream.ReadIff | 3rd/cppdap/src/content_stream.cpp:46-139 | a read delivers a message exactly from this grammar, behind the first token: blanks, a NUL or not, digits that denote its length, a NUL or not, the end of the header, the message |
| ContentStream.EmptyFrameBlocks | 3rd/cppdap/src/content_stream.cpp:68-70 | a frame of length zero gives nothing and stays where it is |
| ContentStream.ResyncDropsToFirstToken | 3rd/cppdap/src/content_stream.cpp:94-107 | scanning drops exactly the bytes before the first occurrence of the header token |
| ContentStream.NoiseIsSkipped | 3rd/cppdap/src/content_stream.cpp:94-107 | bytes without the token before a frame do not harm it |
| ContentStream.ReadLeavesSuffix | 3rd/cppdap/src/content_stream.cpp:46-92 | after a read the bytes ahead are a suffix of those before, and the message is what lay right before them |
| ContentStream.FailedReadRepeats | 3rd/cppdap/src/content_stream.cpp:46-79 | a failed read leaves everything from the header token on, so the next read fails alike |
| ContentStream.ContentReader.Read | 3rd/cppdap/src/content_stream.cpp:46-92 | whatever the source's short reads, the reader returns what the specification on the whole stream returns, leaves that rest, and reads nothing ahead when it succeeds with an empty buffer |
| ContentStream.ContentReader.MatchAny | 3rd/cppdap/src/content_stream.cpp:129-139 | takes the next byte if it is one of the set; passes over a NUL |
| ContentStream.ContentReader.Buffer | 3rd/cppdap/src/content_stream.cpp:141-159 | fills the buffer to the wanted size exactly if the stream has that many bytes, without losing any |
| ContentStream.ContentReader.ScanFor | 3rd/cppdap/src/content_stream.cpp:94-107 | drops bytes until the token is next |
| ContentStream.ContentWriter.Write | 3rd/cppdap/src/content_stream.cpp:182-187 | writes one frame, and succeeds exactly if the sink takes header and content |
| ContentStream.ReadAll | 3rd/cppdap/src/content_stream.cpp:46-92 | repeated reads return what the specification returns, whatever the short reads |
| ContentStream.SendAndReceive | 3rd/cppdap/src/content_stream.cpp:46-187 | messages are sent exactly if the sink takes every write, and read by the reader they then come back as they were exactly if none follows an empty one |
| Text.ValueOfRender | 3rd/cppdap/src/content_stream.cpp:60-66 | a printed number reads back, in decimal and in hexadecimal |
| Text.PadRoundTrip | src/test/mock_mega65.cpp:177-185 | and so does a zero-padded one |
| Serialization.RoundTripIff | 3rd/cppdap/include/dap/serialization.h:93-200 | a typed value with distinct field names is read back unchanged, as a field or elsewhere, exactly under Keeps |
| Serialization.ScalarsOnTheWire | 3rd/cppdap/src/nlohmann_json_serializer.cpp:151-196 | which JSON value each scalar is written as |
| Serialization.EntriesOnTheWire | 3rd/cppdap/src/nlohmann_json_serializer.cpp:171-179 | an object of scalars is written entry by entry, and exactly the one without entries as null |
| Serialization.MembersOnTheWire | 3rd/cppdap/src/nlohmann_json_serializer.cpp:211-230 | each member of a struct is on the wire under its name, as it is written by itself, unless it asked for its removal |
| Serialization.ElementsOnTheWire | 3rd/cppdap/src/nlohmann_json_serializer.cpp:198-209 | each element of an array is on the wire in its place |
| Serialization.TakenFromTheWireIff | 3rd/cppdap/src/nlohmann_json_serializer.cpp:40-103 | which JSON values are read as which scalar type |
| Serialization.NumbersFromTheWire | 3rd/cppdap/src/nlohmann_json_serializer.cpp:48-62 | an integer is read as a number of the same value and as an integer modulo 2^64; an optional never fails |
| Serialization.MembersFromTheWire | 3rd/cppdap/include/dap/typeof.h:163-175 | a struct is read exactly if each member is, from the field of its name |
| Serialization.ElementsFromTheWire | 3rd/cppdap/src/nlohmann_json_serializer.cpp:106-118 | an array is read exactly if each element is |
| Serialization.EntriesFromTheWireIff | 3rd/cppdap/src/nlohmann_json_serializer.cpp:72-83 | an object is read exactly if all its entries are scalars or null |
| Serialization.ItemAt | 3rd/cppdap/src/nlohmann_json_serializer.cpp:72-83 | the elements of an array count as entries under their decimal indices |
| Serialization.MembersRoundTrip | 3rd/cppdap/include/dap/typeof.h:163-189 | the members of a struct survive together exactly if each survives |
| Serialization.MissingFails | 3rd/cppdap/src/null_json_serializer.h:25-42 | which types cannot be read from a missing field |
| Serialization.NullFails | 3rd/cppdap/src/nlohmann_json_serializer.cpp:40-133 | which types cannot be read from a null |
| Serialization.EntriesRoundTrip | 3rd/cppdap/src/nlohmann_json_serializer.cpp:171-179 | an object of scalars survives, an empty one by way of null; any other cannot be written |
| Serialization.NlohmannSerializer.Serialize | 3rd/cppdap/src/nlohmann_json_serializer.cpp:151-234 | succeeds and leaves the cell and the removal mark that the specification says |
| Serialization.NlohmannSerializer.SerializeObject | 3rd/cppdap/src/nlohmann_json_serializer.cpp:171-179 | entry by entry, each in its own cell |
| Serialization.NlohmannSerializer.SerializeArray | 3rd/cppdap/src/nlohmann_json_serializer.cpp:198-209 | element by element; removal is ignored |
| Serialization.NlohmannSerializer.SerializeStruct | 3rd/cppdap/src/nlohmann_json_serializer.cpp:211-230 | field by field; a field that asks for removal is erased |
| Serialization.NlohmannDeserializer.Deserialize | 3rd/cppdap/include/dap/serialization.h:93-122 | reads any JSON tree, or a missing field, as the specification says |
| Serialization.NlohmannDeserializer.DeserializeField | 3rd/cppdap/src/nlohmann_json_serializer.cpp:120-133 | fails on what has no fields; a missing field is read from the deserializer that has nothing |
| Serialization.NlohmannDeserializer.DeserializeStruct | 3rd/cppdap/include/dap/typeof.h:163-175 | stops at the first field that fails |
| Serialization.NlohmannDeserializer.DeserializeObject | 3rd/cppdap/src/nlohmann_json_serializer.cpp:72-83 | reads the items of objects, arrays and scalars, if all are scalars |
| Serialization.RoundTrip | 3rd/cppdap/include/dap/serialization.h:93-200 | a serializer followed by a deserializer gives the value back exactly under Keeps |
| Correlation.SeqsDistinctIff | 3rd/cppdap/src/session.cpp:96-117 | all numbers of a session differ exactly up to 2^32 messages, although requests keep theirs in an int |
| Correlation.SeqIsCount | 3rd/cppdap/src/session.cpp:96-117 | the messages are numbered from 1 on, modulo 2^32, with a sign in requests |
| Correlation.UnansweredIsRegistered | 3rd/cppdap/src/session.cpp:92-112 | under any interleaving of senders and in runs of any length, a request that was written and not answered has its handler in the map under its number exactly if that was not refused; up to 2^32 messages none is |
| Correlation.RefusedIff | 3rd/cppdap/src/session.cpp:192-202 | a handler is refused exactly if that of another request, whose number differs by a multiple of 2^32, still waits |
| Correlation.HandlersRunOnce | 3rd/cppdap/src/session.cpp:179-202 | in runs of any length no handler runs twice, each only for the request_seq of its request, and a refused one never, whatever the peer sends |
| Correlation.ResponseFindsItsHandler | 3rd/cppdap/src/session.cpp:414-455 | a response to a request whose handler was not refused calls it exactly if it is complete; in any case the request is answered for good |
| Correlation.CompleteIff | 3rd/cppdap/src/session.cpp:430-454 | a response is complete exactly if its success field is true, or is false and there is a message |
| Correlation.RefusedResponseGoesElsewhere | 3rd/cppdap/src/session.cpp:179-202 | a response to a refused request calls the handler that holds its number, or none |
| Correlation.OtherResponsesFindNothing | 3rd/cppdap/src/session.cpp:182-190 | a response changes nothing exactly if no handler waits under its number |
| Correlation.WrappedNumberMeetsOldHandler | 3rd/cppdap/src/session.cpp:92-112 | a run from the start: the request after 2^32 numbers is written, its handler is refused, and a response to it calls that of the first request |
| Correlation.Impl.BeginRequest | 3rd/cppdap/src/session.cpp:96-96 | draws the next number and keeps it in an int |
| Correlation.Impl.PutHandler | 3rd/cppdap/src/session.cpp:192-202 | puts the handler unless the number is taken |
| Correlation.Impl.FinishRequest | 3rd/cppdap/src/session.cpp:100-111 | the request message is on the wire exactly if its arguments could be serialized and it could be written |
| Correlation.Impl.ProcessResponse | 3rd/cppdap/src/session.cpp:414-455 | reads the response message, takes the handler out of the map and calls it if the response is complete |
| Messages.ResponseReadsBack | 3rd/cppdap/src/session.cpp:340-370 | a response message reads back as the complete reply to its request_seq, whatever its body |
| Messages.RequestFields | 3rd/cppdap/src/session.cpp:100-111 | the fields of a request message, and no others |
| Messages.EventFields | 3rd/cppdap/src/session.cpp:114-127 | the fields of an event message, and no others |
| Messages.ResponseFields | 3rd/cppdap/src/session.cpp:340-370 | the fields of a response message, and no others: the number of the request and its command, the body of a result unless it asked for its removal, the message of an error |
| Messages.ResultArrivesIff | 3rd/cppdap/src/session.cpp:340-349 | a typed result is read from the body of its response unchanged exactly if it survives serialization |
| Messages.ErrorArrives | 3rd/cppdap/src/session.cpp:358-366 | an error is read from the message of its response |
| Session.SentRequestArrivesIff | 3rd/cppdap/src/session.cpp:100-111 | a peer that registered the command accepts a written request with its number and its arguments unchanged exactly if these survive serialization |
| Session.SentEventArrivesIff | 3rd/cppdap/src/session.cpp:379-412 | a peer that registered the event accepts it with its body unchanged exactly if that survives serialization |
| Session.PayloadIff | 3rd/cppdap/src/session.cpp:279-305 | what a message leaves to be done, by its fields alone; nothing else is accepted |
| Session.ResponseReachesItsHandler | 3rd/cppdap/src/session.cpp:307-455 | the response that a peer sends for an accepted request calls the handler of that request, once and for all |
| Session.ResponsesFollowRequests | 3rd/cppdap/src/session.cpp:76-90 | at any moment the responses answer a first part of the accepted requests, one each, in arrival order, with their number and command |
| Session.HandledInOrder | 3rd/cppdap/src/session.cpp:76-90 | handlers are called with the contents of the accepted requests and events, each once and in the order of arrival |
| Session.ResponsesTellOutcomes | 3rd/cppdap/src/session.cpp:334-377 | each response says how the handler of its request ended |
| Session.NothingIsForgotten | 3rd/cppdap/src/session.cpp:76-90 | when neither thread can go on by itself, every accepted request has been answered, unless the dispatching thread has ended |
| Session.DrainTerminates | 3rd/cppdap/src/session.cpp:76-90 | without arrivals, closes and spurious wake-ups the threads stop after at most as many steps as there is work |
| Session.AllAnsweredWhenAsleep | 3rd/cppdap/src/chan.h:56-86 | with the dispatching thread asleep and nothing about to be put, every accepted request has been answered |
| Session.EndedIff | 3rd/cppdap/src/session.cpp:129-140 | when neither thread can go on by itself, the dispatching thread has ended exactly if the inbox was closed |
| Session.EndsWhenDrained | 3rd/cppdap/src/session.cpp:85-89 | it ends only with the inbox drained |
| Session.Impl.ProcessMessage | 3rd/cppdap/src/session.cpp:279-305 | requests and events with type, seq, a registered name and readable contents leave a payload; nothing else does |
| Session.Impl.ProcessRequest | 3rd/cppdap/src/session.cpp:307-332 | the payload carries the number, the command and the arguments |
| Session.Impl.TakeNext | 3rd/cppdap/src/session.cpp:85-89 | takes the next payload, sleeps, or ends the thread |
| Session.Impl.Run | 3rd/cppdap/src/session.cpp:334-377 | a request is answered once, by a message with its number and command and the outcome of its handler; an event is not |
| Monitor.ChunkIndependent | src/test/mock_mega65.cpp:12-20 | a load ends the same however its bytes are cut into writes |
| Monitor.LoadDelivers | src/test/mock_mega65.cpp:114-132 | memory holds the payload at the load address and is otherwise unchanged, one prompt is printed, and exactly the bytes behind the payload are left for the command parser |
| Monitor.PromptEndsReply | src/test/mock_mega65.cpp:86-99 | ahead of the dot of the prompt the text of a reply has its lines, and behind them an empty one where the prompt starts with an end of line |
| Monitor.MockMega65.ProcessLoadBytes | src/test/mock_mega65.cpp:114-132 | one write's share of the load, in place |
| Monitor.MockMega65.StartLoad | src/test/mock_mega65.cpp:223-245 | the load address and length from two 16-bit addresses, with wrap-around |
| Monitor.MockMega65.ExecuteMemoryCommand | src/test/mock_mega65.cpp:159-189 | the m and M commands: one or sixteen lines, or an error at the end of memory, unless there is no answer in time |
| TargetMemory.MemoryLineRoundTrip | src/m65_debugger.cpp:747-766 | a printed memory line parses back to its address and its bytes |
| TargetMemory.MatchesIff | src/m65_debugger.cpp:750-753 | the pattern of a memory line as a grammar, and its two groups |
| TargetMemory.PrintedLineFitsIff | src/m65_debugger.cpp:736-739 | a printed line is taken exactly where its address is expected |
| TargetMemory.GetMemoryBytes | src/m65_debugger.cpp:717-745 | fills exactly the target range with memory, after one command per 256 bytes begun; while every command is answered it succeeds exactly if memory has what the last command asks for |
| TargetMemory.StoreLine | src/m65_debugger.cpp:736-742 | a reply line is refused exactly if it does not match or is for another address than the expected one |
| TargetMemory.StoreLines | src/m65_debugger.cpp:729-743 | whatever the lines of a reply, the bytes of the non-empty ones are stored in order, as far as they are wanted, and the reply is refused exactly if a wanted line does not match or is for another address than its place asks for |
| TargetMemory.PrintedLinesDeliver | src/m65_debugger.cpp:729-743 | the lines that the monitor prints are not refused, and deliver memory as far as it is wanted |
| TargetMemory.ParseAddressLine | src/m65_debugger.cpp:747-766 | succeeds exactly on a line of the monitor's form whose address fits an int, and stores its bytes |
| MemoryCache.AccessKeepsCoherent | src/memory_cache.cpp:82-106 | with room, every access, a failed fetch included, keeps each mapped line equal to memory and mapped once |
| MemoryCache.RunKeepsSound | src/memory_cache.cpp:21-106 | over every run of accesses with room and of unmappings while memory stays as it is, the cache stays valid, free of aliases and coherent |
| MemoryCache.LinesHoldTheirFills | src/memory_cache.cpp:21-106 | over every such run while memory changes in any way, the cache stays valid and free of aliases, and each mapped line holds memory as of the step that fetched it, since when it has been mapped |
| MemoryCache.AccessView | src/memory_cache.cpp:82-106 | seen as a map from line addresses to bytes, an access with room adds the fetched line and changes nothing else |
| MemoryCache.FullMissCoherentIff | src/memory_cache.cpp:90-103 | without room, a miss whose fetch succeeds keeps an alias-free cache coherent exactly if the overwritten and the fetched line hold the same bytes |
| MemoryCache.FailedFetchIff | src/memory_cache.cpp:90-99 | a fetch that fails keeps the cache coherent, whatever it has written into the victim, exactly with room |
| MemoryCache.MissVictim | src/memory_cache.cpp:90-96 | with room the victim is not mapped; without, it is the first line, mapped from one address |
| MemoryCache.RoomMeansFreeLine | src/memory_cache.cpp:90-96 | fewer mapped addresses than lines means a line that is not in use, and conversely |
| MemoryCache.Pigeonhole | src/memory_cache.cpp:90-96 | distinct addresses fill all lines exactly if all lines are in use |
| MemoryCache.WrappedIsDirectIff | src/memory_cache.cpp:47-64 | what read delivers is memory, for all memories, exactly if the access stays inside one line |
| MemoryCache.LineIndexIsMod | src/memory_cache.cpp:49-63 | byte i of a read comes from (offset + i) mod 256 of the first line |
| RepairedRead.ReadIsDirectIff | src/memory_cache.cpp:47-106 | with the line address advanced, over the bounded table and for every address and length, read delivers memory exactly if the one line that it can find overwritten holds the same bytes as the line that overwrote it |
| RepairedRead.ReadWithRoomIsDirect | src/memory_cache.cpp:47-106 | it delivers memory whenever as many lines are free as it has to fetch |
| RepairedRead.ReadCanShowAnotherLine | src/memory_cache.cpp:90-103 | over a certain full table of two lines, every read of two lines from 256 on is wrong |
| RepairedRead.ReadOfFullTable | src/memory_cache.cpp:90-103 | there is such a read |
| MemoryCache.MemoryCache.EnsureValidCacheLine | src/memory_cache.cpp:82-106 | a hit changes nothing and sends no command; a miss sends one, and if it is answered succeeds exactly below the last line of memory; then it fills the victim and maps it, and else it changes no mapping |
| MemoryCache.MemoryCache.Read | src/memory_cache.cpp:47-64 | one access, which ends as said there, and every byte from the line of the first one; on failure nothing is delivered or mapped |
| MemoryCache.MemoryCache.ReadWord | src/memory_cache.cpp:75-80 | the little-endian word, its high byte from the same line |
| MemoryCache.MemoryCache.RefreshAccessed | src/memory_cache.cpp:21-35 | fetches nothing, unmaps everything, and leaves unaliased lines valid and unused |
| MemoryCache.MemoryCache.Invalidate | src/memory_cache.cpp:37-45 | no line is valid, used or mapped |
| MemoryCache.MemoryCache.FindVictim | src/memory_cache.cpp:90-96 | the first invalid line, else the first unused one, else the first |
| Evaluation.Format | src/m65_debugger.cpp:269-286 | for at least one element, the text has one word per element, separated by single spaces, each reading as the little-endian value of its bytes in full width |
| Evaluation.WordsWithoutLastSpace | src/m65_debugger.cpp:286-286 | taking off the last character leaves exactly the elements |
| Evaluation.PiecesAreTheBytes | src/m65_debugger.cpp:265-285 | the elements are as many as asked for, and together the bytes read |
| Evaluation.LittleEndianIsSum | src/m65_debugger.cpp:269-285 | the values of one, two and four bytes, the first byte counting least |
| Debugger.SafeStepKeepsInv | src/m65_debugger.cpp:89-133 | every step but the failing ones keeps: believed stopped means halted, memory as of the latest halt, and a cache that can be read instead of it |
| Debugger.StoppedIff | src/m65_debugger.cpp:89-133 | in every run the stop flag is set exactly if there was an answered pause, a message whose check passed or a poll whose check passed, and no answered cont since |
| Debugger.RegistersAreLatest | src/m65_debugger.cpp:89-133 | the registers are those that were got last |
| Debugger.MessageStopsIff | src/m65_debugger.cpp:692-715 | over a cache that answers for memory and has room, a message whose check gets its bytes stops the debugger exactly if the program counter is the target of the jump that read finds at the breakpoint, and otherwise lets the target go on |
| Debugger.StoppedEvaluates | src/m65_debugger.cpp:191-266 | a stopped debugger with room can evaluate whatever lies in one line, and gets what memory holds |
| Debugger.EvaluationIsFresh | src/m65_debugger.cpp:191-266 | in every run of such steps an evaluation that succeeds finds the target stopped and, inside one line, returns its memory as of the latest stop or step |
| Debugger.EvaluationShowsFill | src/m65_debugger.cpp:191-266 | in every run within the cache's capacity, whatever fails in it, an evaluation that succeeds returns memory as of the step that fetched its line, since when the line has been mapped |
| Debugger.EvaluateKeepsInvIff | src/m65_debugger.cpp:265-266 | an evaluation, whether it succeeds or fails, is sure to keep that exactly with room for its line |
| Debugger.FailedNextIff | src/m65_debugger.cpp:114-133 | a step whose answer or registers are lost keeps that exactly if no line was mapped |
| Debugger.FailedPauseIff | src/m65_debugger.cpp:89-103 | a pause whose registers cannot be read keeps it exactly if no line was mapped |
| Debugger.FailedContIff | src/m65_debugger.cpp:105-112 | a cont without answer keeps it exactly if the debugger was not stopped |
| Debugger.UnreadBreakpointIff | src/m65_debugger.cpp:703-706 | a breakpoint message that cannot be read keeps it exactly if the debugger did not believe the target stopped |
| Debugger.RejectedBreakpointIff | src/m65_debugger.cpp:703-706 | a breakpoint message that the check rejects keeps it exactly if the debugger did not believe the target stopped |
| Debugger.UndecidedBreakpointIff | src/m65_debugger.cpp:692-708 | one whose check is left undecided by a failing fetch is sure to keep it exactly with a free line for whatever the check has to fetch |
| Debugger.PolledStopIff | src/m65_debugger.cpp:375-389 | a stop noticed by polling keeps it exactly if no line was mapped before |
| Debugger.PollOfRunningTargetIff | src/m65_debugger.cpp:375-389 | over a cache that answers for memory and has room, a poll takes a running target for stopped exactly if the check gets its bytes and the program counter is the target of the jump that read finds at the breakpoint, which it always is where there is none; inside lines this is the jump in memory |
| DebuggerRuns.BreakpointRun | src/m65_debugger.cpp:692-715 | for every memory that the target leaves, a run in which it halts at the target of the jump at the breakpoint, its message stops the debugger, and an evaluation shows that memory |
| DebuggerRuns.BreakAndEvaluate | src/m65_debugger.cpp:191-290 | such a message and then an evaluation: if every command is answered the debugger has stopped and prints what memory holds |
| DebuggerRuns.PolledWhileRunning | src/m65_debugger.cpp:375-389 | for every memory, a run whose first poll does so |
| DebuggerRuns.StaleRun | src/m65_debugger.cpp:375-389 | for any cache of two lines or more, a run in which an evaluation returns memory from before the target ran |
| BreakpointCheck.CheckAnswersForMemory | src/m65_debugger.cpp:768-799 | over a coherent cache with room, the breakpoint check holds exactly if the program counter is the target of the jump that read finds in memory at the breakpoint; if the jump and its pointer lie in one line each, that is the jump in memory |
| BreakpointCheck.ReachedByBytes | src/m65_debugger.cpp:768-799 | the target of the jump in memory by the bytes of the instruction: opcodes 0x20, 0x22, 0x23 and 0x63, operand, index, and signed displacement |
| BreakpointCheck.WordInBytes | src/memory_cache.cpp:75-80 | the word that read delivers, both bytes from one line |
| BreakpointCheck.CheckIsDecided | src/m65_debugger.cpp:768-784 | there is a decision wherever memory has the lines that the check reads |
| BreakpointCheck.CheckAnswersForMemoryIff | src/m65_debugger.cpp:768-799 | over an alias-free cache with room for the code line, it answers for every memory the target may leave, pointers across two lines set aside, exactly if the three bytes of the jump lie in one line and no line that the check may read is mapped |
| BreakpointCheck.IndirectAnswersForMemoryIff | src/m65_debugger.cpp:786-799 | over such a cache, given an indirect jump in one line that is not mapped, exactly if its pointer lies in one line that is not mapped |
| DebuggerRuns.NeverStops | src/m65_debugger.cpp:692-784 | for every memory in which read takes another operand for an absolute jump, and every n, a run in which the target halts n times at the target of that jump, each message is rejected, and the debugger never stops |
| DebuggerRuns.OverflowRun | src/memory_cache.cpp:90-103 | for a cache of any size and every memory, a run that evaluates as many lines as it has, one more, and then line 0, and gets the byte of that further line, while memory stays as it is |
| DebuggerRuns.StaleCheckRun | src/m65_debugger.cpp:692-708 | a run in which a breakpoint message is rejected by code from before the target ran |
| Debugger.M65Debugger.Pause | src/m65_debugger.cpp:89-103 | stops, notes the stop, then reads registers and empties the cache, as far as it gets |
| Debugger.M65Debugger.Cont | src/m65_debugger.cpp:105-112 | lets the target go on and keeps the cache |
| Debugger.M65Debugger.Next | src/m65_debugger.cpp:114-133 | fails unless stopped; steps, then unmaps all lines |
| Debugger.M65Debugger.HandleBreakpoint | src/m65_debugger.cpp:692-715 | lets the target go on, or empties the cache and notes the stop; while every command is answered there is a decision, for addresses of 16 bits |
| Debugger.M65Debugger.CheckBreakpointByPc | src/m65_debugger.cpp:375-389 | with a breakpoint and not stopped, checks it and notes the stop, without emptying the cache |
| Debugger.M65Debugger.IsBreakpointTriggerValid | src/m65_debugger.cpp:768-784 | the check through the cache, opcode by opcode; while every command is answered there is a decision, for addresses of 16 bits |
| Debugger.M65Debugger.CalculateAddress | src/m65_debugger.cpp:786-799 | the target of a jump for each addressing mode; for a branch the one within 2^15 of its base that is congruent to it modulo 2^16 |
| Debugger.M65Debugger.EvaluateExpression | src/m65_debugger.cpp:191-290 | fails unless stopped; reads through the cache and prints the elements, and while every command is answered succeeds exactly if the line is mapped or below the last one of memory |
| ReplaceAll.Text.ReplaceAll | src/util.h:72-80 | ends with the pieces between the leftmost occurrences, joined by the replacement |
| ReplaceAll.EndlessIff | src/util.h:72-80 | the loop goes on through any number of rounds exactly if the pattern is empty |
| ReplaceAll.SplitIsTheLeftmost | src/util.h:75-75 | these pieces are the only ones that go from the left without overlap |
| ReplaceAll.SplitJoins | src/util.h:72-80 | joined by the pattern they give the string back |
| ReplaceAll.CharacterIsGone | src/m65_debugger.cpp:180-181 | a replaced character that is not in the replacement does not occur afterwards |

## Left out

- JSON text, regular expressions, register lines and the parser of the mock: what they produce is a parameter.
- Serial, Unix and TCP connections: a source is a byte sequence with arbitrary short reads, a monitor command an atomic exchange.
- `read_line` of the debugger, which depends on how bytes arrive, and the events handled in the middle of a command.
- Loading a program and running it while the target counts as stopped; breakpoint lines, labels and the symbol file.
- When a command counts as timed out (whether it does is a choice), sleeps, logging, the event handlers of the adapter and the generated protocol tables.
- The move operations of the lock guards, the storage of `dap::any`, and the comparison operators of `dap::optional`.
- Integer overflow of the lock's counters and of stated message lengths, which are unbounded here; JSON integers are read into 64 bits with wrap-around.
- Rounding of floating-point numbers: they are reals.
- The `closed` state of reader and writer: a closed source is an exhausted one.
- Handlers that answer later or on another thread, the response-sent handlers, and what a response handler is given.
- A response whose result cannot be serialized, which the source sends all the same.
- ContentStream.RoundTripIff: message lengths are not limited to 64 bits.
- Serialization.RoundTripIff: repeated field names are not covered, because a repeated field would be written into a cell that is not null; a child serializer's cell is handed back to its parent instead of being shared with it.
- Serialization.NlohmannDeserializer.Deserialize: the value that is read is returned, where the source fills one that was there; it starts from a default-constructed one.
- Evaluation.Format: needs one element, because with none the source takes a character off an empty string, which C++ leaves undefined.
- ReplaceAll.Text.ReplaceAll: needs a pattern, because with an empty one the loop of the source does not end (`ReplaceAll.EndlessIff`).
- RwMutex.SelfBlockedForever: a read lock counts as released by the thread that took it. The source's `unlockReader` only counts down, and an `RLock` can be moved to another thread, which could then release it.
- MemoryCache.RunKeepsSound: is about memory that stays as it is; what holds while it changes is said by MemoryCache.LinesHoldTheirFills.
- MemoryCache.FullMissCoherentIff: is about a fetch that succeeds; one that fails is the subject of MemoryCache.FailedFetchIff.
- RepairedRead.ReadIsDirectIff: the repaired loop is a sequence of rounds on values, since the source has no such loop; of a read whose fetch fails it says nothing.
- Debugger.M65Debugger.HandleBreakpoint: asks for a breakpoint where registers were read, without which the source uses one that is not there. That the target has halted when it sends its message is a condition of the steps after which the debugger is right.
- Debugger.M65Debugger.IsBreakpointTriggerValid: that answered commands lead to a decision is said for a breakpoint and an index of 16 bits.
- Session.Impl.Run: the response counts as sent, with a number that is given to it; a closed writer is not modelled.
- Correlation.Impl.FinishRequest: whether the writer is open and takes the message is a parameter.
- Monitor.MockMega65.StartLoad: takes the two addresses as numbers; the pattern of the command line is not modelled.
- Monitor.MockMega65.ExecuteMemoryCommand: takes the command and its digits, and returns the lines between echo and prompt; the pattern of the command line and the output buffer are not modelled.
- Debugger.M65Debugger.EvaluateExpression: takes address, element size and number of elements; the pattern of the expression and the symbols are not modelled.
- Debugger.SafeStepKeepsInv: other commands than those modelled do not change memory.
