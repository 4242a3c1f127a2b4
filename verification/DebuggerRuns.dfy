/**
 Runs of the debugger of src/m65_debugger.cpp that end wrong, step by step: each is a
 run from the start, for any memory and any cache of the given kind.
 */
module DebuggerRuns {
  import opened Common
  import opened Monitor
  import opened TargetMemory
  import opened MemoryCache
  import opened BreakpointCheck
  import opened Debugger
  import opened Evaluation

  lemma RunGrows(ss: seq<State>, es: seq<Event>, e: Event, s: State)
    requires Run(ss, es) && Step(ss[|es|], e, s)
    ensures Run(ss + [s], es + [e])
  {
    var ss', es' := ss + [s], es + [e];
    forall i | 0 <= i < |es'| ensures Step(ss'[i], es'[i], ss'[i + 1]) {
      assert i < |es| ==> Step(ss[i], es[i], ss[i + 1]);
    }
  }

  lemma OneMoreStep(ss: seq<State>, es: seq<Event>, e: Event, s: State) returns (ss': seq<State>, es': seq<Event>)
    requires Run(ss, es) && Step(ss[|es|], e, s)
    ensures Run(ss', es') && |es'| == |es| + 1 && es'[|es|] == e
    ensures ss'[0] == ss[0] && ss'[|es|] == ss[|es|] && ss'[|es'|] == s
  {
    RunGrows(ss, es, e, s);
    ss', es' := ss + [s], es + [e];
  }

  /** A cache as it is constructed, with at least two lines. */
  ghost predicate Empty(c: Snapshot) {
    c.Valid() && Sized(c) && c.av == map[] && |c.ls| >= 2
  }

  lemma OneByteEvaluated(s: State, c: Snapshot, address: nat)
    requires s.stopped && Access(s.cache, c, Base(address), s.mem, true) && HasLine(c, address)
    ensures Step(s, Evaluate(address, 1, Some([LineOf(c, address)[address % LINE_SIZE]])), s.(cache := c))
  {
    assert LineIndex(address % LINE_SIZE, 0) == address % LINE_SIZE;
    assert IsWrapped([LineOf(c, address)[address % LINE_SIZE]], LineOf(c, address), address, 1);
  }

  lemma ByteOfMemoryEvaluated(s: State, c: Snapshot, address: nat, m: seq<Byte>)
    requires s.stopped && Access(s.cache, c, Base(address), s.mem, true)
    requires Base(address) + LINE_SIZE <= |m| && HasLine(c, address) && LineOf(c, address) == Line(m, Base(address))
    ensures Step(s, Evaluate(address, 1, Some([m[address]])), s.(cache := c))
  {
    OneByteEvaluated(s, c, address);
    assert Line(m, Base(address))[address % LINE_SIZE] == m[address];
  }

  /** A poll that takes the running target for stopped, for every memory: the first
      one after the breakpoint was set. */
  lemma PolledWhileRunning(first: Snapshot, m: seq<Byte>, bp: nat) returns (ss: seq<State>, es: seq<Event>)
    requires first.Valid() && Sized(first) && first.av == map[] && bp < 0x1_0000 <= |m|
    ensures Run(ss, es) && |es| == 2 && es[1].Poll? && ss[2].stopped && ss[2].running && ss[0].mem == m
  {
    var k, r := SomeCheckPasses(first, m, bp);
    var s0 := State(false, true, first, m, m, None, r);
    var s1 := s0.(breakpoint := Some(bp));
    ss, es := OneMoreStep([s0], [], SetBreakpoint(bp), s1);
    ss, es := OneMoreStep(ss, es, Poll(Some(r), k), s1.(cache := k.after, stopped := true));
  }

  /* A run as it should be */

  function Going(c: Snapshot, m: seq<Byte>, m0: seq<Byte>, breakpoint: Option<nat>, r: Registers): State {
    State(false, true, c, m, m0, breakpoint, r)
  }

  function HaltedAt(c: Snapshot, m: seq<Byte>, bp: nat, r: Registers): State {
    State(false, false, c, m, m, Some(bp), r)
  }

  /** A breakpoint is set; the target leaves memory m1 and halts. */
  lemma HaltedRun(c: Snapshot, m0: seq<Byte>, m1: seq<Byte>, bp: nat, r: Registers)
    requires c.Valid() && c.av == map[] && |m0| == |m1|
    ensures Run([Going(c, m0, m0, None, r)] + [Going(c, m0, m0, Some(bp), r)] + [Going(c, m1, m0, Some(bp), r)] + [HaltedAt(c, m1, bp, r)],
                [] + [SetBreakpoint(bp)] + [TargetRuns] + [TargetHalts])
  {
    var s0, s1, s2 := Going(c, m0, m0, None, r), Going(c, m0, m0, Some(bp), r), Going(c, m1, m0, Some(bp), r);
    RunGrows([s0], [], SetBreakpoint(bp), s1);
    RunGrows([s0] + [s1], [] + [SetBreakpoint(bp)], TargetRuns, s2);
    RunGrows([s0] + [s1] + [s2], [] + [SetBreakpoint(bp)] + [TargetRuns], TargetHalts, HaltedAt(c, m1, bp, r));
  }

  /** The message that comes then stops the debugger. */
  lemma MessageStops(c: Snapshot, m: seq<Byte>, bp: nat, r: Registers) returns (k: Check, stop: State)
    requires Empty(c) && ReachedAsRead(m, bp, r)
    ensures Step(HaltedAt(c, m, bp, r), HandleBreakpoint(Some(r), k, true), stop)
    ensures stop.stopped && stop.mem == m && stop.halted == m && Empty(stop.cache)
  {
    UnmappedIsSound(c, m);
    TwoFreeLinesAreRoom(c, m, bp, r.x);
    k := CheckIsDecided(c, m, bp, r);
    CheckKeepsSize(c, k, m, bp, r);
    stop := HaltedAt(c, m, bp, r).(stopped := true, cache := Invalidated(k.after));
  }

  /** For every memory that the target leaves: it halts at the target of the jump at the
      breakpoint, as read finds it, its message comes, the debugger stops, and an
      evaluation inside one line shows that memory. */
  lemma BreakpointRun(first: Snapshot, m0: seq<Byte>, m1: seq<Byte>, bp: nat, r: Registers, address: nat, n: nat)
    returns (ss: seq<State>, message: Event, stop: State)
    requires Empty(first) && |m0| == |m1| && ReachedAsRead(m1, bp, r)
    requires n > 0 && address % LINE_SIZE + n <= LINE_SIZE && Base(address) + LINE_SIZE <= |m1|
    ensures address + n <= |m1| && message.HandleBreakpoint? && message.seen == Some(r)
    ensures Run(ss, [] + [SetBreakpoint(bp)] + [TargetRuns] + [TargetHalts] + [message] + [Evaluate(address, n, Some(m1[address..address + n]))])
    ensures ss[4] == stop && stop.stopped && stop.halted == m1
  {
    HaltedRun(first, m0, m1, bp, r);
    var k;
    k, stop := MessageStops(first, m1, bp, r);
    message := HandleBreakpoint(Some(r), k, true);
    ss := [Going(first, m0, m0, None, r)] + [Going(first, m0, m0, Some(bp), r)] + [Going(first, m1, m0, Some(bp), r)] + [HaltedAt(first, m1, bp, r)];
    var es := [] + [SetBreakpoint(bp)] + [TargetRuns] + [TargetHalts];
    RunGrows(ss, es, message, stop);
    UnmappedIsSound(stop.cache, m1);
    var bytes, last := StoppedEvaluates(stop, address, n);
    RunGrows(ss + [stop], es + [message], Evaluate(address, n, Some(bytes)), last);
    ss := ss + [stop] + [last];
  }

  /** What the message of a breakpoint that is reached does, while every command is
      answered. */
  lemma AnsweredMessageStops(s: State, s': State, bp: nat, r: Registers, k: Check)
    requires !s.stopped && s.breakpoint == Some(bp) && s.cache.Valid() && s.cache.av == map[] && |s.cache.ls| >= 2
    requires HandleStep(s, s', Some(r), k, true) && k.valid.Some? && ReachedAsRead(s.mem, bp, r)
    ensures s'.stopped && s'.mem == s.mem && s'.cache.av == map[] && s'.cache.Valid()
  {
    UnmappedIsSound(s.cache, s.mem);
    TwoFreeLinesAreRoom(s.cache, s.mem, bp, r.x);
    MessageStopsIff(s, s', bp, r, k, true);
  }

  lemma EvaluatedIsMemory(s: State, s': State, address: nat, n: nat, bytes: seq<Byte>)
    requires EvaluateStep(s, s', address, n, Some(bytes)) && s.cache.Valid() && s.cache.av == map[]
    requires n > 0 && address % LINE_SIZE + n <= LINE_SIZE
    ensures address + n <= |s.mem| && bytes == s.mem[address..address + n]
  {
    FetchedLine(s.cache, s'.cache, address, s.mem);
    WrappedInLine(bytes, LineOf(s'.cache, address), s.mem, address, n);
  }

  /** The message of a breakpoint that is reached, and then an evaluation inside one
      line: if every command is answered, the debugger has stopped and prints what
      memory holds. */
  method BreakAndEvaluate(debugger: M65Debugger, r: Registers, address: nat, typeSize: nat, numElements: nat)
    returns (text: Result<string, Thrown>)
    requires debugger.Valid() && !debugger.stopped && debugger.breakpoint.Some? && InReach(debugger.breakpoint.value, r.x)
    requires debugger.cache.addressView == map[] && debugger.cache.lines.Length >= 2
    requires ReachedAsRead(debugger.cache.Memory(), debugger.breakpoint.value, r)
    requires typeSize in {1, 2, 4} && 0 < numElements <= 256 && address % LINE_SIZE + numElements * typeSize <= LINE_SIZE
    requires Base(address) + LINE_SIZE < MEMORY_SIZE
    modifies debugger, debugger.cache`addressView, debugger.cache.data, debugger.cache.lines
    modifies debugger.cache.target`memoryCommands, debugger.cache.target`timeouts
    ensures debugger.cache.target.timeouts == old(debugger.cache.target.timeouts) ==>
      var mem, n := debugger.cache.Memory(), numElements * typeSize;
      && debugger.stopped && text.Ok? && address + n <= |mem|
      && Decodes(text.value, Pieces(mem[address..address + n], typeSize))
  {
    ghost var s0, t0 := debugger.Abs(), debugger.cache.target.timeouts;
    var handled, k := debugger.HandleBreakpoint(Some(r), true, true);
    ghost var s1, t1 := debugger.Abs(), debugger.cache.target.timeouts;
    if t1 == t0 {
      AnsweredMessageStops(s0, s1, debugger.breakpoint.value, r, k);
    }
    var bytes;
    text, bytes := debugger.EvaluateExpression(address, typeSize, numElements);
    if t1 == t0 && text.Ok? {
      ProductPositive(numElements, typeSize);
      EvaluatedIsMemory(s1, debugger.Abs(), address, numElements * typeSize, bytes.value);
    }
  }

  /* A run with a stale evaluation, step by step */

  /** The caches of that run: after the first evaluation, and after the poll. */
  lemma CachesOfStaleRun(first: Snapshot, m0: seq<Byte>, m1: seq<Byte>, address: nat) returns (c1: Snapshot, c2: Snapshot)
    requires Empty(first) && LINE_SIZE <= address && Base(address) + LINE_SIZE <= |m0| == |m1|
    ensures Access(first, c1, Base(address), m0, true) && Access(c1, c2, 0, m1, true)
    ensures HasLine(c1, address) && LineOf(c1, address) == Line(m0, Base(address))
    ensures HasLine(c2, 0) && LineOf(c2, 0) == Line(m1, 0)
    ensures HasLine(c2, address) && LineOf(c2, address) == Line(m0, Base(address))
    ensures Base(address) in c2.av
  {
    AccessedView(first, address, m0);
    c1 := Accessed(first, Base(address), m0);
    AccessedView(c1, 0, m1);
    c2 := Accessed(c1, 0, m1);
    assert c2.View() == Touch(c1.View(), 0, m1);
  }

  lemma PlainCodePolled(s: State, c: Snapshot, r: Registers)
    requires !s.stopped && s.breakpoint == Some(0) && Access(s.cache, c, 0, s.mem, true) && 0 !in s.cache.av
    requires HasLine(c, 0) && |s.mem| >= LINE_SIZE && LineOf(c, 0) == Line(s.mem, 0) && JumpMode(s.mem[0]) == None
    ensures Step(s, Poll(Some(r), Check(c, c, Some(true))), s.(registers := r, cache := c, stopped := true))
  {
    assert LineIndex(0, 0) == 0 && Base(0) == 0;
  }

  /** The first half: a pause, an evaluation and a cont. */
  lemma EvaluatedRun(first: Snapshot, m0: seq<Byte>, c1: Snapshot, address: nat) returns (ss: seq<State>, es: seq<Event>)
    requires Empty(first) && Base(address) + LINE_SIZE <= |m0| && Access(first, c1, Base(address), m0, true)
    requires HasLine(c1, address) && LineOf(c1, address) == Line(m0, Base(address))
    ensures Run(ss, es) && |es| == 4 && ss[0].cache == first && ss[4] == State(false, true, c1, m0, m0, Some(0), Registers(0, 0))
  {
    var r := Registers(0, 0);
    var s0 := State(false, true, first, m0, m0, None, r);
    var s1 := s0.(breakpoint := Some(0));
    var s2 := s1.(stopped := true, running := false);
    var s3 := s2.(cache := c1);
    ByteOfMemoryEvaluated(s2, c1, address, m0);
    ss, es := OneMoreStep([s0], [], SetBreakpoint(0), s1);
    ss, es := OneMoreStep(ss, es, Pause(Got(r)), s2);
    ss, es := OneMoreStep(ss, es, Evaluate(address, 1, Some([m0[address]])), s3);
    ss, es := OneMoreStep(ss, es, Cont(true), s3.(stopped := false, running := true));
  }

  /** Evaluate, let the target run from memory m0 to m1 and to a breakpoint whose
      message is missed, poll, evaluate again: the second evaluation still shows m0. */
  lemma StaleRun(first: Snapshot, m0: seq<Byte>, m1: seq<Byte>, address: nat) returns (ss: seq<State>, es: seq<Event>)
    requires Empty(first) && LINE_SIZE <= address && Base(address) + LINE_SIZE <= |m0| == |m1| && JumpMode(m1[0]) == None
    ensures Run(ss, es) && ss[0].cache == first && |es| == 8 && es[7] == Evaluate(address, 1, Some([m0[address]])) && ss[7].halted == m1
  {
    var c1, c2 := CachesOfStaleRun(first, m0, m1, address);
    ss, es := EvaluatedRun(first, m0, c1, address);
    var r, s4 := Registers(0, 0), ss[4];
    var s5 := s4.(mem := m1);
    var s6 := s5.(running := false, halted := m1);
    var s7 := s6.(cache := c2, stopped := true);
    PlainCodePolled(s6, c2, r);
    ByteOfMemoryEvaluated(s7, c2, address, m0);
    ss, es := OneMoreStep(ss, es, TargetRuns, s5);
    ss, es := OneMoreStep(ss, es, TargetHalts, s6);
    ss, es := OneMoreStep(ss, es, Poll(Some(r), Check(c2, c2, Some(true))), s7);
    ss, es := OneMoreStep(ss, es, Evaluate(address, 1, Some([m0[address]])), s7);
  }

  /** Evaluate code that jumps, let the target run to other code and to a breakpoint:
      the check rejects the message by the old code, and the target goes on. */
  lemma StaleCheckRun(first: Snapshot, m0: seq<Byte>, m1: seq<Byte>) returns (ss: seq<State>, es: seq<Event>)
    requires Empty(first) && LINE_SIZE <= |m0| == |m1|
    requires JumpMode(m0[0]) == Some(Absolute) && WordAt(m0, 1) != 0 && JumpMode(m1[0]) == None
    ensures Run(ss, es) && |es| == 7 && es[6].HandleBreakpoint? && es[6].seen.Some? && es[6].check.valid == Some(false)
    ensures ss[6].mem == m1 && ReachedByJump(m1, 0, es[6].seen.value) && ss[7].running
  {
    AccessedView(first, 0, m0);
    var c1 := Accessed(first, 0, m0);
    ss, es := EvaluatedRun(first, m0, c1, 0);
    var r, s4 := Registers(0, 0), ss[4];
    var s5 := s4.(mem := m1);
    var s6 := s5.(running := false, halted := m1);
    OldCodeRejects(c1, m0, m1, r);
    ss, es := OneMoreStep(ss, es, TargetRuns, s5);
    ss, es := OneMoreStep(ss, es, TargetHalts, s6);
    ss, es := OneMoreStep(ss, es, HandleBreakpoint(Some(r), Check(c1, c1, Some(false)), true), s6.(running := true));
  }

  lemma OldCodeRejects(c: Snapshot, m0: seq<Byte>, m1: seq<Byte>, r: Registers)
    requires HasLine(c, 0) && LINE_SIZE <= |m0| && LineOf(c, 0) == Line(m0, 0)
    requires JumpMode(m0[0]) == Some(Absolute) && r.pc != WordAt(m0, 1)
    ensures Checked(c, Check(c, c, Some(false)), m1, 0, r)
  {
    CodeInLine(LineOf(c, 0), m0, 0);
  }

  /* A breakpoint whose jump crosses the end of a line */

  /** A breakpoint is set, the target halts, its message comes, and so on. */
  function HaltsAndMessages(bp: nat, message: Event, n: nat): (es: seq<Event>)
    ensures |es| == n + n + 1
  {
    if n == 0 then [SetBreakpoint(bp)] else HaltsAndMessages(bp, message, n - 1) + [TargetHalts] + [message]
  }

  /** A check over the cache and over what it leaves, which rejects each time. */
  ghost predicate RejectsAlways(c: Snapshot, k: Check, m: seq<Byte>, bp: nat, r: Registers) {
    Checked(c, k, m, bp, r) && Checked(k.after, k, m, bp, r) && k.valid == Some(false)
  }

  /** The debugger never counts the target as stopped, and memory stays as it is. */
  ghost predicate Unnoticed(ss: seq<State>, m: seq<Byte>) {
    forall s <- ss :: !s.stopped && s.mem == m
  }

  /** A run without notice, and where it ends. */
  ghost predicate UnnoticedRun(ss: seq<State>, es: seq<Event>, m: seq<Byte>, last: State) {
    Run(ss, es) && ss[|es|] == last && Unnoticed(ss, m)
  }

  lemma UnnoticedRunGrows(ss: seq<State>, es: seq<Event>, m: seq<Byte>, s: State, e: Event, s': State)
    requires UnnoticedRun(ss, es, m, s) && Step(s, e, s') && !s'.stopped && s'.mem == m
    ensures UnnoticedRun(ss + [s'], es + [e], m, s') && (ss + [s'])[0] == ss[0]
  {
    RunGrows(ss, es, e, s');
  }

  lemma HaltAndReject(ss: seq<State>, es: seq<Event>, s: State, r: Registers, k: Check) returns (ss': seq<State>)
    requires UnnoticedRun(ss, es, s.mem, s) && s.running && s.halted == s.mem && s.breakpoint.Some?
    requires Checked(s.cache, k, s.mem, s.breakpoint.value, r) && k.valid == Some(false)
    ensures UnnoticedRun(ss', es + [TargetHalts] + [HandleBreakpoint(Some(r), k, true)], s.mem, s.(registers := r, cache := k.after))
    ensures ss'[0] == ss[0]
  {
    var s', s'' := s.(running := false), s.(registers := r, cache := k.after);
    UnnoticedRunGrows(ss, es, s.mem, s, TargetHalts, s');
    assert Step(s', HandleBreakpoint(Some(r), k, true), s'');
    UnnoticedRunGrows(ss + [s'], es + [TargetHalts], s.mem, s', HandleBreakpoint(Some(r), k, true), s'');
    ss' := ss + [s'] + [s''];
  }

  lemma {:induction false} RejectedRun(s: State, bp: nat, r: Registers, k: Check, n: nat) returns (ss: seq<State>)
    requires Initial(s) && s.halted == s.mem && s.registers == r && RejectsAlways(s.cache, k, s.mem, bp, r)
    ensures UnnoticedRun(ss, HaltsAndMessages(bp, HandleBreakpoint(Some(r), k, true), n), s.mem,
                         s.(breakpoint := Some(bp), cache := if n == 0 then s.cache else k.after))
    ensures ss[0] == s
  {
    if n == 0 {
      UnnoticedRunGrows([s], [], s.mem, s, SetBreakpoint(bp), s.(breakpoint := Some(bp)));
      ss := [s] + [s.(breakpoint := Some(bp))];
    } else {
      ss := RejectedRun(s, bp, r, k, n - 1);
      var last := s.(breakpoint := Some(bp), cache := if n == 1 then s.cache else k.after);
      ss := HaltAndReject(ss, HaltsAndMessages(bp, HandleBreakpoint(Some(r), k, true), n - 1), last, r, k);
    }
  }

  /** An absolute jump that read takes for another one, because it goes on behind the end
      of its line: however often the target halts at its target, each message is rejected,
      and the debugger never stops. */
  lemma NeverStops(first: Snapshot, m: seq<Byte>, bp: nat, n: nat) returns (ss: seq<State>, message: Event, last: State)
    requires Empty(first) && bp + 3 <= |m| && Base(bp) + LINE_SIZE <= |m|
    requires JumpMode(m[bp]) == Some(Absolute) && OperandAsRead(m, bp) != WordAt(m, bp + 1)
    ensures UnnoticedRun(ss, HaltsAndMessages(bp, message, n), m, last) && ss[0].cache == first && last.running
    ensures message.HandleBreakpoint? && message.seen.Some? && ReachedByJump(m, bp, message.seen.value)
  {
    var k, r := MisreadCheck(first, m, bp);
    message := HandleBreakpoint(Some(r), k, true);
    var s := State(false, true, first, m, m, None, r);
    ss := RejectedRun(s, bp, r, k, n);
    last := s.(breakpoint := Some(bp), cache := if n == 0 then first else k.after);
  }

  lemma MisreadCheck(first: Snapshot, m: seq<Byte>, bp: nat) returns (k: Check, r: Registers)
    requires Empty(first) && bp + 3 <= |m| && Base(bp) + LINE_SIZE <= |m|
    requires JumpMode(m[bp]) == Some(Absolute) && OperandAsRead(m, bp) != WordAt(m, bp + 1)
    ensures RejectsAlways(first, k, m, bp, r) && ReachedByJump(m, bp, r)
  {
    AccessedView(first, bp, m);
    var code := Accessed(first, Base(bp), m);
    assert LineOf(code, bp) == Line(m, Base(bp));
    r := MisreadCodeRejects(first, code, m, bp, 0);
    var _ := MisreadCodeRejects(code, code, m, bp, 0);
    k := Check(code, code, Some(false));
  }

  /* A table that overflows */

  /** The first entry of the table is still free, or has line 0. */
  predicate FirstHasLineZero(c: Snapshot)
    requires |c.ls| > 0
  {
    if c.av == map[] then !c.ls[0].valid else c.ls[0].accessed && c.ls[0].address == 0
  }

  ghost predicate HoldsLinesBelow(c: Snapshot, m: seq<Byte>, a: nat) {
    Sound(c, m) && Sized(c) && (forall key <- c.av :: key < a) && FirstHasLineZero(c)
  }

  /** The first i lines of memory are mapped. */
  ghost predicate HoldsLines(c: Snapshot, m: seq<Byte>, i: nat) {
    HoldsLinesBelow(c, m, i * LINE_SIZE) && |c.av| == i
  }

  /** As invalidate leaves it. */
  function Invalidated(c: Snapshot): Snapshot {
    c.(av := map[], ls := seq(|c.ls|, (i: nat) => LineInfo(i, 0, false, false)))
  }

  lemma LineAbove(c: Snapshot, m: seq<Byte>, a: nat) returns (c': Snapshot)
    requires HoldsLinesBelow(c, m, a) && a % LINE_SIZE == 0 && a + LINE_SIZE <= |m|
    requires |c.av| < |c.ls| && (c.av == map[] ==> a == 0)
    ensures Access(c, c', a, m, true) && HasLine(c', a) && LineOf(c', a) == Line(m, a)
    ensures HoldsLinesBelow(c', m, a + LINE_SIZE) && |c'.ls| == |c.ls| && |c'.av| == |c.av| + 1
  {
    AccessedIsAccess(c, a, m);
    c' := Accessed(c, a, m);
    AccessKeepsSound(c, c', a, m, true);
    MissVictim(c.av, c.ls, a);
  }

  lemma NextLine(c: Snapshot, m: seq<Byte>, i: nat) returns (c': Snapshot)
    requires HoldsLines(c, m, i) && i < |c.ls| && (i + 1) * LINE_SIZE <= |m|
    ensures Access(c, c', i * LINE_SIZE, m, true) && Base(i * LINE_SIZE) == i * LINE_SIZE
    ensures HasLine(c', i * LINE_SIZE) && LineOf(c', i * LINE_SIZE) == Line(m, i * LINE_SIZE)
    ensures HoldsLines(c', m, i + 1) && |c'.ls| == |c.ls|
  {
    c' := LineAbove(c, m, i * LINE_SIZE);
  }

  /** With all lines in use, one more line shows at the address of the first one, too. */
  lemma LineTooMany(c: Snapshot, m: seq<Byte>, a: nat) returns (c': Snapshot)
    requires HoldsLinesBelow(c, m, a) && a % LINE_SIZE == 0 && a + LINE_SIZE <= |m| && |c.av| == |c.ls|
    ensures Access(c, c', a, m, true) && HasLine(c', a) && LineOf(c', a) == Line(m, a)
    ensures HasLine(c', 0) && LineOf(c', 0) == Line(m, a) && 0 in c'.av
  {
    AccessedIsAccess(c, a, m);
    c' := Accessed(c, a, m);
    AccessView(c, c', a, m, true);
  }

  /** A pause, and the first byte of each of the first i lines. */
  function LinesEvaluated(m: seq<Byte>, i: nat): (es: seq<Event>)
    requires i * LINE_SIZE <= |m|
    ensures |es| == i + 1
  {
    if i == 0 then [Pause(Got(Registers(0, 0)))]
    else LinesEvaluated(m, i - 1) + [Evaluate((i - 1) * LINE_SIZE, 1, Some([m[(i - 1) * LINE_SIZE]]))]
  }

  ghost function StoppedWith(c: Snapshot, m: seq<Byte>): State {
    State(true, false, c, m, m, None, Registers(0, 0))
  }

  /** A run at whose end the debugger is stopped. */
  ghost predicate RunTo(ss: seq<State>, es: seq<Event>, c: Snapshot, m: seq<Byte>) {
    Run(ss, es) && ss[|es|] == StoppedWith(c, m) && forall s <- ss :: s.mem == m
  }

  lemma EvaluationFollows(ss: seq<State>, es: seq<Event>, c: Snapshot, m: seq<Byte>, c': Snapshot, address: nat, byte: Byte)
    requires RunTo(ss, es, c, m) && Access(c, c', Base(address), m, true)
    requires HasLine(c', address) && LineOf(c', address)[address % LINE_SIZE] == byte
    ensures RunTo(ss + [StoppedWith(c', m)], es + [Evaluate(address, 1, Some([byte]))], c', m)
    ensures (ss + [StoppedWith(c', m)])[0] == ss[0]
  {
    OneByteEvaluated(StoppedWith(c, m), c', address);
    RunGrows(ss, es, Evaluate(address, 1, Some([byte])), StoppedWith(c', m));
  }

  lemma {:induction false} FillingRun(first: Snapshot, m: seq<Byte>, i: nat) returns (ss: seq<State>, c: Snapshot)
    requires Empty(first) && i <= |first.ls| && i * LINE_SIZE <= |m|
    ensures RunTo(ss, LinesEvaluated(m, i), c, m) && ss[0].cache == first && HoldsLines(c, m, i) && |c.ls| == |first.ls|
  {
    if i == 0 {
      c := Invalidated(first);
      var s := State(false, true, first, m, m, None, Registers(0, 0));
      RunGrows([s], [], Pause(Got(Registers(0, 0))), StoppedWith(c, m));
      ss := [s] + [StoppedWith(c, m)];
    } else {
      ss, c := FillingRun(first, m, i - 1);
      var c' := NextLine(c, m, i - 1);
      assert Line(m, (i - 1) * LINE_SIZE)[0] == m[(i - 1) * LINE_SIZE];
      EvaluationFollows(ss, LinesEvaluated(m, i - 1), c, m, c', (i - 1) * LINE_SIZE, m[(i - 1) * LINE_SIZE]);
      ss, c := ss + [StoppedWith(c', m)], c';
    }
  }

  /** For a cache of any size: evaluate a byte of each of as many lines as it has, one of
      the next line, and the first one again, which shows the byte of that next line.
      Memory stays as it is throughout, and every evaluation is inside one line. */
  lemma OverflowRun(first: Snapshot, m: seq<Byte>) returns (ss: seq<State>, es: seq<Event>)
    requires Empty(first) && (|first.ls| + 1) * LINE_SIZE <= |m|
    ensures Run(ss, es) && ss[0].cache == first && forall s <- ss :: s.mem == m
    ensures es == LinesEvaluated(m, |first.ls| + 1) + [Evaluate(0, 1, Some([m[|first.ls| * LINE_SIZE]]))]
  {
    var n := |first.ls|;
    var a := n * LINE_SIZE;
    var c;
    ss, c := FillingRun(first, m, n);
    var c' := LineTooMany(c, m, a);
    assert Line(m, a)[0] == m[a];
    EvaluationFollows(ss, LinesEvaluated(m, n), c, m, c', a, m[a]);
    ss := ss + [StoppedWith(c', m)];
    EvaluationFollows(ss, LinesEvaluated(m, n + 1), c', m, c', 0, m[a]);
    ss, es := ss + [StoppedWith(c', m)], LinesEvaluated(m, n + 1) + [Evaluate(0, 1, Some([m[a]]))];
  }
}
