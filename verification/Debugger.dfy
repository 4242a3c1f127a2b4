/**
 The stopping and continuing of src/m65_debugger.cpp: pause, cont, next, the two
 ways a breakpoint is noticed, and evaluation, over the line cache.

 One state holds what the debugger believes and what is the case: whether the
 target runs, and its memory now and when it last halted. Commands may fail; a
 command that gets no reply may or may not have been carried out.
 */
module Debugger {
  import opened Common
  import opened Monitor
  import opened TargetMemory
  import opened MemoryCache
  import opened BreakpointCheck
  import opened Evaluation

  datatype State = State(stopped: bool, running: bool, cache: Snapshot, mem: seq<Byte>, halted: seq<Byte>,
                         breakpoint: Option<nat>, registers: Registers)

  /* One step of the debugger or of the target */

  /** What became of a command and the registers asked for with it. */
  datatype Reply = NoReply | NoRegisters | Got(registers: Registers)

  datatype Event =
    | TargetRuns
    | TargetHalts
    | Pause(reply: Reply)
    | Cont(replied: bool)
    | Next(reply: Reply)
    | HandleBreakpoint(seen: Option<Registers>, check: Check, resumed: bool)
    | Poll(seen: Option<Registers>, check: Check)
    | Evaluate(address: nat, n: nat, bytes: Option<seq<Byte>>)
    | SetBreakpoint(pc: nat)
    | ClearBreakpoint

  /** invalidate, or refresh_accessed. */
  ghost predicate Unmapped(c: Snapshot, c': Snapshot) {
    c'.av == map[] && c'.Valid() && c'.NoAlias() && |c'.ls| == |c.ls| && |c'.d| == |c.d|
  }

  /** The target after it was told to stop, or to go on, and maybe heard. */
  ghost predicate Halted(s: State, s': State) {
    !s'.running && s'.mem == s.mem && s'.halted == if s.running then s.mem else s.halted
  }

  ghost predicate Untouched(s: State, s': State) {
    s'.running == s.running && s'.mem == s.mem && s'.halted == s.halted
  }

  ghost predicate Resumed(s: State, s': State, replied: bool) {
    s'.mem == s.mem && s'.halted == s.halted && (s'.running || (!replied && !s.running))
  }

  /** What a single step may do to memory; it ends halted. */
  ghost predicate Stepped(s: State, s': State) {
    s'.running == s.running && |s'.mem| == |s.mem| && s'.halted == s'.mem
  }

  ghost predicate SameDebugger(s: State, s': State) {
    s'.stopped == s.stopped && s'.cache == s.cache && s'.breakpoint == s.breakpoint && s'.registers == s.registers
  }

  ghost predicate PauseStep(s: State, s': State, reply: Reply) {
    match reply
    case NoReply => SameDebugger(s, s') && (Halted(s, s') || Untouched(s, s'))
    case NoRegisters => Halted(s, s') && s'.stopped && SameDebugger(s.(stopped := true), s')
    case Got(r) =>
      && Halted(s, s') && s'.stopped && s'.breakpoint == s.breakpoint && s'.registers == r
      && Unmapped(s.cache, s'.cache)
  }

  ghost predicate NextStep(s: State, s': State, reply: Reply) {
    if !s.stopped then s' == s
    else
      match reply
      case NoReply => Stepped(s, s') && SameDebugger(s, s')
      case NoRegisters => Stepped(s, s') && SameDebugger(s, s')
      case Got(r) =>
        && Stepped(s, s') && s'.stopped && s'.breakpoint == s.breakpoint && s'.registers == r
        && Unmapped(s.cache, s'.cache)
  }

  /** A breakpoint message, which may come late. An unexpected one lets the target
      go on, whatever the debugger believes. */
  ghost predicate HandleStep(s: State, s': State, seen: Option<Registers>, k: Check, resumed: bool) {
    match seen
    case None => SameDebugger(s, s') && Resumed(s, s', resumed)
    case Some(r) =>
      && s.breakpoint.Some? && Checked(s.cache, k, s.mem, s.breakpoint.value, r)
      && s'.breakpoint == s.breakpoint && s'.registers == r
      && (if k.valid == Some(true) then s'.stopped && Untouched(s, s') && Unmapped(k.after, s'.cache)
          else
            && s'.stopped == s.stopped && s'.cache == k.after
            && (if k.valid == None then Untouched(s, s') else Resumed(s, s', resumed)))
  }

  /** The look at the program counter when nothing happened for a second. */
  ghost predicate PollStep(s: State, s': State, seen: Option<Registers>, k: Check) {
    if s.stopped || s.breakpoint == None || seen == None then s' == s
    else
      && Checked(s.cache, k, s.mem, s.breakpoint.value, seen.value)
      && s' == s.(registers := seen.value, cache := k.after, stopped := k.valid == Some(true))
  }

  ghost predicate EvaluateStep(s: State, s': State, address: nat, n: nat, bytes: Option<seq<Byte>>) {
    && s' == s.(cache := s'.cache)
    && match bytes
       case None =>
         s'.cache == s.cache || (s.stopped && n > 0 && Access(s.cache, s'.cache, Base(address), s.mem, false))
       case Some(bs) =>
         s.stopped && |bs| == n && ReadSoFar(s.cache, s'.cache, bs, bs, address, s.mem, n)
  }

  ghost predicate Step(s: State, e: Event, s': State) {
    match e
    case TargetRuns => s.running && |s'.mem| == |s.mem| && s' == s.(mem := s'.mem)
    case TargetHalts => s.running && s.breakpoint.Some? && s' == s.(running := false, halted := s.mem)
    case Pause(reply) => PauseStep(s, s', reply)
    case Cont(replied) => Resumed(s, s', replied) && SameDebugger(if replied then s.(stopped := false) else s, s')
    case Next(reply) => NextStep(s, s', reply)
    case HandleBreakpoint(seen, k, resumed) => HandleStep(s, s', seen, k, resumed)
    case Poll(seen, k) => PollStep(s, s', seen, k)
    case Evaluate(address, n, bytes) => EvaluateStep(s, s', address, n, bytes)
    case SetBreakpoint(pc) => s' == s.(breakpoint := Some(pc))
    case ClearBreakpoint => s' == s.(breakpoint := None)
  }

  /* Stopped means fresh */

  /** Whenever the debugger believes the target stopped, it is, and the cache can
      be read instead of its memory, which is as it was at the latest halt. */
  ghost predicate Inv(s: State) {
    match s
    case State(stopped, running, cache, mem, halted, _, _) =>
      && cache.Valid()
      && (!running ==> mem == halted)
      && (stopped ==> !running && Sound(cache, mem))
  }

  /** The steps after which that is sure to hold. The caller can tell before an
      evaluation, and otherwise from the outcome, from whether any line was mapped,
      and from whether there were lines for what a check had to fetch. */
  ghost predicate Safe(s: State, e: Event) {
    match e
    case Pause(reply) => reply != NoRegisters || s.stopped || s.cache.av == map[]
    case Cont(replied) => replied || !s.stopped
    case HandleBreakpoint(seen, k, _) =>
      if seen.Some? && k.valid == Some(true) then !s.running
      else !s.stopped || (seen.Some? && k.valid == None && HasRoomForCheck(s, seen.value))
    case Next(reply) => reply.Got? || !s.stopped || s.cache.av == map[]
    case Poll(seen, k) =>
      s.stopped || s.breakpoint == None || seen == None || k.valid != Some(true)
      || (!s.running && s.cache.av == map[] && HasRoomForCheck(s, seen.value))
    case Evaluate(address, n, _) => !s.stopped || n == 0 || s.cache.Room(Base(address))
    case _ => true
  }

  ghost predicate HasRoomForCheck(s: State, r: Registers) {
    s.breakpoint.Some? && HasRoomFor(s.cache, s.mem, s.breakpoint.value, r.x)
  }

  lemma PollKeepsInv(s: State, s': State, seen: Option<Registers>, k: Check)
    requires Inv(s) && Safe(s, Poll(seen, k)) && PollStep(s, s', seen, k)
    ensures Inv(s')
  {
    if !(s.stopped || s.breakpoint == None || seen == None) {
      CheckKeepsValid(s.cache, k, s.mem, s.breakpoint.value, seen.value);
      if s'.stopped {
        UnmappedIsSound(s.cache, s.mem);
        CheckKeepsSound(s.cache, k, s.mem, s.breakpoint.value, seen.value);
      }
    }
  }

  lemma HandleKeepsInv(s: State, s': State, seen: Option<Registers>, k: Check, resumed: bool)
    requires Inv(s) && Safe(s, HandleBreakpoint(seen, k, resumed)) && HandleStep(s, s', seen, k, resumed)
    ensures Inv(s')
  {
    if seen.Some? {
      CheckKeepsValid(s.cache, k, s.mem, s.breakpoint.value, seen.value);
      if k.valid == Some(true) {
        UnmappedIsSound(s'.cache, s'.mem);
      } else if s.stopped {
        CheckKeepsSound(s.cache, k, s.mem, s.breakpoint.value, seen.value);
      }
    }
  }

  lemma EvaluateKeepsInv(s: State, s': State, address: nat, n: nat, bytes: Option<seq<Byte>>)
    requires Inv(s) && Safe(s, Evaluate(address, n, bytes)) && EvaluateStep(s, s', address, n, bytes)
    ensures Inv(s')
  {
    if s'.cache != s.cache {
      AccessKeepsSound(s.cache, s'.cache, address, s.mem, bytes.Some?);
    }
  }

  lemma SafeStepKeepsInv(s: State, e: Event, s': State)
    requires Inv(s) && Safe(s, e) && Step(s, e, s')
    ensures Inv(s')
  {
    match e
    case HandleBreakpoint(seen, k, resumed) => HandleKeepsInv(s, s', seen, k, resumed);
    case Poll(seen, k) => PollKeepsInv(s, s', seen, k);
    case Evaluate(address, n, bytes) => EvaluateKeepsInv(s, s', address, n, bytes);
    case Pause(reply) =>
      if reply != NoReply && !s.stopped {
        UnmappedIsSound(s'.cache, s'.mem);
      }
    case Next(reply) =>
      if s.stopped {
        UnmappedIsSound(s'.cache, s'.mem);
      }
    case _ =>
  }

  /* Whole runs */

  ghost predicate Initial(s: State) {
    !s.stopped && s.running && s.cache.Valid() && s.cache.av == map[]
  }

  ghost predicate Run(ss: seq<State>, es: seq<Event>) {
    |ss| == |es| + 1 && Initial(ss[0]) && forall i | 0 <= i < |es| :: Step(ss[i], es[i], ss[i + 1])
  }

  ghost predicate SafeUpTo(ss: seq<State>, es: seq<Event>, k: nat)
    requires k <= |es| && |ss| == |es| + 1
  {
    forall i | 0 <= i < k :: Safe(ss[i], es[i])
  }

  lemma {:induction false} RunKeepsInv(ss: seq<State>, es: seq<Event>, k: nat)
    requires Run(ss, es) && k <= |es| && SafeUpTo(ss, es, k)
    ensures Inv(ss[k])
  {
    if k > 0 {
      RunKeepsInv(ss, es, k - 1);
      SafeStepKeepsInv(ss[k - 1], es[k - 1], ss[k]);
    }
  }

  /** An evaluation that succeeds finds the target stopped and, inside one line,
      returns its memory as of the latest stop or step. */
  lemma EvaluationIsFresh(ss: seq<State>, es: seq<Event>, i: nat, address: nat, n: nat, bytes: seq<Byte>)
    requires Run(ss, es) && i < |es| && SafeUpTo(ss, es, i + 1)
    requires es[i] == Evaluate(address, n, Some(bytes)) && address % LINE_SIZE + n <= LINE_SIZE
    ensures ss[i].stopped && !ss[i].running
    ensures n > 0 ==> address + n <= |ss[i].halted| && bytes == ss[i].halted[address..address + n]
  {
    RunKeepsInv(ss, es, i);
    var s, s' := ss[i], ss[i + 1];
    assert EvaluateStep(s, s', address, n, Some(bytes));
    if n > 0 {
      AccessKeepsSound(s.cache, s'.cache, address, s.mem, true);
      WrappedInLine(bytes, LineOf(s'.cache, address), s.mem, address, n);
    }
  }

  lemma WrappedInLine(bytes: seq<Byte>, line: seq<Byte>, mem: seq<Byte>, address: nat, n: nat)
    requires Base(address) + LINE_SIZE <= |mem| && line == Line(mem, Base(address)) && address % LINE_SIZE + n <= LINE_SIZE
    requires |bytes| == n && IsWrapped(bytes, line, address, n)
    ensures address + n <= |mem| && bytes == mem[address..address + n]
  {
    forall j | 0 <= j < n ensures bytes[j] == mem[address + j] {
      assert LineIndex(address % LINE_SIZE, j) == address % LINE_SIZE + j;
    }
  }

  /* When the debugger counts the target as stopped */

  /** A pause that was answered, a message whose check passes, or a poll that looks and
      finds the check passed. */
  predicate Stops(s: State, e: Event) {
    match e
    case Pause(reply) => reply != NoReply
    case HandleBreakpoint(seen, k, _) => seen.Some? && k.valid == Some(true)
    case Poll(seen, k) => s.breakpoint.Some? && seen.Some? && k.valid == Some(true)
    case _ => false
  }

  /** There was such a stop, and no answered cont since. */
  predicate StoppedSince(ss: seq<State>, es: seq<Event>)
    requires |ss| > |es|
  {
    exists i :: 0 <= i < |es| && Stops(ss[i], es[i]) && forall j | i < j < |es| :: es[j] != Cont(true)
  }

  lemma StepStops(s: State, e: Event, s': State)
    requires Step(s, e, s')
    ensures s'.stopped <==> Stops(s, e) || (s.stopped && e != Cont(true))
  {
  }

  lemma StoppedSinceMore(ss: seq<State>, es: seq<Event>, k: nat)
    requires k < |es| < |ss|
    ensures StoppedSince(ss, es[..k + 1]) <==> Stops(ss[k], es[k]) || (StoppedSince(ss, es[..k]) && es[k] != Cont(true))
  {
    var now, before := es[..k + 1], es[..k];
    if StoppedSince(ss, before) && es[k] != Cont(true) {
      var i :| 0 <= i < k && Stops(ss[i], before[i]) && forall j | i < j < k :: before[j] != Cont(true);
      assert Stops(ss[i], now[i]) && forall j | i < j < k + 1 :: now[j] != Cont(true);
    }
    if i :| 0 <= i < k + 1 && Stops(ss[i], now[i]) && forall j | i < j < k + 1 :: now[j] != Cont(true) {
      assert i < k ==> Stops(ss[i], before[i]) && now[k] != Cont(true) && forall j | i < j < k :: before[j] == now[j];
    }
    assert Stops(ss[k], es[k]) ==> Stops(ss[k], now[k]);
  }

  /** The stop flag says what has happened, in every run. */
  lemma {:induction false} StoppedIff(ss: seq<State>, es: seq<Event>, k: nat)
    requires Run(ss, es) && k <= |es|
    ensures ss[k].stopped <==> StoppedSince(ss, es[..k])
  {
    if k > 0 {
      StoppedIff(ss, es, k - 1);
      StepStops(ss[k - 1], es[k - 1], ss[k - 1 + 1]);
      StoppedSinceMore(ss, es, k - 1);
    }
  }

  /** The registers that a step has got from the target. */
  function Seen(s: State, e: Event): Option<Registers> {
    match e
    case Pause(Got(r)) => Some(r)
    case Next(Got(r)) => if s.stopped then Some(r) else None
    case HandleBreakpoint(seen, _, _) => seen
    case Poll(seen, _) => if s.stopped || s.breakpoint == None then None else seen
    case _ => None
  }

  /** The registers are those that were got last. */
  lemma {:induction false} RegistersAreLatest(ss: seq<State>, es: seq<Event>, i: nat, k: nat)
    requires Run(ss, es) && i < k <= |es| && Seen(ss[i], es[i]).Some?
    requires forall j | i < j < k :: Seen(ss[j], es[j]) == None
    ensures ss[k].registers == Seen(ss[i], es[i]).value
  {
    RunSees(ss, es, k - 1);
    if i < k - 1 {
      RegistersAreLatest(ss, es, i, k - 1);
    }
  }

  lemma RunSees(ss: seq<State>, es: seq<Event>, k: nat)
    requires Run(ss, es) && k < |es|
    ensures ss[k + 1].registers == if Seen(ss[k], es[k]).Some? then Seen(ss[k], es[k]).value else ss[k].registers
  {
    StepSees(ss[k], es[k], ss[k + 1]);
  }

  lemma StepSees(s: State, e: Event, s': State)
    requires Step(s, e, s')
    ensures s'.registers == if Seen(s, e).Some? then Seen(s, e).value else s.registers
  {
  }

  /** A breakpoint message whose check gets its bytes, over a cache that answers for
      memory and has room: the debugger stops exactly if the program counter is the
      target of the jump that read finds at the breakpoint, which inside lines is the
      jump in memory. Then it shows the registers of the message and no old line;
      otherwise it lets the target go on. */
  lemma MessageStopsIff(s: State, s': State, bp: nat, r: Registers, k: Check, resumed: bool)
    requires !s.stopped && s.breakpoint == Some(bp) && Sound(s.cache, s.mem) && HasRoomFor(s.cache, s.mem, bp, r.x)
    requires Step(s, HandleBreakpoint(Some(r), k, resumed), s') && k.valid.Some?
    ensures s'.stopped <==> ReachedAsRead(s.mem, bp, r)
    ensures InLines(s.mem, bp, r.x) ==> (s'.stopped <==> ReachedByJump(s.mem, bp, r))
    ensures s'.registers == r && (s'.stopped ==> s'.running == s.running && s'.cache.av == map[])
    ensures !s'.stopped && resumed ==> s'.running
  {
    CheckAnswersForMemory(s.cache, k, s.mem, bp, r);
  }

  /** A stopped debugger can evaluate whatever lies in one line of memory, if there is a
      cache line for it, and gets what memory holds. */
  lemma StoppedEvaluates(s: State, address: nat, n: nat) returns (bytes: seq<Byte>, s': State)
    requires s.stopped && Sound(s.cache, s.mem) && Sized(s.cache) && s.cache.Room(Base(address))
    requires n > 0 && address % LINE_SIZE + n <= LINE_SIZE && Base(address) + LINE_SIZE <= |s.mem|
    ensures Step(s, Evaluate(address, n, Some(bytes)), s') && s'.stopped
    ensures address + n <= |s.mem| && bytes == s.mem[address..address + n]
  {
    AccessedView(s.cache, address, s.mem);
    var c := Accessed(s.cache, Base(address), s.mem);
    var line := LineOf(c, address);
    bytes := line[address % LINE_SIZE..address % LINE_SIZE + n];
    forall i | 0 <= i < n ensures bytes[i] == line[LineIndex(address % LINE_SIZE, i)] {
    }
    AccessKeepsSound(s.cache, c, address, s.mem, true);
    WrappedInLine(bytes, line, s.mem, address, n);
    s' := s.(cache := c);
  }

  /* What an evaluation shows in any run, safe or not */

  /** An access that changed nothing or found a free line. */
  predicate Fitted(c: Snapshot, c': Snapshot) {
    c' == c || |c.av| < |c.ls|
  }

  predicate FittedCheck(c: Snapshot, k: Check) {
    Fitted(c, k.code) && Fitted(k.code, k.after)
  }

  /** The accesses of the step stayed within capacity. */
  predicate Roomy(s: State, e: Event, s': State) {
    match e
    case Evaluate(_, _, _) => Fitted(s.cache, s'.cache)
    case HandleBreakpoint(seen, k, _) => seen == None || FittedCheck(s.cache, k)
    case Poll(_, k) => s' == s || FittedCheck(s.cache, k)
    case _ => true
  }

  ghost predicate RoomyUpTo(ss: seq<State>, es: seq<Event>, k: nat)
    requires k <= |es| && |ss| == |es| + 1
  {
    forall i | 0 <= i < k :: Roomy(ss[i], es[i], ss[i + 1])
  }

  /** The cache is fit to be used, and its lines came as Fills says. */
  ghost predicate KeepsFills(c: Snapshot, c': Snapshot, mem: seq<Byte>) {
    c'.Valid() && c'.NoAlias() && Fills(c, c', mem)
  }

  lemma FittedAccessFills(c: Snapshot, c': Snapshot, address: nat, mem: seq<Byte>, ok: bool)
    requires c.Valid() && c.NoAlias() && Access(c, c', Base(address), mem, ok) && Fitted(c, c')
    ensures KeepsFills(c, c', mem) && c.av.Keys <= c'.av.Keys
  {
    if c' != c {
      AccessFills(c, c', Base(address), mem, ok);
    }
  }

  lemma FillsTwice(c: Snapshot, code: Snapshot, after: Snapshot, mem: seq<Byte>)
    requires Fills(c, code, mem) && Fills(code, after, mem) && c.av.Keys <= code.av.Keys
    ensures Fills(c, after, mem)
  {
    assert forall key <- c.View() :: key in code.View();
  }

  lemma FittedJumpFills(line: seq<Byte>, k: Check, mem: seq<Byte>, bp: nat, r: Registers)
    requires |line| == LINE_SIZE && k.code.Valid() && k.code.NoAlias()
    requires CheckedJump(line, k, mem, bp, r) && Fitted(k.code, k.after)
    ensures KeepsFills(k.code, k.after, mem)
  {
    if k.after != k.code {
      var pointer := Pointer(JumpMode(line[LineIndex(bp % LINE_SIZE, 0)]).value, WordIn(line, bp, 1), r.x);
      FittedAccessFills(k.code, k.after, pointer, mem, k.valid.Some?);
    }
  }

  lemma FittedCheckFills(c: Snapshot, k: Check, mem: seq<Byte>, bp: nat, r: Registers)
    requires c.Valid() && c.NoAlias() && Checked(c, k, mem, bp, r) && FittedCheck(c, k)
    ensures KeepsFills(c, k.after, mem)
  {
    var ok := !(k.code.av == c.av && Base(bp) !in c.av);
    FittedAccessFills(c, k.code, bp, mem, ok);
    if ok {
      FittedJumpFills(LineOf(k.code, bp), k, mem, bp, r);
      FillsTwice(c, k.code, k.after, mem);
    }
  }

  lemma StepFills(s: State, e: Event, s': State)
    requires s.cache.Valid() && s.cache.NoAlias() && Step(s, e, s') && Roomy(s, e, s')
    ensures KeepsFills(s.cache, s'.cache, s.mem)
  {
    match e
    case HandleBreakpoint(seen, k, _) =>
      if seen.Some? {
        FittedCheckFills(s.cache, k, s.mem, s.breakpoint.value, seen.value);
      }
    case Poll(seen, k) =>
      if s' != s {
        FittedCheckFills(s.cache, k, s.mem, s.breakpoint.value, seen.value);
      }
    case Evaluate(address, n, bytes) =>
      if s'.cache != s.cache {
        FittedAccessFills(s.cache, s'.cache, address, s.mem, bytes.Some?);
      }
    case _ =>
  }

  lemma {:induction false} RunKeepsFills(ss: seq<State>, es: seq<Event>, k: nat)
    requires Run(ss, es) && k < |es| && RoomyUpTo(ss, es, k + 1)
    ensures KeepsFills(ss[k].cache, ss[k + 1].cache, ss[k].mem)
  {
    if k > 0 {
      RunKeepsFills(ss, es, k - 1);
      assert ss[k - 1 + 1] == ss[k];
    }
    StepFills(ss[k], es[k], ss[k + 1]);
  }

  function Caches(ss: seq<State>): (cs: seq<Snapshot>)
    ensures |cs| == |ss| && forall i | 0 <= i < |ss| :: cs[i] == ss[i].cache
  {
    seq(|ss|, i requires 0 <= i < |ss| => ss[i].cache)
  }

  function Memories(ss: seq<State>): (mems: seq<seq<Byte>>)
    ensures |mems| == |ss| && forall i | 0 <= i < |ss| :: mems[i] == ss[i].mem
  {
    seq(|ss|, i requires 0 <= i < |ss| => ss[i].mem)
  }

  /** In any run within capacity, whatever goes wrong otherwise, an evaluation that
      succeeds shows memory as it was when its line was fetched: in step j, since when
      the line has been mapped. */
  lemma EvaluationShowsFill(ss: seq<State>, es: seq<Event>, i: nat, address: nat, n: nat, bytes: seq<Byte>) returns (j: nat)
    requires Run(ss, es) && i < |es| && RoomyUpTo(ss, es, i + 1)
    requires es[i] == Evaluate(address, n, Some(bytes)) && n > 0
    ensures j <= i && Base(address) !in ss[j].cache.av && forall l | j < l <= i + 1 :: Base(address) in ss[l].cache.av
    ensures Base(address) + LINE_SIZE <= |ss[j].mem| && |bytes| == n
    ensures IsWrapped(bytes, Line(ss[j].mem, Base(address)), address, n)
    ensures address % LINE_SIZE + n <= LINE_SIZE ==> address + n <= |ss[j].mem| && bytes == ss[j].mem[address..address + n]
  {
    forall l | 0 <= l <= i ensures Fills(ss[l].cache, ss[l + 1].cache, ss[l].mem) {
      RunKeepsFills(ss, es, l);
    }
    assert EvaluateStep(ss[i], ss[i + 1], address, n, Some(bytes));
    j := FillsAddUp(Caches(ss), Memories(ss), i + 1, Base(address));
    forall l | j < l <= i + 1 ensures Base(address) in ss[l].cache.av {
      assert Base(address) in Caches(ss)[l].View();
    }
    if address % LINE_SIZE + n <= LINE_SIZE {
      WrappedInLine(bytes, Line(ss[j].mem, Base(address)), ss[j].mem, address, n);
    }
  }

  /* Where it fails: steps that stop without unmapping lines */

  /** A step whose reply was lost leaves a cache to be trusted exactly if no line
      was mapped. */
  lemma FailedNextIff(s: State, reply: Reply)
    requires Inv(s) && s.stopped && !reply.Got? && |s.mem| > 0
    ensures (forall s' | Step(s, Next(reply), s') :: Inv(s')) <==> s.cache.av == map[]
  {
    if s.cache.av == map[] {
      forall s' | Step(s, Next(reply), s') ensures Inv(s') {
        SafeStepKeepsInv(s, Next(reply), s');
      }
    } else {
      var key, mem := StaleMemory(s.cache, |s.mem|);
      var s' := s.(mem := mem, halted := mem);
      StaleIsNotSound(s'.cache, mem, key);
      assert Step(s, Next(reply), s') && !Inv(s');
    }
  }

  /** The same for a pause whose registers could not be read: it has already
      noted the stop. */
  lemma FailedPauseIff(s: State)
    requires Inv(s) && s.running && |s.mem| > 0
    ensures (forall s1, s2 | Step(s, TargetRuns, s1) && Step(s1, Pause(NoRegisters), s2) :: Inv(s2)) <==> s.cache.av == map[]
  {
    if s.cache.av == map[] {
      forall s1, s2 | Step(s, TargetRuns, s1) && Step(s1, Pause(NoRegisters), s2) ensures Inv(s2) {
        SafeStepKeepsInv(s, TargetRuns, s1);
        SafeStepKeepsInv(s1, Pause(NoRegisters), s2);
      }
    } else {
      var key, mem := StaleMemory(s.cache, |s.mem|);
      var s1 := s.(mem := mem);
      var s2 := s1.(stopped := true, running := false, halted := mem);
      StaleIsNotSound(s2.cache, mem, key);
      assert Step(s, TargetRuns, s1) && Step(s1, Pause(NoRegisters), s2) && !Inv(s2);
    }
  }

  /** A cont without reply may have let the target go on unnoticed. */
  lemma FailedContIff(s: State)
    requires Inv(s)
    ensures (forall s' | Step(s, Cont(false), s') :: Inv(s')) <==> !s.stopped
  {
    if s.stopped {
      var s' := s.(running := true);
      assert Step(s, Cont(false), s') && !Inv(s');
    } else {
      forall s' | Step(s, Cont(false), s') ensures Inv(s') {
        SafeStepKeepsInv(s, Cont(false), s');
      }
    }
  }

  /** A breakpoint message that cannot be read lets the target go on; that keeps it
      exactly if the debugger did not count it as stopped. */
  lemma UnreadBreakpointIff(s: State, k: Check, resumed: bool)
    requires Inv(s)
    ensures (forall s' | Step(s, HandleBreakpoint(None, k, resumed), s') :: Inv(s')) <==> !s.stopped
  {
    if s.stopped {
      var s' := s.(running := true);
      assert Step(s, HandleBreakpoint(None, k, resumed), s') && !Inv(s');
    } else {
      forall s' | Step(s, HandleBreakpoint(None, k, resumed), s') ensures Inv(s') {
        SafeStepKeepsInv(s, HandleBreakpoint(None, k, resumed), s');
      }
    }
  }

  /** The same for a message that the check rejects. */
  lemma RejectedBreakpointIff(s: State, r: Registers, k: Check, resumed: bool)
    requires Inv(s) && s.breakpoint.Some? && Checked(s.cache, k, s.mem, s.breakpoint.value, r) && k.valid == Some(false)
    ensures (forall s' | Step(s, HandleBreakpoint(Some(r), k, resumed), s') :: Inv(s')) <==> !s.stopped
  {
    if s.stopped {
      var s' := s.(running := true, registers := r, cache := k.after);
      assert Step(s, HandleBreakpoint(Some(r), k, resumed), s') && !Inv(s');
    } else {
      forall s' | Step(s, HandleBreakpoint(Some(r), k, resumed), s') ensures Inv(s') {
        SafeStepKeepsInv(s, HandleBreakpoint(Some(r), k, resumed), s');
      }
    }
  }

  /** The same for a message whose check a failing fetch leaves undecided: what that
      fetch may have written is harmless exactly with room for the check. */
  lemma UndecidedBreakpointIff(s: State, r: Registers, resumed: bool)
    requires Inv(s) && s.stopped && s.breakpoint.Some? && Sized(s.cache)
    ensures (forall k: Check, s' | k.valid == None && Step(s, HandleBreakpoint(Some(r), k, resumed), s') :: Inv(s'))
      <==> HasRoomForCheck(s, r)
  {
    UndecidedCheckIff(s.cache, s.mem, s.breakpoint.value, r);
    if HasRoomForCheck(s, r) {
      forall k: Check, s' | k.valid == None && Step(s, HandleBreakpoint(Some(r), k, resumed), s') ensures Inv(s') {
        SafeStepKeepsInv(s, HandleBreakpoint(Some(r), k, resumed), s');
      }
    } else {
      var k :| Checked(s.cache, k, s.mem, s.breakpoint.value, r) && k.valid == None && !Sound(k.after, s.mem);
      var s' := s.(registers := r, cache := k.after);
      assert Step(s, HandleBreakpoint(Some(r), k, resumed), s') && !Inv(s');
    }
  }

  /** An evaluation keeps it, whether it succeeds or fails, exactly with room for the line. */
  lemma EvaluateKeepsInvIff(s: State, address: nat, n: nat)
    requires Inv(s) && s.stopped && n > 0 && Sized(s.cache)
    ensures (forall bytes, s' | Step(s, Evaluate(address, n, bytes), s') :: Inv(s')) <==> s.cache.Room(Base(address))
  {
    if s.cache.Room(Base(address)) {
      forall bytes, s' | Step(s, Evaluate(address, n, bytes), s') ensures Inv(s') {
        SafeStepKeepsInv(s, Evaluate(address, n, bytes), s');
      }
    } else {
      var spoiled := SpoiledFetch(s.cache, Base(address), s.mem);
      var s' := s.(cache := spoiled);
      assert Step(s, Evaluate(address, n, None), s') && !Inv(s');
    }
  }

  /* The stop noticed by polling */

  /** The polling stop: the target ran, hit the breakpoint and halted, and the
      message was missed. */
  ghost predicate PolledStop(s: State, s1: State, s2: State, s3: State, seen: Option<Registers>, k: Check) {
    Step(s, TargetRuns, s1) && Step(s1, TargetHalts, s2) && Step(s2, Poll(seen, k), s3) && s3.stopped
  }

  /** It leaves a cache to be trusted exactly if no line was mapped before: the
      lines of the time before the target ran are not unmapped. */
  lemma PolledStopIff(s: State)
    requires Inv(s) && s.running && s.breakpoint.Some? && s.breakpoint.value < 0x1_0000
    requires Sized(s.cache) && |s.cache.ls| >= 2 && |s.mem| >= 0x1_0000
    ensures (forall s1, s2, s3, seen, k | PolledStop(s, s1, s2, s3, seen, k) :: Inv(s3)) <==> s.cache.av == map[]
  {
    if s.cache.av == map[] {
      forall s1, s2, s3, seen, k | PolledStop(s, s1, s2, s3, seen, k) ensures Inv(s3) {
        SafeStepKeepsInv(s, TargetRuns, s1);
        SafeStepKeepsInv(s1, TargetHalts, s2);
        TwoFreeLinesAreRoom(s2.cache, s2.mem, s.breakpoint.value, seen.value.x);
        SafeStepKeepsInv(s2, Poll(seen, k), s3);
      }
    } else {
      var key, mem := StaleMemory(s.cache, |s.mem|);
      var k, r := SomeCheckPasses(s.cache, mem, s.breakpoint.value);
      var s1 := s.(mem := mem);
      var s2 := s1.(running := false, halted := mem);
      var s3 := s2.(registers := r, cache := k.after, stopped := true);
      CheckKeepsUnfit(s.cache, k, mem, s.breakpoint.value, r, key);
      UnfitIsNotSound(k.after, mem, key);
      assert PolledStop(s, s1, s2, s3, Some(r), k) && !Inv(s3);
    }
  }

  /** A poll that finds the target running, over a cache that answers for memory:
      the debugger takes the target for stopped exactly if the check gets its bytes
      and the program counter is the target of the jump that read finds there, which
      it always is where there is none; inside lines that is the jump in memory. */
  lemma PollOfRunningTargetIff(s: State, s': State, bp: nat, r: Registers, k: Check)
    requires Inv(s) && s.running && s.breakpoint == Some(bp) && Sound(s.cache, s.mem) && HasRoomFor(s.cache, s.mem, bp, r.x)
    requires PollStep(s, s', Some(r), k)
    ensures s'.running && (s'.stopped <==> k.valid.Some? && ReachedAsRead(s.mem, bp, r))
    ensures InLines(s.mem, bp, r.x) ==> (s'.stopped <==> k.valid.Some? && ReachedByJump(s.mem, bp, r))
    ensures Inv(s') <==> !s'.stopped
  {
    CheckKeepsValid(s.cache, k, s.mem, bp, r);
    if k.valid.Some? {
      CheckAnswersForMemory(s.cache, k, s.mem, bp, r);
      assert s'.stopped == k.valid.value;
    }
  }

  lemma ProductPositive(a: nat, b: nat)
    requires a > 0 && b > 0
    ensures a * b > 0
  {
  }

  /** How an access to a line ends, given what was mapped before. */
  predicate LineExplained(ok: bool, a: nat, mapped: map<int, nat>, before: Traffic, after: Traffic) {
    AccessExplained(ok, a in mapped, a, before, after)
  }

  /** A breakpoint and an index of 16 bits: whatever the check has to read lies in
      memory. */
  predicate InReach(bp: nat, x: nat) {
    bp < 0x1_0000 && x < 0x1_0000
  }

  /** If every command is answered there is a decision. */
  predicate AnswersDecide(decided: bool, timeouts0: nat, timeouts: nat) {
    timeouts0 <= timeouts && (timeouts == timeouts0 ==> decided)
  }

  predicate IsCode(code: (Byte, nat), line: seq<Byte>, bp: nat)
    requires |line| == LINE_SIZE
  {
    code == (line[LineIndex(bp % LINE_SIZE, 0)], WordIn(line, bp, 1)) && code.1 < 0x1_0000
  }

  lemma CodeIsRead(s: Snapshot, s': Snapshot, d0: seq<Byte>, d: seq<Byte>, bp: nat, mem: seq<Byte>)
    requires |d| == 5 && ReadSoFar(s, s', d0, d, bp, mem, 5)
    ensures Access(s, s', Base(bp), mem, true) && HasLine(s', bp)
    ensures IsCode((d[0], d[1] as int + 256 * d[2] as int), LineOf(s', bp), bp)
  {
    var line := LineOf(s', bp);
    assert d[0] == line[LineIndex(bp % LINE_SIZE, 0)] && d[1] == line[LineIndex(bp % LINE_SIZE, 1)] && d[2] == line[LineIndex(bp % LINE_SIZE, 2)];
  }

  datatype Thrown = NotStopped | NoAnswer | Fetch(failure: Failure)

  class M65Debugger {
    const cache: MemoryCache
    var stopped: bool
    var breakpoint: Option<nat>
    var registers: Registers
    ghost var running: bool
    ghost var halted: seq<Byte>

    /** After initialize has let the target go on. */
    constructor (cache: MemoryCache)
      requires cache.Valid() && cache.addressView == map[]
      ensures Valid() && Initial(Abs()) && this.cache == cache
    {
      this.cache := cache;
      stopped, breakpoint, registers := false, None, Registers(0, 0);
      running, halted := true, [];
    }

    ghost predicate Valid()
      reads this, cache, cache.lines, cache.data, cache.target
    {
      cache.Valid()
    }

    ghost function Abs(): State
      reads this, cache, cache.lines, cache.data, cache.target.memory
    {
      State(stopped, running, cache.State(), cache.Memory(), halted, breakpoint, registers)
    }

    method Pause(reply: Reply, ghost obeyed: bool) returns (r: Result<(), Thrown>)
      requires Valid()
      modifies this, cache`addressView, cache.lines
      ensures Valid() && PauseStep(old(Abs()), Abs(), reply)
      ensures r.Ok? <==> reply.Got?
    {
      if obeyed || reply != NoReply {
        halted := if running then cache.Memory() else halted;
        running := false;
      }
      if reply == NoReply {
        return Err(NoAnswer);
      }
      stopped := true;
      if reply == NoRegisters {
        return Err(NoAnswer);
      }
      registers := reply.registers;
      cache.Invalidate();
      return Ok(());
    }

    method Cont(replied: bool, ghost obeyed: bool) returns (r: Result<(), Thrown>)
      requires Valid()
      modifies this
      ensures Valid() && Step(old(Abs()), Event.Cont(replied), Abs())
      ensures r.Ok? <==> replied
    {
      running := running || obeyed || replied;
      if !replied {
        return Err(NoAnswer);
      }
      stopped := false;
      return Ok(());
    }

    /** The part of the target: it leaves other memory. */
    method TargetWrites(mem: seq<Byte>)
      requires Valid() && |mem| == cache.target.memory.Length
      modifies cache.target.memory
      ensures Valid() && Abs() == old(Abs()).(mem := mem)
    {
      var memory := cache.target.memory;
      forall i | 0 <= i < memory.Length {
        memory[i] := mem[i];
      }
      assert memory[..] == mem;
    }

    method Next(reply: Reply, mem: seq<Byte>) returns (r: Result<(), Thrown>)
      requires Valid() && |mem| == cache.target.memory.Length
      modifies this, cache`addressView, cache.data, cache.lines, cache.target`memoryCommands, cache.target`timeouts, cache.target.memory
      ensures Valid() && NextStep(old(Abs()), Abs(), reply)
      ensures r == if !old(stopped) then Err(NotStopped) else if reply.Got? then Ok(()) else Err(NoAnswer)
    {
      if !stopped {
        return Err(NotStopped);
      }
      TargetWrites(mem);
      halted := mem;
      if !reply.Got? {
        return Err(NoAnswer);
      }
      registers := reply.registers;
      cache.RefreshAccessed();
      return Ok(());
    }

    method CalculateAddress(addr: nat, mode: Mode, pc: int) returns (r: Result<int, Failure>, ghost after: Snapshot)
      requires Valid()
      modifies cache`addressView, cache.data, cache.lines, cache.target`memoryCommands, cache.target`timeouts
      ensures Valid() && after == cache.State()
      ensures mode == Absolute ==> r == Ok(addr) && after == old(cache.State())
      ensures mode == RelativeWord ==> r == Ok(pc + Signed16(addr)) && after == old(cache.State())
      ensures mode == RelativeWord && addr < 0x1_0000 ==> pc - 0x8000 <= r.value < pc + 0x8000 && (r.value - pc - addr) % 0x1_0000 == 0
      ensures !IsIndirect(mode) ==> cache.target.Sent() == old(cache.target.Sent())
      ensures IsIndirect(mode) ==> LineExplained(r.Ok?, Base(Pointer(mode, addr, registers.x)), old(cache.addressView),
                                                 old(cache.target.Sent()), cache.target.Sent())
      ensures IsIndirect(mode) ==> WordRead(old(cache.State()), after, Pointer(mode, addr, registers.x), cache.Memory(), r)
    {
      match mode {
        case Absolute => r := Ok(addr);
        case AbsoluteIndirect => r := ReadPointer(addr);
        case AbsoluteIndirectX => r := ReadPointer(addr + registers.x);
        case RelativeWord => r := Ok(pc + (if addr > 0x7FFF then addr - 0x1_0000 else addr));
      }
      after := cache.State();
    }

    method ReadPointer(pointer: nat) returns (r: Result<int, Failure>)
      requires Valid()
      modifies cache`addressView, cache.data, cache.lines, cache.target`memoryCommands, cache.target`timeouts
      ensures Valid() && WordRead(old(cache.State()), cache.State(), pointer, cache.Memory(), r)
      ensures LineExplained(r.Ok?, Base(pointer), old(cache.addressView), old(cache.target.Sent()), cache.target.Sent())
    {
      r := cache.ReadWord(pointer);
    }

    /** The program counter against the target of a jump, whose operand was read. */
    method IsAtTarget(mode: Mode, operand: nat, bp: nat) returns (valid: Option<bool>, ghost k: Check)
      requires Valid() && operand < 0x1_0000
      modifies cache`addressView, cache.data, cache.lines, cache.target`memoryCommands, cache.target`timeouts
      ensures Valid() && CheckedMode(Some(mode), operand, k, cache.Memory(), bp, registers)
      ensures k.code == old(cache.State()) && k.after == cache.State() && k.valid == valid
      ensures registers.x < 0x1_0000 ==> AnswersDecide(valid.Some?, old(cache.target.timeouts), cache.target.timeouts)
    {
      ghost var code := cache.State();
      var target, after := CalculateAddress(operand, mode, bp + 2);
      valid := if target.Ok? then Some(registers.pc == target.value) else None;
      k := Check(code, after, valid);
    }

    /** The code at the breakpoint: its opcode and the word behind it. */
    method ReadCode(bp: nat) returns (r: Result<(Byte, nat), Failure>)
      requires Valid()
      modifies cache`addressView, cache.data, cache.lines, cache.target`memoryCommands, cache.target`timeouts
      ensures Valid() && Access(old(cache.State()), cache.State(), Base(bp), cache.Memory(), r.Ok?)
      ensures r.Ok? ==> HasLine(cache.State(), bp) && IsCode(r.value, LineOf(cache.State(), bp), bp)
      ensures LineExplained(r.Ok?, Base(bp), old(cache.addressView), old(cache.target.Sent()), cache.target.Sent())
    {
      var command := new Byte[5](_ => 0);
      ghost var s, d0 := cache.State(), command[..];
      var read := cache.Read(bp, command);
      if read.Err? {
        return Err(read.error);
      }
      CodeIsRead(s, cache.State(), d0, command[..], bp, cache.Memory());
      return Ok((command[0], command[1] as int + 256 * command[2] as int));
    }

    method IsBreakpointTriggerValid() returns (valid: Option<bool>, ghost k: Check)
      requires Valid() && breakpoint.Some?
      modifies cache`addressView, cache.data, cache.lines, cache.target`memoryCommands, cache.target`timeouts
      ensures Valid() && Checked(old(cache.State()), k, cache.Memory(), breakpoint.value, registers)
      ensures k.after == cache.State() && k.valid == valid
      ensures InReach(breakpoint.value, registers.x) ==>
        AnswersDecide(valid.Some?, old(cache.target.timeouts), cache.target.timeouts)
    {
      var bp := breakpoint.value;
      var command := ReadCode(bp);
      ghost var code := cache.State();
      if command.Err? {
        return None, Check(code, code, None);
      }
      var mode := JumpMode(command.value.0);
      if mode == None {
        return Some(true), Check(code, code, Some(true));
      }
      valid, k := IsAtTarget(mode.value, command.value.1, bp);
    }

    /** A breakpoint message, which the target sends when it has halted. */
    method HandleBreakpoint(seen: Option<Registers>, resumed: bool, ghost obeyed: bool)
      returns (r: Result<(), Thrown>, ghost k: Check)
      requires Valid() && (seen.Some? ==> breakpoint.Some?)
      modifies this, cache`addressView, cache.data, cache.lines, cache.target`memoryCommands, cache.target`timeouts
      ensures Valid() && HandleStep(old(Abs()), Abs(), seen, k, resumed)
      ensures r.Ok? <==> (if seen.Some? && k.valid != Some(false) then k.valid.Some? else resumed)
      ensures seen.Some? && InReach(breakpoint.value, seen.value.x) ==>
        AnswersDecide(k.valid.Some?, old(cache.target.timeouts), cache.target.timeouts)
    {
      var valid := Some(false);
      if seen.Some? {
        registers := seen.value;
        valid, k := IsBreakpointTriggerValid();
        if valid == None {
          return Err(NoAnswer), k;
        }
      } else {
        k := Check(cache.State(), cache.State(), None);
      }
      if !valid.value {
        running := running || obeyed || resumed;
        return if resumed then Ok(()) else Err(NoAnswer), k;
      }
      cache.Invalidate();
      stopped := true;
      return Ok(()), k;
    }

    method CheckBreakpointByPc(seen: Option<Registers>) returns (r: Result<(), Thrown>, ghost k: Check)
      requires Valid()
      modifies this, cache`addressView, cache.data, cache.lines, cache.target`memoryCommands, cache.target`timeouts
      ensures Valid() && PollStep(old(Abs()), Abs(), seen, k)
      ensures r.Ok? <==> breakpoint == None || old(stopped) || (seen.Some? && k.valid.Some?)
      ensures breakpoint.Some? && !old(stopped) && seen.Some? && InReach(breakpoint.value, seen.value.x) ==>
        AnswersDecide(k.valid.Some?, old(cache.target.timeouts), cache.target.timeouts)
    {
      k := Check(cache.State(), cache.State(), None);
      if breakpoint == None || stopped {
        return Ok(()), k;
      }
      if seen == None {
        return Err(NoAnswer), k;
      }
      registers := seen.value;
      var valid;
      valid, k := IsBreakpointTriggerValid();
      if valid == None {
        return Err(NoAnswer), k;
      }
      stopped := valid.value;
      return Ok(()), k;
    }

    method ReadBytes(address: nat, n: nat) returns (r: Result<seq<Byte>, Failure>)
      requires Valid() && stopped && n > 0
      modifies cache`addressView, cache.data, cache.lines, cache.target`memoryCommands, cache.target`timeouts
      ensures Valid() && EvaluateStep(old(Abs()), Abs(), address, n, if r.Ok? then Some(r.value) else None)
      ensures LineExplained(r.Ok?, Base(address), old(cache.addressView), old(cache.target.Sent()), cache.target.Sent())
    {
      var tmp := new Byte[n](_ => 0);
      var read := cache.Read(address, tmp);
      return if read.Ok? then Ok(tmp[..]) else Err(read.error);
    }

    /** The value of an expression that names an address, an element size and a
        number of elements: the bytes there, and their text. */
    method EvaluateExpression(address: nat, typeSize: nat, numElements: nat)
      returns (r: Result<string, Thrown>, bytes: Option<seq<Byte>>)
      requires Valid() && typeSize in {1, 2, 4} && 0 < numElements <= 256
      modifies cache`addressView, cache.data, cache.lines, cache.target`memoryCommands, cache.target`timeouts
      ensures Valid() && EvaluateStep(old(Abs()), Abs(), address, numElements * typeSize, bytes)
      ensures r.Ok? <==> bytes.Some?
      ensures !stopped ==> r == Err(NotStopped) && cache.target.Sent() == old(cache.target.Sent())
      ensures stopped ==> LineExplained(r.Ok?, Base(address), old(cache.addressView), old(cache.target.Sent()), cache.target.Sent())
      ensures r.Ok? ==> |bytes.value| == numElements * typeSize && Decodes(r.value, Pieces(bytes.value, typeSize))
    {
      if !stopped {
        return Err(NotStopped), None;
      }
      ProductPositive(numElements, typeSize);
      var tmp := ReadBytes(address, numElements * typeSize);
      if tmp.Err? {
        return Err(Fetch(tmp.error)), None;
      }
      r, bytes := Printed(tmp.value, typeSize, numElements);
    }

    static method Printed(tmp: seq<Byte>, typeSize: nat, numElements: nat)
      returns (r: Result<string, Thrown>, bytes: Option<seq<Byte>>)
      requires typeSize in {1, 2, 4} && numElements > 0 && |tmp| == numElements * typeSize
      ensures r.Ok? && bytes == Some(tmp) && Decodes(r.value, Pieces(tmp, typeSize))
    {
      var text := Format(tmp, typeSize, numElements);
      return Ok(text), Some(tmp);
    }
  }
}
