/**
 Whether a breakpoint was triggered: is_breakpoint_trigger_valid and calculate_address
 of src/m65_debugger.cpp, which read the code at the breakpoint through the line cache.
 Lines that are mapped answer for the memory of the time they were fetched, and what a
 read takes from beyond the end of a line comes from its start.
 */
module BreakpointCheck {
  import opened Common
  import opened Monitor
  import opened TargetMemory
  import opened MemoryCache

  datatype Registers = Registers(pc: int, x: nat)

  datatype Mode = Absolute | AbsoluteIndirect | AbsoluteIndirectX | RelativeWord

  /** The opcodes JSR and BSR; all others count as illegal. */
  function JumpMode(opcode: Byte): Option<Mode> {
    if opcode == 0x20 then Some(Absolute)
    else if opcode == 0x22 then Some(AbsoluteIndirect)
    else if opcode == 0x23 then Some(AbsoluteIndirectX)
    else if opcode == 0x63 then Some(RelativeWord)
    else None
  }

  function Signed16(n: int): int {
    if n > 0x7FFF then n - 0x1_0000 else n
  }

  /** The byte that a read from the address delivers at index i, and the word. */
  function ByteIn(line: seq<Byte>, address: nat, i: nat): int
    requires |line| == LINE_SIZE
  {
    line[LineIndex(address % LINE_SIZE, i)] as int
  }

  function WordIn(line: seq<Byte>, address: nat, i: nat): int
    requires |line| == LINE_SIZE
  {
    ByteIn(line, address, i) + 256 * ByteIn(line, address, i + 1)
  }

  /** Where an indirect jump looks its target up. */
  function Pointer(mode: Mode, operand: int, x: nat): int {
    if mode == AbsoluteIndirectX then operand + x else operand
  }

  predicate IsIndirect(mode: Mode) {
    mode == AbsoluteIndirect || mode == AbsoluteIndirectX
  }

  /** The cache after the code at the breakpoint was read, and after the whole
      check, and its outcome: none when a fetch threw. */
  datatype Check = Check(code: Snapshot, after: Snapshot, valid: Option<bool>)

  /** The check of the breakpoint at bp: is the program counter the target of
      the jump there? Anything but a jump passes. */
  ghost predicate Checked(c: Snapshot, k: Check, mem: seq<Byte>, bp: nat, r: Registers) {
    if k.code.av == c.av && Base(bp) !in c.av then
      Access(c, k.code, Base(bp), mem, false) && k.after == k.code && k.valid == None
    else
      && Access(c, k.code, Base(bp), mem, true)
      && HasLine(k.code, bp) && CheckedJump(LineOf(k.code, bp), k, mem, bp, r)
  }

  ghost predicate CheckedJump(line: seq<Byte>, k: Check, mem: seq<Byte>, bp: nat, r: Registers)
    requires |line| == LINE_SIZE
  {
    CheckedMode(JumpMode(line[LineIndex(bp % LINE_SIZE, 0)]), WordIn(line, bp, 1), k, mem, bp, r)
  }

  ghost predicate CheckedMode(mode: Option<Mode>, operand: nat, k: Check, mem: seq<Byte>, bp: nat, r: Registers) {
    match mode
    case None => k.after == k.code && k.valid == Some(true)
    case Some(Absolute) => k.after == k.code && k.valid == Some(r.pc == operand)
    case Some(RelativeWord) => k.after == k.code && k.valid == Some(r.pc == bp + 2 + Signed16(operand))
    case Some(m) => CheckedIndirect(Pointer(m, operand, r.x), k, mem, r)
  }

  /** A word read through the cache. */
  ghost predicate WordRead(c: Snapshot, c': Snapshot, address: nat, mem: seq<Byte>, r: Result<int, Failure>) {
    && Access(c, c', Base(address), mem, r.Ok?)
    && (r.Ok? ==> HasLine(c', address) && r.value == WordIn(LineOf(c', address), address, 0))
  }

  ghost predicate CheckedIndirect(pointer: nat, k: Check, mem: seq<Byte>, r: Registers) {
    && Access(k.code, k.after, Base(pointer), mem, k.valid.Some?)
    && (k.valid.Some? ==> HasLine(k.after, pointer) && k.valid == Some(r.pc == WordIn(LineOf(k.after, pointer), pointer, 0)))
  }

  /* The same question asked of memory */

  function WordAt(mem: seq<Byte>, address: nat): int
    requires address + 2 <= |mem|
  {
    mem[address] as int + 256 * mem[address + 1] as int
  }

  predicate ReachedByJump(mem: seq<Byte>, bp: nat, r: Registers)
    requires bp + 3 <= |mem|
  {
    ReachedByMode(JumpMode(mem[bp]), WordAt(mem, bp + 1), mem, bp, r)
  }

  predicate ReachedByMode(mode: Option<Mode>, operand: nat, mem: seq<Byte>, bp: nat, r: Registers) {
    match mode
    case None => true
    case Some(Absolute) => r.pc == operand
    case Some(RelativeWord) => r.pc == bp + 2 + Signed16(operand)
    case Some(m) =>
      var pointer := Pointer(m, operand, r.x);
      pointer + 2 <= |mem| && r.pc == WordAt(mem, pointer)
  }

  /** By the bytes of the instruction: JSR with an absolute, an indirect and an indexed
      indirect address, and BSR, whose displacement is taken modulo 2^16 as a signed
      number and counts from the byte at bp + 2. Any other instruction passes. */
  lemma ReachedByBytes(mem: seq<Byte>, bp: nat, r: Registers)
    requires bp + 3 <= |mem|
    ensures var word := mem[bp + 1] as int + 256 * mem[bp + 2] as int;
      ReachedByJump(mem, bp, r) <==>
        if mem[bp] == 0x20 then r.pc == word
        else if mem[bp] == 0x22 then word + 2 <= |mem| && r.pc == mem[word] as int + 256 * mem[word + 1] as int
        else if mem[bp] == 0x23 then
          word + r.x + 2 <= |mem| && r.pc == mem[word + r.x] as int + 256 * mem[word + r.x + 1] as int
        else if mem[bp] == 0x63 then -0x8000 <= r.pc - (bp + 2) < 0x8000 && (r.pc - (bp + 2) - word) % 0x1_0000 == 0
        else true
  {
    var d, word := r.pc - (bp + 2), WordAt(mem, bp + 1);
    if -0x8000 <= d < 0x8000 && (d - word) % 0x1_0000 == 0 {
      SignedIsOnly(d, word);
    }
  }

  /** One number of 16 bits with sign is congruent to a word. */
  lemma SignedIsOnly(d: int, word: nat)
    requires -0x8000 <= d < 0x8000 && word < 0x1_0000 && (d - word) % 0x1_0000 == 0
    ensures d == Signed16(word)
  {
    var q := (d - word) / 0x1_0000;
    assert d - word == 0x1_0000 * q;
  }

  lemma IndexIsMod(address: nat, i: nat, k: nat)
    requires k == LineIndex(address % LINE_SIZE, i)
    ensures k == (address + i) % LINE_SIZE
  {
    LineIndexIsMod(address % LINE_SIZE, i);
  }

  /** The word that a read delivers: both bytes from the line of its first one, modulo
      the line size. */
  lemma WordInBytes(line: seq<Byte>, address: nat, i: nat)
    requires |line| == LINE_SIZE
    ensures WordIn(line, address, i) == line[(address + i) % LINE_SIZE] as int + 256 * line[(address + i + 1) % LINE_SIZE] as int
  {
    IndexIsMod(address, i, LineIndex(address % LINE_SIZE, i));
    IndexIsMod(address, i + 1, LineIndex(address % LINE_SIZE, i + 1));
  }

  lemma WordInIsWordAt(mem: seq<Byte>, address: nat, i: nat)
    requires Base(address) + LINE_SIZE <= |mem| && address % LINE_SIZE + i + 2 <= LINE_SIZE
    ensures WordIn(Line(mem, Base(address)), address, i) == WordAt(mem, address + i)
  {
  }

  /** Two bytes at the pointer of an indirect jump lie in one line. */
  predicate PointerInLine(mode: Option<Mode>, operand: nat, x: nat) {
    mode.Some? && IsIndirect(mode.value) ==> Pointer(mode.value, operand, x) % LINE_SIZE + 2 <= LINE_SIZE
  }

  lemma AccessKeepsSound(c: Snapshot, c': Snapshot, address: nat, mem: seq<Byte>, ok: bool)
    requires Sound(c, mem) && c.Room(Base(address)) && Access(c, c', Base(address), mem, ok)
    ensures Sound(c', mem) && |c'.ls| == |c.ls| && |c'.av| <= |c.av| + 1
    ensures ok ==> Base(address) + LINE_SIZE <= |mem| && HasLine(c', address) && LineOf(c', address) == Line(mem, Base(address))
  {
    AccessKeepsCoherent(c, c', Base(address), mem, ok);
    AccessView(c, c', Base(address), mem, ok);
  }

  /* What the check makes of memory: read takes all bytes from the line of the first */

  function ModeAsRead(mem: seq<Byte>, bp: nat): Option<Mode>
    requires Base(bp) + LINE_SIZE <= |mem|
  {
    JumpMode(Line(mem, Base(bp))[LineIndex(bp % LINE_SIZE, 0)])
  }

  function OperandAsRead(mem: seq<Byte>, bp: nat): nat
    requires Base(bp) + LINE_SIZE <= |mem|
  {
    WordIn(Line(mem, Base(bp)), bp, 1)
  }

  predicate ReachedAsRead(mem: seq<Byte>, bp: nat, r: Registers) {
    Base(bp) + LINE_SIZE <= |mem| && ReachedByModeAsRead(ModeAsRead(mem, bp), OperandAsRead(mem, bp), mem, bp, r)
  }

  predicate ReachedByModeAsRead(mode: Option<Mode>, operand: nat, mem: seq<Byte>, bp: nat, r: Registers) {
    if mode.Some? && IsIndirect(mode.value) then PointsToAsRead(mem, Pointer(mode.value, operand, r.x), r)
    else ReachedByMode(mode, operand, mem, bp, r)
  }

  predicate PointsToAsRead(mem: seq<Byte>, pointer: nat, r: Registers) {
    Base(pointer) + LINE_SIZE <= |mem| && r.pc == WordIn(Line(mem, Base(pointer)), pointer, 0)
  }

  /** The jump at bp, if it is indirect, looks its target up inside one line. */
  predicate PointsIntoLine(mem: seq<Byte>, bp: nat, x: nat) {
    bp + 3 <= |mem| && PointerInLine(JumpMode(mem[bp]), WordAt(mem, bp + 1), x)
  }

  /** The three bytes of the jump lie in one line, and so does its pointer. */
  predicate InLines(mem: seq<Byte>, bp: nat, x: nat) {
    bp % LINE_SIZE + 3 <= LINE_SIZE && PointsIntoLine(mem, bp, x)
  }

  /** There is a free line for whatever a check of memory has to fetch: for the code,
      and then for the pointer of the jump that read makes of it. */
  ghost predicate HasRoomFor(c: Snapshot, mem: seq<Byte>, bp: nat, x: nat) {
    && c.Room(Base(bp))
    && (Base(bp) + LINE_SIZE <= |mem| ==> RoomForPointer(c, ModeAsRead(mem, bp), OperandAsRead(mem, bp), bp, x))
  }

  ghost predicate RoomForPointer(c: Snapshot, mode: Option<Mode>, operand: nat, bp: nat, x: nat) {
    mode.Some? && IsIndirect(mode.value) ==>
      var pointer := Pointer(mode.value, operand, x);
      Base(pointer) in c.av.Keys + {Base(bp)} || |c.av.Keys + {Base(bp)}| < |c.ls|
  }

  lemma TwoFreeLinesAreRoom(c: Snapshot, mem: seq<Byte>, bp: nat, x: nat)
    requires |c.av| + 2 <= |c.ls|
    ensures HasRoomFor(c, mem, bp, x)
  {
    assert |c.av.Keys + {Base(bp)}| <= |c.av.Keys| + 1;
  }

  /** The code line, fetched with room. */
  lemma CodeIsFetched(c: Snapshot, code: Snapshot, mem: seq<Byte>, bp: nat)
    requires Sound(c, mem) && c.Room(Base(bp)) && Access(c, code, Base(bp), mem, true)
    ensures Sound(code, mem) && Base(bp) + LINE_SIZE <= |mem|
    ensures HasLine(code, bp) && LineOf(code, bp) == Line(mem, Base(bp))
    ensures code.av.Keys == c.av.Keys + {Base(bp)} && |code.ls| == |c.ls|
  {
    AccessKeepsSound(c, code, bp, mem, true);
    assert code.av.Keys == c.av.Keys + {Base(bp)};
  }

  lemma RoomAfterCode(c: Snapshot, code: Snapshot, mode: Mode, operand: nat, bp: nat, x: nat)
    requires code.av.Keys == c.av.Keys + {Base(bp)} && |code.ls| == |c.ls| && IsIndirect(mode)
    ensures RoomForPointer(c, Some(mode), operand, bp, x) <==> code.Room(Base(Pointer(mode, operand, x)))
  {
    assert |code.av| == |code.av.Keys|;
  }

  lemma IndirectAnswersForMemory(pointer: nat, k: Check, mem: seq<Byte>, r: Registers)
    requires Sound(k.code, mem) && k.code.Room(Base(pointer))
    requires CheckedIndirect(pointer, k, mem, r) && k.valid.Some?
    ensures k.valid.value == PointsToAsRead(mem, pointer, r)
    ensures pointer % LINE_SIZE + 2 <= LINE_SIZE ==> pointer + 2 <= |mem| && k.valid.value == (r.pc == WordAt(mem, pointer))
  {
    AccessKeepsSound(k.code, k.after, pointer, mem, true);
    if pointer % LINE_SIZE + 2 <= LINE_SIZE {
      WordInIsWordAt(mem, pointer, 0);
    }
  }

  lemma ModeAnswersForMemory(mode: Option<Mode>, operand: nat, k: Check, mem: seq<Byte>, bp: nat, r: Registers)
    requires Sound(k.code, mem)
    requires mode.Some? && IsIndirect(mode.value) ==> k.code.Room(Base(Pointer(mode.value, operand, r.x)))
    requires CheckedMode(mode, operand, k, mem, bp, r) && k.valid.Some?
    ensures k.valid.value == ReachedByModeAsRead(mode, operand, mem, bp, r)
    ensures PointerInLine(mode, operand, r.x) ==> k.valid.value == ReachedByMode(mode, operand, mem, bp, r)
  {
    if mode.Some? && IsIndirect(mode.value) {
      IndirectAnswersForMemory(Pointer(mode.value, operand, r.x), k, mem, r);
    }
  }

  lemma CodeInLine(line: seq<Byte>, mem: seq<Byte>, bp: nat)
    requires Base(bp) + LINE_SIZE <= |mem| && line == Line(mem, Base(bp)) && bp % LINE_SIZE + 3 <= LINE_SIZE
    ensures line[LineIndex(bp % LINE_SIZE, 0)] == mem[bp] && WordIn(line, bp, 1) == WordAt(mem, bp + 1)
  {
    WordInIsWordAt(mem, bp, 1);
  }

  /** Over a coherent cache with room the check answers for memory as read takes it,
      and inside lines for memory as it is. */
  lemma CheckAnswersForMemory(c: Snapshot, k: Check, mem: seq<Byte>, bp: nat, r: Registers)
    requires Sound(c, mem) && HasRoomFor(c, mem, bp, r.x)
    requires Checked(c, k, mem, bp, r) && k.valid.Some?
    ensures k.valid.value == ReachedAsRead(mem, bp, r)
    ensures InLines(mem, bp, r.x) ==> k.valid.value == ReachedByJump(mem, bp, r)
  {
    var mode, operand := ModeAsRead(mem, bp), OperandAsRead(mem, bp);
    CodeIsFetched(c, k.code, mem, bp);
    if mode.Some? && IsIndirect(mode.value) {
      RoomAfterCode(c, k.code, mode.value, operand, bp, r.x);
    }
    ModeAnswersForMemory(mode, operand, k, mem, bp, r);
    if InLines(mem, bp, r.x) {
      CodeInLine(LineOf(k.code, bp), mem, bp);
    }
  }

  lemma UnmappedIsSound(c: Snapshot, mem: seq<Byte>)
    requires c.Valid() && c.av == map[]
    ensures Sound(c, mem)
  {
  }

  lemma CheckKeepsSound(c: Snapshot, k: Check, mem: seq<Byte>, bp: nat, r: Registers)
    requires Sound(c, mem) && HasRoomFor(c, mem, bp, r.x) && Checked(c, k, mem, bp, r)
    ensures Sound(k.after, mem)
  {
    if k.code.av == c.av && Base(bp) !in c.av {
      AccessKeepsSound(c, k.code, bp, mem, false);
    } else {
      CodeIsFetched(c, k.code, mem, bp);
      if k.after != k.code {
        var mode, operand := ModeAsRead(mem, bp).value, OperandAsRead(mem, bp);
        RoomAfterCode(c, k.code, mode, operand, bp, r.x);
        AccessKeepsSound(k.code, k.after, Pointer(mode, operand, r.x), mem, k.valid.Some?);
      }
    }
  }

  /** A check that a failing fetch leaves undecided: memory can be read from the cache
      afterwards, whatever the fetch has written, exactly with room for the check. */
  lemma UndecidedCheckIff(c: Snapshot, mem: seq<Byte>, bp: nat, r: Registers)
    requires Sound(c, mem) && Sized(c)
    ensures (forall k | Checked(c, k, mem, bp, r) && k.valid == None :: Sound(k.after, mem)) <==> HasRoomFor(c, mem, bp, r.x)
  {
    if HasRoomFor(c, mem, bp, r.x) {
      forall k | Checked(c, k, mem, bp, r) && k.valid == None ensures Sound(k.after, mem) {
        CheckKeepsSound(c, k, mem, bp, r);
      }
    } else if !c.Room(Base(bp)) {
      var spoiled := SpoiledFetch(c, Base(bp), mem);
      assert Checked(c, Check(spoiled, spoiled, None), mem, bp, r);
    } else {
      var k := PointerFetchSpoils(c, mem, bp, r);
    }
  }

  lemma PointerFetchSpoils(c: Snapshot, mem: seq<Byte>, bp: nat, r: Registers) returns (k: Check)
    requires Sound(c, mem) && Sized(c) && c.Room(Base(bp)) && !HasRoomFor(c, mem, bp, r.x)
    ensures Checked(c, k, mem, bp, r) && k.valid == None && !Sound(k.after, mem)
  {
    AccessedIsAccess(c, bp, mem);
    var code := Accessed(c, Base(bp), mem);
    CodeIsFetched(c, code, mem, bp);
    var mode, operand := ModeAsRead(mem, bp), OperandAsRead(mem, bp);
    RoomAfterCode(c, code, mode.value, operand, bp, r.x);
    var after := SpoiledFetch(code, Base(Pointer(mode.value, operand, r.x)), mem);
    k := Check(code, after, None);
    assert CheckedMode(mode, operand, k, mem, bp, r);
  }

  lemma JumpKeepsValid(line: seq<Byte>, k: Check, mem: seq<Byte>, bp: nat, r: Registers)
    requires |line| == LINE_SIZE && k.code.Valid() && CheckedJump(line, k, mem, bp, r)
    ensures k.after.Valid()
  {
    if k.after != k.code {
      var pointer := Pointer(JumpMode(line[LineIndex(bp % LINE_SIZE, 0)]).value, WordIn(line, bp, 1), r.x);
      AccessKeepsValid(k.code, k.after, pointer, mem, k.valid.Some?);
    }
  }

  /** Whatever the room, a check leaves a valid cache. */
  lemma CheckKeepsValid(c: Snapshot, k: Check, mem: seq<Byte>, bp: nat, r: Registers)
    requires c.Valid() && Checked(c, k, mem, bp, r)
    ensures k.after.Valid()
  {
    if k.code.av == c.av && Base(bp) !in c.av {
      AccessKeepsValid(c, k.code, bp, mem, false);
    } else {
      AccessKeepsValid(c, k.code, bp, mem, true);
      JumpKeepsValid(LineOf(k.code, bp), k, mem, bp, r);
    }
  }

  /** A check leaves the table and the data as large as they are. */
  lemma CheckKeepsSize(c: Snapshot, k: Check, mem: seq<Byte>, bp: nat, r: Registers)
    requires Checked(c, k, mem, bp, r)
    ensures |k.after.ls| == |c.ls| && |k.after.d| == |c.d|
  {
  }

  /* Lines that show old memory */

  /** The line mapped at the key does not show memory. */
  ghost predicate Stale(c: Snapshot, mem: seq<Byte>, key: int) {
    key in c.av && !(0 <= key && key + LINE_SIZE <= |mem| && c.View()[key] == Line(mem, key))
  }

  lemma StaleMemory(c: Snapshot, size: nat) returns (key: int, mem: seq<Byte>)
    requires c.av != map[] && size > 0
    ensures |mem| == size && Stale(c, mem, key)
  {
    key := SomeElement(c.av.Keys);
    var line := c.View()[key];
    var other: Byte := if |line| > 0 && line[0] == 0 then 1 else 0;
    mem := seq(size, _ => other);
    if 0 <= key && key + LINE_SIZE <= size {
      assert Line(mem, key)[0] == other;
    }
  }

  lemma StaleIsNotSound(c: Snapshot, mem: seq<Byte>, key: int)
    requires Stale(c, mem, key)
    ensures !Sound(c, mem)
  {
    assert key in c.View();
  }

  ghost predicate Unfit(c: Snapshot, mem: seq<Byte>, key: int) {
    c.Valid() && key in c.av && (Stale(c, mem, key) || !c.NoAlias())
  }

  lemma FullMissAliases(c: Snapshot, c': Snapshot, address: nat, mem: seq<Byte>)
    requires c.Valid() && c.NoAlias() && !c.Room(address) && Access(c, c', address, mem, true)
    ensures !c'.NoAlias()
  {
    MissVictim(c.av, c.ls, address);
    assert c'.ls[0].address == address && c'.av[c.ls[0].address] == 0;
  }

  lemma StaleLineStays(c: Snapshot, c': Snapshot, address: nat, mem: seq<Byte>, key: int)
    requires c.Valid() && c.NoAlias() && c.Room(Base(address)) && Access(c, c', Base(address), mem, true)
    requires Stale(c, mem, key)
    ensures Stale(c', mem, key)
  {
    AccessView(c, c', Base(address), mem, true);
    assert c'.View() == Touch(c.View(), Base(address), mem);
    assert key in c.View();
  }

  /** No successful access makes an unfit cache fit. */
  lemma AccessKeepsUnfit(c: Snapshot, c': Snapshot, address: nat, mem: seq<Byte>, key: int)
    requires Unfit(c, mem, key) && Access(c, c', Base(address), mem, true)
    ensures Unfit(c', mem, key)
  {
    AccessKeepsValid(c, c', address, mem, true);
    assert key in c'.av;
    if !c.NoAlias() {
      AliasesStay(c, c', Base(address), mem);
    } else if c.Room(Base(address)) {
      StaleLineStays(c, c', address, mem, key);
    } else {
      FullMissAliases(c, c', Base(address), mem);
    }
  }

  lemma AliasesStay(c: Snapshot, c': Snapshot, address: nat, mem: seq<Byte>)
    requires c.Valid() && !c.NoAlias() && Access(c, c', address, mem, true)
    ensures !c'.NoAlias()
  {
    var key :| key in c.av && c.ls[c.av[key]].address != key;
    var other := c.ls[c.av[key]].address;
    assert c.av[other] == c.av[key];
    assert c'.av[other] == c'.av[key];
  }

  lemma UnfitIsNotSound(c: Snapshot, mem: seq<Byte>, key: int)
    requires Unfit(c, mem, key)
    ensures !Sound(c, mem)
  {
    assert key in c.View();
  }

  lemma JumpKeepsUnfit(line: seq<Byte>, k: Check, mem: seq<Byte>, bp: nat, r: Registers, key: int)
    requires |line| == LINE_SIZE && Unfit(k.code, mem, key) && CheckedJump(line, k, mem, bp, r) && k.valid.Some?
    ensures Unfit(k.after, mem, key)
  {
    if k.after != k.code {
      var pointer := Pointer(JumpMode(line[LineIndex(bp % LINE_SIZE, 0)]).value, WordIn(line, bp, 1), r.x);
      AccessKeepsUnfit(k.code, k.after, pointer, mem, key);
    }
  }

  lemma CheckKeepsUnfit(c: Snapshot, k: Check, mem: seq<Byte>, bp: nat, r: Registers, key: int)
    requires Unfit(c, mem, key) && Checked(c, k, mem, bp, r) && k.valid.Some?
    ensures Unfit(k.after, mem, key)
  {
    AccessKeepsUnfit(c, k.code, bp, mem, key);
    JumpKeepsUnfit(LineOf(k.code, bp), k, mem, bp, r, key);
  }

  /* Checks that can happen */

  /** A check that answers as wanted; without a jump it can only pass. */
  lemma SomeModeAnswers(mode: Option<Mode>, operand: nat, code: Snapshot, mem: seq<Byte>, bp: nat, x: nat, hit: bool)
    returns (k: Check, r: Registers)
    requires code.Valid() && Sized(code) && (hit || mode.Some?)
    requires mode.Some? && IsIndirect(mode.value) ==> Base(Pointer(mode.value, operand, x)) + LINE_SIZE <= |mem|
    ensures k.code == code && k.valid == Some(hit) && r.x == x && CheckedMode(mode, operand, k, mem, bp, r)
    ensures mode == None ==> r.pc == 1
  {
    var other := if hit then 0 else 1;
    k := Check(code, code, Some(hit));
    match mode
    case None => r := Registers(1, x);
    case Some(Absolute) => r := Registers(operand + other, x);
    case Some(RelativeWord) => r := Registers(bp + 2 + Signed16(operand) + other, x);
    case Some(m) =>
      var pointer := Pointer(m, operand, x);
      AccessedIsAccess(code, pointer, mem);
      var after := Accessed(code, Base(pointer), mem);
      r := Registers(WordIn(LineOf(after, pointer), pointer, 0) + other, x);
      k := Check(code, after, Some(hit));
  }

  /** Whatever the bytes at the breakpoint, some program counter passes the check. */
  lemma SomeCheckPasses(c: Snapshot, mem: seq<Byte>, bp: nat) returns (k: Check, r: Registers)
    requires c.Valid() && Sized(c) && bp < 0x1_0000 && |mem| >= 0x1_0000
    ensures Checked(c, k, mem, bp, r) && k.valid == Some(true)
  {
    AccessedIsAccess(c, bp, mem);
    var code := Accessed(c, Base(bp), mem);
    var line := LineOf(code, bp);
    k, r := SomeModeAnswers(JumpMode(line[LineIndex(bp % LINE_SIZE, 0)]), WordIn(line, bp, 1), code, mem, bp, 0, true);
  }

  /** A view with one line more. */
  lemma AccessedView(c: Snapshot, address: nat, mem: seq<Byte>)
    requires c.Valid() && c.NoAlias() && Sized(c) && c.Room(Base(address)) && Base(address) + LINE_SIZE <= |mem|
    ensures var c' := Accessed(c, Base(address), mem);
      && c'.Valid() && c'.NoAlias() && Sized(c') && HasLine(c', address) && Access(c, c', Base(address), mem, true)
      && c'.View() == Touch(c.View(), Base(address), mem) && |c'.ls| == |c.ls| && |c'.av| <= |c.av| + 1
  {
    AccessedIsAccess(c, address, mem);
    AccessView(c, Accessed(c, Base(address), mem), Base(address), mem, true);
  }

  /** The check can be decided where memory has the lines that it reads. */
  lemma CheckIsDecided(c: Snapshot, mem: seq<Byte>, bp: nat, r: Registers) returns (k: Check)
    requires Sound(c, mem) && Sized(c) && HasRoomFor(c, mem, bp, r.x) && Base(bp) + LINE_SIZE <= |mem|
    requires var mode := ModeAsRead(mem, bp);
      mode.Some? && IsIndirect(mode.value) ==> Base(Pointer(mode.value, OperandAsRead(mem, bp), r.x)) + LINE_SIZE <= |mem|
    ensures Checked(c, k, mem, bp, r) && k.valid == Some(ReachedAsRead(mem, bp, r))
  {
    AccessedIsAccess(c, bp, mem);
    var code := Accessed(c, Base(bp), mem);
    CodeIsFetched(c, code, mem, bp);
    k := ModeIsDecided(ModeAsRead(mem, bp), OperandAsRead(mem, bp), code, mem, bp, r);
    CheckAnswersForMemory(c, k, mem, bp, r);
  }

  lemma ModeIsDecided(mode: Option<Mode>, operand: nat, code: Snapshot, mem: seq<Byte>, bp: nat, r: Registers) returns (k: Check)
    requires code.Valid() && Sized(code)
    requires mode.Some? && IsIndirect(mode.value) ==> Base(Pointer(mode.value, operand, r.x)) + LINE_SIZE <= |mem|
    ensures k.code == code && k.valid.Some? && CheckedMode(mode, operand, k, mem, bp, r)
  {
    match mode
    case None => k := Check(code, code, Some(true));
    case Some(Absolute) => k := Check(code, code, Some(r.pc == operand));
    case Some(RelativeWord) => k := Check(code, code, Some(r.pc == bp + 2 + Signed16(operand)));
    case Some(m) =>
      var pointer := Pointer(m, operand, r.x);
      AccessedIsAccess(code, pointer, mem);
      var after := Accessed(code, Base(pointer), mem);
      k := Check(code, after, Some(r.pc == WordIn(LineOf(after, pointer), pointer, 0)));
  }

  /* What a check over mapped lines answers, whatever memory has become */

  /** The check may read the line at the key: the code, or the word at a pointer. */
  ghost predicate MayRead(bp: nat, x: nat, key: int) {
    key == Base(bp) || exists mode, operand: nat {:trigger Pointer(mode, operand, x)} ::
      operand < 0x1_0000 && IsIndirect(mode) && PointerInLine(Some(mode), operand, x) && Base(Pointer(mode, operand, x)) == key
  }

  ghost predicate Decided(c: Snapshot, k: Check, mem: seq<Byte>, bp: nat, r: Registers) {
    Checked(c, k, mem, bp, r) && k.valid.Some?
  }

  /** Memory has the indirect jump at bp. */
  predicate JumpsBy(mem: seq<Byte>, bp: nat, mode: Mode, operand: nat) {
    bp + 3 <= |mem| && JumpMode(mem[bp]) == Some(mode) && WordAt(mem, bp + 1) == operand
  }

  lemma FetchedLine(c: Snapshot, c': Snapshot, address: nat, mem: seq<Byte>)
    requires c.Valid() && Base(address) !in c.av && Access(c, c', Base(address), mem, true)
    ensures c'.Valid() && c'.av.Keys == c.av.Keys + {Base(address)} && Base(address) + LINE_SIZE <= |mem|
    ensures HasLine(c', address) && LineOf(c', address) == Line(mem, Base(address))
  {
    AccessView(c, c', Base(address), mem, true);
  }

  /** The line at the pointer, if the jump has one, is not mapped. */
  predicate PointerUnmapped(c: Snapshot, mode: Option<Mode>, operand: nat, x: nat) {
    mode.Some? && IsIndirect(mode.value) ==> Base(Pointer(mode.value, operand, x)) !in c.av
  }

  lemma UnmappedPointerAnswers(c: Snapshot, k: Check, mem: seq<Byte>, bp: nat, mode: Mode, operand: nat, r: Registers)
    requires k.code.Valid() && k.code.av.Keys == c.av.Keys + {Base(bp)} && PointerUnmapped(c, Some(mode), operand, r.x)
    requires HasLine(k.code, bp) && Base(bp) + LINE_SIZE <= |mem| && LineOf(k.code, bp) == Line(mem, Base(bp))
    requires IsIndirect(mode) && PointerInLine(Some(mode), operand, r.x)
    requires CheckedIndirect(Pointer(mode, operand, r.x), k, mem, r) && k.valid.Some?
    ensures k.valid.value == ReachedByMode(Some(mode), operand, mem, bp, r)
  {
    var pointer := Pointer(mode, operand, r.x);
    PointerLineIsFetched(c, k, mem, bp, pointer, r);
    WordInIsWordAt(mem, pointer, 0);
  }

  lemma PointerLineIsFetched(c: Snapshot, k: Check, mem: seq<Byte>, bp: nat, pointer: nat, r: Registers)
    requires k.code.Valid() && k.code.av.Keys == c.av.Keys + {Base(bp)} && Base(pointer) !in c.av
    requires HasLine(k.code, bp) && Base(bp) + LINE_SIZE <= |mem| && LineOf(k.code, bp) == Line(mem, Base(bp))
    requires CheckedIndirect(pointer, k, mem, r) && k.valid.Some?
    ensures Base(pointer) + LINE_SIZE <= |mem| && HasLine(k.after, pointer) && LineOf(k.after, pointer) == Line(mem, Base(pointer))
  {
    if Base(pointer) != Base(bp) {
      FetchedLine(k.code, k.after, pointer, mem);
    }
  }

  /** With none of its lines mapped, a check inside lines answers for memory. */
  lemma UnmappedCheckAnswers(c: Snapshot, k: Check, mem: seq<Byte>, bp: nat, r: Registers)
    requires c.Valid() && Decided(c, k, mem, bp, r) && InLines(mem, bp, r.x)
    requires Base(bp) !in c.av && PointerUnmapped(c, JumpMode(mem[bp]), WordAt(mem, bp + 1), r.x)
    ensures k.valid.value == ReachedByJump(mem, bp, r)
  {
    FetchedLine(c, k.code, bp, mem);
    CodeInLine(LineOf(k.code, bp), mem, bp);
    var mode, operand := JumpMode(mem[bp]), WordAt(mem, bp + 1);
    if mode.Some? && IsIndirect(mode.value) {
      UnmappedPointerAnswers(c, k, mem, bp, mode.value, operand, r);
    }
  }

  lemma UnreadLinesAreNoPointers(c: Snapshot, bp: nat, mode: Option<Mode>, operand: nat, x: nat)
    requires (forall key <- c.av :: !MayRead(bp, x, key)) && operand < 0x1_0000 && PointerInLine(mode, operand, x)
    ensures PointerUnmapped(c, mode, operand, x)
  {
    if mode.Some? && IsIndirect(mode.value) {
      assert MayRead(bp, x, Base(Pointer(mode.value, operand, x)));
    }
  }

  /** Memory with one instruction at bp, and one byte everywhere else. */
  function Code(size: nat, bp: nat, opcode: Byte, operand: nat, other: Byte): (mem: seq<Byte>)
    requires operand < 0x1_0000
    ensures |mem| == size
  {
    seq(size, i requires 0 <= i < size =>
      if i == bp then opcode else if i == bp + 1 then (operand % 256) as Byte else if i == bp + 2 then (operand / 256) as Byte else other)
  }

  lemma CodeReads(size: nat, bp: nat, opcode: Byte, operand: nat, other: Byte)
    requires operand < 0x1_0000 && bp + 3 <= size
    ensures var mem := Code(size, bp, opcode, operand, other);
      mem[bp] == opcode && WordAt(mem, bp + 1) == operand
  {
  }

  /** Mapped code hides what memory holds now. */
  lemma MappedCodeMisleads(c: Snapshot, bp: nat, x: nat, size: nat) returns (mem: seq<Byte>, k: Check, r: Registers)
    requires c.Valid() && Sized(c) && Base(bp) in c.av && bp + 3 <= size && 0x1_0100 + x <= size
    ensures |mem| == size && r.x == x && Decided(c, k, mem, bp, r) && PointsIntoLine(mem, bp, x)
    ensures k.valid.value != ReachedByJump(mem, bp, r)
  {
    AccessedIsAccess(c, bp, seq(size + bp + LINE_SIZE, _ => 0));
    var line := LineOf(c, bp);
    var mode, operand := JumpMode(line[LineIndex(bp % LINE_SIZE, 0)]), WordIn(line, bp, 1);
    var opcode: Byte := if mode == None then 0x20 else 0;
    mem := Code(size, bp, opcode, 0, 0);
    CodeReads(size, bp, opcode, 0, 0);
    k, r := SomeModeAnswers(mode, operand, c, mem, bp, x, mode == None);
  }

  function OpcodeOf(mode: Mode): Byte
    requires IsIndirect(mode)
  {
    if mode == AbsoluteIndirect then 0x22 else 0x23
  }

  /** A check put together from the fetched code and the answer of its mode. */
  lemma FetchedCheck(c: Snapshot, k: Check, mem: seq<Byte>, bp: nat, r: Registers)
    requires c.Valid() && Base(bp) !in c.av && Access(c, k.code, Base(bp), mem, true) && bp % LINE_SIZE + 3 <= LINE_SIZE
    requires bp + 3 <= |mem| && CheckedMode(JumpMode(mem[bp]), WordAt(mem, bp + 1), k, mem, bp, r)
    ensures Checked(c, k, mem, bp, r)
  {
    FetchedLine(c, k.code, bp, mem);
    CodeInLine(LineOf(k.code, bp), mem, bp);
  }

  lemma OtherBytesOtherWord(line: seq<Byte>, mem: seq<Byte>, address: nat)
    requires |line| == LINE_SIZE && address + 2 <= |mem| && mem[address] != line[address % LINE_SIZE]
    ensures WordIn(line, address, 0) != WordAt(mem, address)
  {
    assert LineIndex(address % LINE_SIZE, 0) == address % LINE_SIZE;
  }

  /** Another line than the code's holds the other byte. */
  lemma OutsideTheCode(size: nat, bp: nat, opcode: Byte, operand: nat, other: Byte, address: nat)
    requires operand < 0x1_0000 && bp % LINE_SIZE + 3 <= LINE_SIZE && Base(address) != Base(bp) && address < size
    ensures Code(size, bp, opcode, operand, other)[address] == other
  {
    assert address == Base(address) + address % LINE_SIZE;
  }

  /** A line that stays mapped during the fetch of the code. */
  lemma MappedLineStays(c: Snapshot, code: Snapshot, bp: nat, mem: seq<Byte>, address: nat)
    requires c.Valid() && c.NoAlias() && Sized(c) && c.Room(Base(bp)) && Base(bp) !in c.av && Base(address) in c.av
    requires Base(bp) + LINE_SIZE <= |mem| && code == Accessed(c, Base(bp), mem)
    ensures HasLine(c, address) && HasLine(code, address) && LineOf(code, address) == LineOf(c, address)
  {
    AccessedView(c, bp, mem);
    assert c.av[Base(address)] < |c.ls|;
    assert code.View() == Touch(c.View(), Base(bp), mem);
  }

  /** An indirect jump over a mapped line passes for the program counter that the
      line names. */
  lemma MappedPointerPasses(code: Snapshot, mem: seq<Byte>, bp: nat, mode: Mode, operand: nat, x: nat) returns (k: Check, r: Registers)
    requires IsIndirect(mode) && HasLine(code, Pointer(mode, operand, x))
    ensures k.code == code && k.valid == Some(true) && r.x == x && CheckedMode(Some(mode), operand, k, mem, bp, r)
    ensures r.pc == WordIn(LineOf(code, Pointer(mode, operand, x)), Pointer(mode, operand, x), 0)
  {
    var pointer := Pointer(mode, operand, x);
    k := Check(code, code, Some(true));
    r := Registers(WordIn(LineOf(code, pointer), pointer, 0), x);
    assert CheckedIndirect(pointer, k, mem, r);
  }

  /** So does a mapped line at the pointer of an indirect jump. */
  lemma MappedPointerMisleads(c: Snapshot, bp: nat, x: nat, mode: Mode, operand: nat, size: nat)
    returns (mem: seq<Byte>, k: Check, r: Registers)
    requires c.Valid() && c.NoAlias() && Sized(c) && c.Room(Base(bp)) && Base(bp) !in c.av
    requires bp % LINE_SIZE + 3 <= LINE_SIZE && bp + 3 <= size && Base(bp) + LINE_SIZE <= size
    requires operand < 0x1_0000 && IsIndirect(mode) && Base(Pointer(mode, operand, x)) in c.av
    ensures |mem| == size && r.x == x && Decided(c, k, mem, bp, r) && JumpsBy(mem, bp, mode, operand)
    ensures k.valid.value != ReachedByJump(mem, bp, r)
  {
    var pointer := Pointer(mode, operand, x);
    var line := Shown(c, Base(pointer));
    var other: Byte := if |line| == LINE_SIZE && line[pointer % LINE_SIZE] == 0 then 1 else 0;
    mem := Code(size, bp, OpcodeOf(mode), operand, other);
    CodeReads(size, bp, OpcodeOf(mode), operand, other);
    var code := Accessed(c, Base(bp), mem);
    AccessedView(c, bp, mem);
    MappedLineStays(c, code, bp, mem, pointer);
    k, r := MappedPointerPasses(code, mem, bp, mode, operand, x);
    assert JumpMode(OpcodeOf(mode)) == Some(mode);
    FetchedCheck(c, k, mem, bp, r);
    if pointer + 2 <= size {
      OutsideTheCode(size, bp, OpcodeOf(mode), operand, other, pointer);
      OtherBytesOtherWord(line, mem, pointer);
    }
  }

  /* Jumps that do not lie in one line */

  lemma OpcodeAsRead(mem: seq<Byte>, bp: nat)
    requires Base(bp) + LINE_SIZE <= |mem|
    ensures ModeAsRead(mem, bp) == JumpMode(mem[bp])
  {
    assert LineIndex(bp % LINE_SIZE, 0) == bp % LINE_SIZE;
  }

  /** From line offset 254 on, read takes the end of the jump from the start of the line. */
  lemma CrossingCodeIsMisread(size: nat, bp: nat)
    requires bp % LINE_SIZE + 3 > LINE_SIZE && bp + 3 <= size && Base(bp) + LINE_SIZE <= size
    ensures var mem := Code(size, bp, 0x20, 256, 0);
      JumpMode(mem[bp]) == Some(Absolute) && WordAt(mem, bp + 1) == 256 && OperandAsRead(mem, bp) == 0
  {
    var mem := Code(size, bp, 0x20, 256, 0);
    CodeReads(size, bp, 0x20, 256, 0);
    var line := Line(mem, Base(bp));
    assert line[0] == 0 && line[1] == 0;
    if bp % LINE_SIZE == LINE_SIZE - 1 {
      assert LineIndex(LINE_SIZE - 1, 1) == 0 && LineIndex(LINE_SIZE - 1, 2) == 1;
    } else {
      assert LineIndex(LINE_SIZE - 2, 1) == LINE_SIZE - 1 && LineIndex(LINE_SIZE - 2, 2) == 0;
      assert line[LINE_SIZE - 1] == 0;
    }
  }

  /** A check that rejects the target of an absolute jump because it misread it. */
  lemma MisreadCodeRejects(c: Snapshot, code: Snapshot, mem: seq<Byte>, bp: nat, x: nat) returns (r: Registers)
    requires Access(c, code, Base(bp), mem, true)
    requires HasLine(code, bp) && Base(bp) + LINE_SIZE <= |mem| && LineOf(code, bp) == Line(mem, Base(bp))
    requires bp + 3 <= |mem| && JumpMode(mem[bp]) == Some(Absolute) && OperandAsRead(mem, bp) != WordAt(mem, bp + 1)
    ensures r == Registers(WordAt(mem, bp + 1), x) && ReachedByJump(mem, bp, r)
    ensures Checked(c, Check(code, code, Some(false)), mem, bp, r)
  {
    OpcodeAsRead(mem, bp);
    r := Registers(WordAt(mem, bp + 1), x);
  }

  lemma CrossingCodeMisleads(c: Snapshot, bp: nat, x: nat, size: nat) returns (mem: seq<Byte>, k: Check, r: Registers)
    requires c.Valid() && Sized(c) && Base(bp) !in c.av
    requires bp % LINE_SIZE + 3 > LINE_SIZE && bp + 3 <= size && Base(bp) + LINE_SIZE <= size
    ensures |mem| == size && r.x == x && Decided(c, k, mem, bp, r) && PointsIntoLine(mem, bp, x)
    ensures k.valid.value != ReachedByJump(mem, bp, r)
  {
    mem := Code(size, bp, 0x20, 256, 0);
    CrossingCodeIsMisread(size, bp);
    AccessedIsAccess(c, bp, mem);
    var code := Accessed(c, Base(bp), mem);
    FetchedLine(c, code, bp, mem);
    r := MisreadCodeRejects(c, code, mem, bp, x);
    k := Check(code, code, Some(false));
  }

  /** Whatever memory the target leaves, a check answers for it, apart from pointers
      across two lines, exactly if the jump lies in one line and no line that the
      check may read is mapped. */
  lemma CheckAnswersForMemoryIff(c: Snapshot, bp: nat, x: nat, size: nat)
    requires c.Valid() && c.NoAlias() && Sized(c) && c.Room(Base(bp))
    requires bp + 3 <= size && Base(bp) + LINE_SIZE <= size && 0x1_0100 + x <= size
    ensures (forall mem, k, r: Registers | |mem| == size && r.x == x && Decided(c, k, mem, bp, r) && PointsIntoLine(mem, bp, x) ::
               k.valid.value == ReachedByJump(mem, bp, r))
      <==> bp % LINE_SIZE + 3 <= LINE_SIZE && forall key <- c.av :: !MayRead(bp, x, key)
  {
    if Base(bp) in c.av {
      assert MayRead(bp, x, Base(bp));
      var mem, k, r := MappedCodeMisleads(c, bp, x, size);
    } else if bp % LINE_SIZE + 3 > LINE_SIZE {
      var mem, k, r := CrossingCodeMisleads(c, bp, x, size);
    } else if key :| key in c.av && MayRead(bp, x, key) {
      var mode, operand: nat :| operand < 0x1_0000 && IsIndirect(mode) && PointerInLine(Some(mode), operand, x)
        && Base(Pointer(mode, operand, x)) == key;
      var mem, k, r := MappedPointerMisleads(c, bp, x, mode, operand, size);
    } else {
      forall mem, k, r: Registers | |mem| == size && r.x == x && Decided(c, k, mem, bp, r) && PointsIntoLine(mem, bp, x)
        ensures k.valid.value == ReachedByJump(mem, bp, r)
      {
        assert MayRead(bp, x, Base(bp));
        UnreadLinesAreNoPointers(c, bp, JumpMode(mem[bp]), WordAt(mem, bp + 1), x);
        UnmappedCheckAnswers(c, k, mem, bp, r);
      }
    }
  }

  /** Memory with an indirect jump at bp, whose pointer is the last byte of a line: the
      byte behind it and the first byte of its line differ. */
  lemma CrossingPointer(size: nat, bp: nat, mode: Mode, operand: nat, pointer: nat) returns (mem: seq<Byte>)
    requires bp % LINE_SIZE + 3 <= LINE_SIZE && bp + 3 <= size && operand < 0x1_0000 && IsIndirect(mode)
    requires pointer % LINE_SIZE == LINE_SIZE - 1 && pointer + 2 <= size
    ensures |mem| == size && JumpsBy(mem, bp, mode, operand)
    ensures WordIn(Line(mem, Base(pointer)), pointer, 0) != WordAt(mem, pointer)
  {
    var first, behind := Base(pointer), pointer + 1;
    CodeReads(size, bp, OpcodeOf(mode), operand, 0);
    mem := Code(size, bp, OpcodeOf(mode), operand, 0);
    var (here, there) := if Base(first) == Base(bp) then (behind, first) else (first, behind);
    mem := mem[here := if mem[there] == 0 then 1 else 0];
    assert mem[first] != mem[behind];
    OtherEndOtherWord(mem, pointer);
  }

  lemma OtherEndOtherWord(mem: seq<Byte>, pointer: nat)
    requires pointer % LINE_SIZE == LINE_SIZE - 1 && pointer + 2 <= |mem| && mem[Base(pointer)] != mem[pointer + 1]
    ensures WordIn(Line(mem, Base(pointer)), pointer, 0) != WordAt(mem, pointer)
  {
    assert LineIndex(LINE_SIZE - 1, 0) == LINE_SIZE - 1 && LineIndex(LINE_SIZE - 1, 1) == 0;
    assert Line(mem, Base(pointer))[LINE_SIZE - 1] == mem[pointer];
  }

  lemma PointerIsFetched(c: Snapshot, code: Snapshot, bp: nat, pointer: nat, mem: seq<Byte>) returns (after: Snapshot)
    requires c.Valid() && Sized(c) && Base(bp) !in c.av && Base(pointer) !in c.av
    requires Base(bp) + LINE_SIZE <= |mem| && Base(pointer) + LINE_SIZE <= |mem| && code == Accessed(c, Base(bp), mem)
    ensures Access(c, code, Base(bp), mem, true) && Access(code, after, Base(pointer), mem, true)
    ensures HasLine(after, pointer) && LineOf(after, pointer) == Line(mem, Base(pointer))
  {
    AccessedIsAccess(c, bp, mem);
    FetchedLine(c, code, bp, mem);
    AccessedIsAccess(code, pointer, mem);
    after := Accessed(code, Base(pointer), mem);
    if Base(pointer) != Base(bp) {
      FetchedLine(code, after, pointer, mem);
    }
  }

  /** A pointer at the end of a line is misread. */
  lemma CrossingPointerMisleads(c: Snapshot, bp: nat, x: nat, mode: Mode, operand: nat, size: nat)
    returns (mem: seq<Byte>, k: Check, r: Registers)
    requires c.Valid() && Sized(c) && Base(bp) !in c.av && Base(Pointer(mode, operand, x)) !in c.av
    requires bp % LINE_SIZE + 3 <= LINE_SIZE && Base(bp) + LINE_SIZE <= size && 0x1_0100 + x <= size
    requires operand < 0x1_0000 && IsIndirect(mode) && !PointerInLine(Some(mode), operand, x)
    ensures |mem| == size && r.x == x && Decided(c, k, mem, bp, r) && JumpsBy(mem, bp, mode, operand)
    ensures k.valid.value != ReachedByJump(mem, bp, r)
  {
    var pointer: nat := Pointer(mode, operand, x);
    mem := CrossingPointer(size, bp, mode, operand, pointer);
    var code := Accessed(c, Base(bp), mem);
    var after := PointerIsFetched(c, code, bp, pointer, mem);
    k := Check(code, after, Some(true));
    r := Registers(WordIn(LineOf(after, pointer), pointer, 0), x);
    assert CheckedIndirect(pointer, k, mem, r);
    FetchedCheck(c, k, mem, bp, r);
  }

  /** Given an indirect jump in one line that is not mapped, the check answers for every
      memory with that jump exactly if its pointer lies in one line that is not mapped. */
  lemma IndirectAnswersForMemoryIff(c: Snapshot, bp: nat, x: nat, mode: Mode, operand: nat, size: nat)
    requires c.Valid() && c.NoAlias() && Sized(c) && c.Room(Base(bp)) && Base(bp) !in c.av
    requires bp % LINE_SIZE + 3 <= LINE_SIZE && Base(bp) + LINE_SIZE <= size && 0x1_0100 + x <= size
    requires operand < 0x1_0000 && IsIndirect(mode)
    ensures (forall mem, k, r: Registers | |mem| == size && r.x == x && Decided(c, k, mem, bp, r) && JumpsBy(mem, bp, mode, operand) ::
               k.valid.value == ReachedByJump(mem, bp, r))
      <==> PointerUnmapped(c, Some(mode), operand, x) && PointerInLine(Some(mode), operand, x)
  {
    if !PointerUnmapped(c, Some(mode), operand, x) {
      var mem, k, r := MappedPointerMisleads(c, bp, x, mode, operand, size);
    } else if !PointerInLine(Some(mode), operand, x) {
      var mem, k, r := CrossingPointerMisleads(c, bp, x, mode, operand, size);
    } else {
      forall mem, k, r: Registers | |mem| == size && r.x == x && Decided(c, k, mem, bp, r) && JumpsBy(mem, bp, mode, operand)
        ensures k.valid.value == ReachedByJump(mem, bp, r)
      {
        UnmappedCheckAnswers(c, k, mem, bp, r);
      }
    }
  }
}
