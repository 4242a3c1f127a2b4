/**
 The serial monitor of the target as src/test/mock_mega65.cpp specifies it: the
 load command, whose payload arrives in arbitrary chunks, and the m and M
 commands, which print memory.
 */
module Monitor {
  import opened Common
  import opened Text

  type Byte = x: int | 0 <= x < 256

  const MEMORY_SIZE := 384 * 1024
  const BYTES_PER_LINE := 16

  const EOL := "\r\n"

  function Prompt(isXemu: bool): string {
    if isXemu then "." + EOL else EOL + "."
  }

  /* Loading */

  /** What a load in progress has done and still expects. */
  datatype Load = Load(mem: seq<Byte>, addr: nat, remaining: nat, output: string)

  predicate LoadFits(l: Load) {
    l.addr + l.remaining <= |l.mem|
  }

  function Overwrite(mem: seq<Byte>, addr: nat, bytes: seq<Byte>): seq<Byte>
    requires addr + |bytes| <= |mem|
  {
    mem[..addr] + bytes + mem[addr + |bytes|..]
  }

  /** One chunk: the load after it, and the bytes left for the command parser. */
  function Receive(l: Load, chunk: seq<Byte>, isXemu: bool): (r: (Load, seq<Byte>))
    requires LoadFits(l)
    ensures LoadFits(r.0)
  {
    if l.remaining == 0 then (l, chunk)
    else if l.remaining > |chunk| then
      (Load(Overwrite(l.mem, l.addr, chunk), l.addr + |chunk|, l.remaining - |chunk|, l.output), [])
    else
      (Load(Overwrite(l.mem, l.addr, chunk[..l.remaining]), l.addr, 0, l.output + Prompt(isXemu)), chunk[l.remaining..])
  }

  function ReceiveAll(l: Load, chunks: seq<seq<Byte>>, isXemu: bool): (r: (Load, seq<Byte>))
    requires LoadFits(l)
    ensures LoadFits(r.0)
    decreases chunks
  {
    if |chunks| == 0 then (l, [])
    else
      var (l1, left) := Receive(l, chunks[0], isXemu);
      var (l2, later) := ReceiveAll(l1, chunks[1..], isXemu);
      (l2, left + later)
  }

  function Concat(chunks: seq<seq<Byte>>): seq<Byte> {
    if |chunks| == 0 then [] else chunks[0] + Concat(chunks[1..])
  }

  /** The parts of a load that can be observed once it is over. */
  predicate SameLoad(a: (Load, seq<Byte>), b: (Load, seq<Byte>)) {
    && a.0.mem == b.0.mem && a.0.remaining == b.0.remaining && a.0.output == b.0.output && a.1 == b.1
    && (a.0.remaining > 0 ==> a.0.addr == b.0.addr)
  }

  lemma TwoChunks(l: Load, a: seq<Byte>, b: seq<Byte>, isXemu: bool)
    requires LoadFits(l)
    ensures var (l1, left) := Receive(l, a, isXemu);
      var (l2, later) := Receive(l1, b, isXemu);
      SameLoad((l2, left + later), Receive(l, a + b, isXemu))
  {
    if l.remaining > |a| {
      if l.remaining > |a + b| {
        OverwriteTwice(l.mem, l.addr, a, b);
      } else {
        var k := l.remaining - |a|;
        assert (a + b)[..l.remaining] == a + b[..k] && (a + b)[l.remaining..] == b[k..];
        OverwriteTwice(l.mem, l.addr, a, b[..k]);
      }
    } else if l.remaining > 0 {
      assert (a + b)[..l.remaining] == a[..l.remaining];
      assert (a + b)[l.remaining..] == a[l.remaining..] + b;
    }
  }

  lemma OverwriteTwice(mem: seq<Byte>, addr: nat, a: seq<Byte>, b: seq<Byte>)
    requires addr + |a| + |b| <= |mem|
    ensures Overwrite(Overwrite(mem, addr, a), addr + |a|, b) == Overwrite(mem, addr, a + b)
  {
  }

  /** However the bytes are cut into chunks, the load ends as if they had
      arrived in one piece. */
  lemma {:induction false} ChunkIndependent(l: Load, chunks: seq<seq<Byte>>, isXemu: bool)
    requires LoadFits(l)
    ensures SameLoad(ReceiveAll(l, chunks, isXemu), Receive(l, Concat(chunks), isXemu))
    decreases chunks
  {
    if |chunks| > 0 {
      var rest := Concat(chunks[1..]);
      var (l1, left) := Receive(l, chunks[0], isXemu);
      ChunkIndependent(l1, chunks[1..], isXemu);
      TwoChunks(l, chunks[0], rest, isXemu);
    }
  }

  /** A whole payload and what follows it: memory holds the payload at the load
      address and is otherwise unchanged, one prompt is printed, and exactly the
      bytes behind the payload are left for the command parser. */
  lemma LoadDelivers(l: Load, chunks: seq<seq<Byte>>, payload: seq<Byte>, trailing: seq<Byte>, isXemu: bool)
    requires LoadFits(l) && 0 < l.remaining == |payload| && Concat(chunks) == payload + trailing
    ensures var (end, left) := ReceiveAll(l, chunks, isXemu);
      && left == trailing && end.remaining == 0 && end.output == l.output + Prompt(isXemu)
      && |end.mem| == |l.mem|
      && (forall i | 0 <= i < |l.mem| :: end.mem[i] ==
            if l.addr <= i < l.addr + |payload| then payload[i - l.addr] else l.mem[i])
  {
    ChunkIndependent(l, chunks, isXemu);
    assert (payload + trailing)[..|payload|] == payload && (payload + trailing)[|payload|..] == trailing;
  }

  /* Printing memory */

  function HexByte(b: Byte): string {
    Pad(Render(b, 16), 2)
  }

  function HexBytes(bytes: seq<Byte>): string {
    if |bytes| == 0 then "" else HexByte(bytes[0]) + HexBytes(bytes[1..])
  }

  /** A memory line: the address with at least eight digits, then the bytes. */
  function MemoryLine(addr: nat, bytes: seq<Byte>): string {
    ":" + Pad(Render(addr, 16), 8) + ":" + HexBytes(bytes)
  }

  function MemoryLines(mem: seq<Byte>, addr: nat, n: nat): (lines: seq<string>)
    requires addr + n * BYTES_PER_LINE <= |mem|
    ensures |lines| == n
    ensures forall i | 0 <= i < n ::
      lines[i] == MemoryLine(addr + i * BYTES_PER_LINE, mem[addr + i * BYTES_PER_LINE..][..BYTES_PER_LINE])
  {
    seq(n, i requires 0 <= i < n =>
      MemoryLine(addr + i * BYTES_PER_LINE, mem[addr + i * BYTES_PER_LINE..][..BYTES_PER_LINE]))
  }

  /** Lines as they are sent: Xemu ends memory lines by a line feed alone. */
  function Terminated(lines: seq<string>, isXemu: bool): string {
    if |lines| == 0 then ""
    else Terminated(lines[..|lines| - 1], isXemu) + lines[|lines| - 1] + (if isXemu then "\n" else EOL)
  }

  /** What the prompt puts on lines of its own ahead of its dot: where it starts with an
      end of line, an empty one. */
  function LastLines(isXemu: bool): seq<string> {
    if isXemu then [] else [""]
  }

  /** Ahead of the dot of the prompt, after which nothing but an end of line may come,
      the text of a reply has these lines exactly. */
  lemma PromptEndsReply(lines: seq<string>, isXemu: bool)
    ensures Terminated(lines, isXemu) + Prompt(isXemu)
      == Terminated(lines + LastLines(isXemu), isXemu) + "." + (if isXemu then EOL else "")
  {
    var text := Terminated(lines, isXemu);
    if isXemu {
      assert lines + [] == lines;
      assert text + ("." + EOL) == text + "." + EOL;
    } else {
      var all := lines + [""];
      assert all[..|all| - 1] == lines && all[|all| - 1] == "";
      assert text + "" + EOL + "." + "" == text + (EOL + ".");
    }
  }

  datatype Failure = Timeout | OutOfRange | InvalidNumber | UnexpectedReply

  /** The m and M commands. A request that ends at the last byte of memory is
      refused as well. */
  function MemoryReply(mem: seq<Byte>, command: char, digits: string): Result<seq<string>, Failure> {
    match StrToInt(digits, 16)
    case None => Err(InvalidNumber)
    case Some(addr) =>
      var n := if command == 'm' then 1 else 16;
      if addr + n * BYTES_PER_LINE >= |mem| then Err(OutOfRange)
      else Ok(MemoryLines(mem, addr, n))
  }

  /** Memory commands so far: how many were answered, and how many were not in time. */
  datatype Traffic = Traffic(commands: nat, timeouts: nat)

  class MockMega65 {
    const isXemu: bool
    const memory: array<Byte>
    var outputBuffer: string
    var loadAddr: int
    var loadRemainingBytes: int
    var memoryCommands: nat  // m and M commands answered so far
    var timeouts: nat        // commands that got no answer in time

    constructor (isXemu: bool)
      ensures Valid() && fresh(memory) && this.isXemu == isXemu
    {
      this.isXemu := isXemu;
      memory := new Byte[MEMORY_SIZE](_ => 0);
      outputBuffer, loadAddr, loadRemainingBytes, memoryCommands, timeouts := "", 0, 0, 0, 0;
    }

    ghost predicate Valid()
      reads this
    {
      && memory.Length == MEMORY_SIZE
      && 0 <= loadAddr && 0 <= loadRemainingBytes && loadAddr + loadRemainingBytes < 0x2_0000
    }

    ghost function Sent(): Traffic
      reads this
    {
      Traffic(memoryCommands, timeouts)
    }

    ghost function LoadState(): Load
      requires Valid()
      reads this, memory
    {
      Load(memory[..], loadAddr, loadRemainingBytes, outputBuffer)
    }

    /** The load command, from the two numbers its four-digit arguments denote. */
    method StartLoad(line: string, addrBegin: int, addrEnd: int)
      requires Valid() && 0 <= addrBegin < 0x1_0000 && 0 <= addrEnd < 0x1_0000
      modifies this
      ensures Valid() && memory[..] == old(memory[..])
      ensures loadAddr == addrBegin && loadRemainingBytes == (addrEnd - addrBegin) % 0x1_0000
      ensures outputBuffer == old(outputBuffer) + line + EOL + (if addrEnd == addrBegin then Prompt(isXemu) else "")
    {
      loadAddr := addrBegin;
      loadRemainingBytes := addrEnd - loadAddr;
      if loadRemainingBytes < 0 {
        loadRemainingBytes := loadRemainingBytes + 0x1_0000;
      }
      outputBuffer := outputBuffer + line + EOL;
      if loadRemainingBytes == 0 {
        AppendPrompt();
      }
    }

    /** A write up to the point where the command parser sees what is left of it. */
    method Write(buffer: seq<Byte>) returns (left: seq<Byte>)
      requires Valid()
      modifies this, memory
      ensures Valid() && (LoadState(), left) == Receive(old(LoadState()), buffer, isXemu)
    {
      left := buffer;
      if loadRemainingBytes > 0 {
        left := ProcessLoadBytes(buffer);
      }
    }

    method ProcessLoadBytes(buffer: seq<Byte>) returns (left: seq<Byte>)
      requires Valid()
      modifies this, memory
      ensures Valid() && (LoadState(), left) == Receive(old(LoadState()), buffer, isXemu)
    {
      if loadRemainingBytes <= 0 {
        return buffer;
      }
      if loadRemainingBytes > |buffer| {
        CopyToMemory(buffer);
        loadRemainingBytes := loadRemainingBytes - |buffer|;
        loadAddr := loadAddr + |buffer|;
        return [];
      }
      CopyToMemory(buffer[..loadRemainingBytes]);
      left := buffer[loadRemainingBytes..];
      loadRemainingBytes := 0;
      AppendPrompt();
    }

    /** std::copy into memory at the load address. */
    method CopyToMemory(bytes: seq<Byte>)
      requires Valid() && loadAddr + |bytes| <= memory.Length
      modifies memory
      ensures memory[..] == Overwrite(old(memory[..]), loadAddr, bytes)
    {
      for i := 0 to |bytes|
        invariant memory[..] == Overwrite(old(memory[..]), loadAddr, bytes[..i])
      {
        memory[loadAddr + i] := bytes[i];
        assert bytes[..i + 1] == bytes[..i] + [bytes[i]];
      }
      assert bytes[..|bytes|] == bytes;
    }

    method AppendPrompt()
      modifies this`outputBuffer
      ensures outputBuffer == old(outputBuffer) + Prompt(isXemu)
    {
      if isXemu {
        outputBuffer := outputBuffer + ("." + EOL);
      } else {
        outputBuffer := outputBuffer + (EOL + ".");
      }
    }

    /** A memory command sent and answered: its reply lines, which are those ahead of
        the prompt's dot. The link may time out at any command. */
    method ExecuteMemoryCommand(command: char, digits: string) returns (r: Result<seq<string>, Failure>)
      requires command == 'm' || command == 'M'
      modifies this`memoryCommands, this`timeouts
      ensures timeouts == old(timeouts) ==> r == match MemoryReply(memory[..], command, digits)
                                                 case Ok(lines) => Ok(lines + LastLines(isXemu))
                                                 case Err(e) => Err(e)
      ensures timeouts != old(timeouts) ==> timeouts == old(timeouts) + 1 && r == Err(Timeout)
      ensures memoryCommands == old(memoryCommands) + if r.Ok? then 1 else 0
    {
      var inTime: bool := *;
      if !inTime {
        timeouts := timeouts + 1;
        return Err(Timeout);
      }
      r := MemoryReply(memory[..], command, digits);
      if r.Ok? {
        memoryCommands := memoryCommands + 1;
        r := Ok(r.value + LastLines(isXemu));
      }
    }
  }
}
