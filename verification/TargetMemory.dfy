/**
 Reading target memory through the monitor: get_memory_bytes and
 parse_address_line of src/m65_debugger.cpp.
 */
module TargetMemory {
  import opened Common
  import opened Text
  import opened Monitor

  /** Where the run of upper-case hexadecimal digits that starts at i ends. */
  function HexRunEnd(s: string, i: nat): (j: nat)
    ensures i <= |s| ==> i <= j <= |s|
    decreases |s| - i
  {
    if i < |s| && IsDigit(s[i], 16) then HexRunEnd(s, i + 1) else i
  }

  /** The two groups of ^:([0-9A-F]{1,8}):([0-9A-F]{32})$ */
  function MatchMemoryLine(line: string): Option<(string, string)> {
    if |line| == 0 || line[0] != ':' then None
    else
      var k := HexRunEnd(line, 1);
      if !(1 <= k - 1 <= 8) || k >= |line| || line[k] != ':' then None
      else if |line| != k + 1 + 2 * BYTES_PER_LINE || HexRunEnd(line, k + 1) != |line| then None
      else Some((line[1..k], line[k + 1..]))
  }

  /** Bytes i, i + 1, ... of the pairs of digits in a line. */
  function ByteAt(digits: string, i: nat): int
    requires 2 * i + 2 <= |digits|
  {
    Value(digits[2 * i..2 * i + 2], 16)
  }

  lemma {:induction false} HexRunStops(s: string, i: nat, j: nat)
    requires i <= j <= |s| && AllDigits(s[i..j], 16) && (j < |s| ==> !IsDigit(s[j], 16))
    ensures HexRunEnd(s, i) == j
    decreases j - i
  {
    if i < j {
      assert s[i] == s[i..j][0] && s[i + 1..j] == s[i..j][1..];
      HexRunStops(s, i + 1, j);
    }
  }

  lemma {:induction false} HexRunIs(s: string, i: nat)
    requires i <= |s|
    ensures AllDigits(s[i..HexRunEnd(s, i)], 16)
    decreases |s| - i
  {
    var j := HexRunEnd(s, i);
    if i < j {
      HexRunIs(s, i + 1);
      assert s[i..j] == [s[i]] + s[i + 1..j];
    }
  }

  lemma ColonIsNoDigit()
    ensures !IsDigit(':', 16)
  {
  }

  /** The pattern, as a grammar: a colon, one to eight upper-case hexadecimal digits, a
      colon and thirty-two such digits, and nothing else. */
  lemma MatchesIff(line: string, a: string, digits: string)
    ensures MatchMemoryLine(line) == Some((a, digits)) <==>
      && line == ":" + a + ":" + digits && 1 <= |a| <= 8 && |digits| == 32 && AllDigits(a, 16) && AllDigits(digits, 16)
  {
    ColonIsNoDigit();
    if MatchMemoryLine(line) == Some((a, digits)) {
      var k := HexRunEnd(line, 1);
      HexRunIs(line, 1);
      HexRunIs(line, k + 1);
      assert line[k + 1..|line|] == line[k + 1..];
      assert line == [line[0]] + line[1..k] + [line[k]] + line[k + 1..];
    }
    if line == ":" + a + ":" + digits && 1 <= |a| <= 8 && |digits| == 32 && AllDigits(a, 16) && AllDigits(digits, 16) {
      var k := |a| + 1;
      assert line[1..k] == a && line[k] == ':' && line[k + 1..] == digits && line[k + 1..|line|] == digits;
      HexRunStops(line, 1, k);
      HexRunStops(line, k + 1, |line|);
    }
  }

  lemma HexByteShape(b: Byte)
    ensures |HexByte(b)| == 2 && AllDigits(HexByte(b), 16) && Value(HexByte(b), 16) == b
  {
    PadRoundTrip(b, 2);
    assert Pow16(2) == 256;
    RenderWidth(b, 2);
  }

  lemma {:induction false} HexBytesShape(bytes: seq<Byte>)
    ensures |HexBytes(bytes)| == 2 * |bytes| && AllDigits(HexBytes(bytes), 16)
    ensures forall i | 0 <= i < |bytes| :: ByteAt(HexBytes(bytes), i) == bytes[i]
  {
    if |bytes| > 0 {
      HexByteShape(bytes[0]);
      HexBytesShape(bytes[1..]);
      var s, t := HexBytes(bytes), HexBytes(bytes[1..]);
      forall i | 0 <= i < |bytes| ensures ByteAt(s, i) == bytes[i] {
        if i == 0 {
          assert s[0..2] == HexByte(bytes[0]);
        } else {
          assert s[2 * i..2 * i + 2] == t[2 * (i - 1)..2 * (i - 1) + 2];
          assert ByteAt(t, i - 1) == bytes[1..][i - 1];
        }
      }
    }
  }

  /** A printed memory line parses back to its address and its bytes. */
  lemma MemoryLineRoundTrip(addr: nat, bytes: seq<Byte>)
    requires addr <= INT_MAX && |bytes| == BYTES_PER_LINE
    ensures var m := MatchMemoryLine(MemoryLine(addr, bytes));
      && m.Some? && StrToInt(m.value.0, 16) == Some(addr)
      && |m.value.1| == 2 * BYTES_PER_LINE
      && forall i | 0 <= i < BYTES_PER_LINE :: ByteAt(m.value.1, i) == bytes[i]
  {
    var a := Pad(Render(addr, 16), 8);
    var line := MemoryLine(addr, bytes);
    PadRoundTrip(addr, 8);
    assert Pow16(8) == 0x1_0000_0000 by { assert Pow16(4) == 0x1_0000; assert Pow16(6) == 0x100_0000; }
    RenderWidth(addr, 8);
    HexBytesShape(bytes);
    assert line[1..9] == a && line[9] == ':' && line[10..] == HexBytes(bytes);
    HexRunStops(line, 1, 9);
    assert line[10..|line|] == line[10..];
    HexRunStops(line, 10, |line|);
  }

  /** d holds n bytes of mem, from addr on, at index at. */
  ghost predicate Copied(d: seq<Byte>, at: nat, mem: seq<Byte>, addr: nat, n: nat) {
    at + n <= |d| && addr + n <= |mem| && forall i {:trigger d[i]} | at <= i < at + n :: d[i] == mem[addr + (i - at)]
  }

  /** d differs from d0 in [lo, hi) at most. */
  ghost predicate OnlyWithin(d0: seq<Byte>, d: seq<Byte>, lo: nat, hi: nat) {
    |d| == |d0| && forall i {:trigger d[i]} | 0 <= i < |d| && !(lo <= i < hi) :: d[i] == d0[i]
  }

  lemma CopyMore(d0: seq<Byte>, d: seq<Byte>, at: nat, mem: seq<Byte>, addr: nat, n: nat, more: nat, hi: nat)
    requires Copied(d0, at, mem, addr, n) && OnlyWithin(d0, d, at + n, hi)
    requires Copied(d, at + n, mem, addr + n, more)
    ensures Copied(d, at, mem, addr, n + more)
  {
  }

  /** How a request for memory ends: while every command is answered, well exactly if
      it fits; after one that is not, badly. */
  predicate Explained(ok: bool, fits: bool, timeouts0: nat, timeouts: nat) {
    if timeouts == timeouts0 then ok <==> fits else timeouts == timeouts0 + 1 && !ok
  }

  /** The number of commands that fetch the given number of bytes. */
  function CommandsFor(count: nat): nat {
    (count + 255) / 256
  }

  /** Whether the monitor answers all of them: the last one must end below the
      last byte of memory. */
  predicate Served(addr: nat, count: nat, size: nat) {
    count > 0 ==>
      var last := (count - 1) / 256 * 256;
      addr + last + ReplySize(count - last) < size
  }

  lemma ServedStep(addr: nat, count: nat, pos: nat, size: nat)
    requires pos < count && pos % 256 == 0
    ensures var ok := addr + pos + ReplySize(count - pos) < size;
      (Served(addr, count, size) ==> ok) && (count <= pos + 256 && ok ==> Served(addr, count, size))
  {
    var last := (count - 1) / 256 * 256;
    assert last % 256 == 0;
    assert pos <= last by {
      assert pos / 256 * 256 == pos;
      assert pos / 256 <= (count - 1) / 256;
    }
    if pos < last {
      assert pos + 256 <= last by { assert (last - pos) % 256 == 0; }
    }
  }

  /** Writes the bytes of a reply line to dest[at..at + n], and returns the address. */
  method ParseAddressLine(line: string, dest: array<Byte>, at: nat, n: nat) returns (r: Result<int, Failure>)
    requires n <= BYTES_PER_LINE && at + n <= dest.Length
    modifies dest
    ensures OnlyWithin(old(dest[..]), dest[..], at, at + n)
    ensures r.Err? ==> dest[..] == old(dest[..])
    ensures var m := MatchMemoryLine(line);
      r.Ok? <==> m.Some? && StrToInt(m.value.0, 16).Some?
    ensures r.Ok? ==> var (a, digits) := MatchMemoryLine(line).value;
      && Some(r.value) == StrToInt(a, 16) && |digits| == 2 * BYTES_PER_LINE
      && forall i | at <= i < at + n :: dest[i] == ByteAt(digits, i - at)
  {
    var m := MatchMemoryLine(line);
    if m.None? {
      return Err(UnexpectedReply);
    }
    var (a, digits) := m.value;
    var retAddr := StrToInt(a, 16);
    if retAddr.None? {
      return Err(InvalidNumber);
    }
    for i := 0 to n
      invariant OnlyWithin(old(dest[..]), dest[..], at, at + i)
      invariant forall k | at <= k < at + i :: dest[k] == ByteAt(digits, k - at)
    {
      TwoDigitsFitAByte(digits[2 * i..2 * i + 2]);
      dest[at + i] := Value(digits[2 * i..2 * i + 2], 16);
    }
    return Ok(retAddr.value);
  }

  lemma TwoDigitsFitAByte(s: string)
    requires |s| == 2
    ensures 0 <= Value(s, 16) < 256
  {
    assert s[..1][..0] == "" && Value("", 16) == 0;
    assert Value(s[..1], 16) == DigitValue(s[0]);
  }

  /** A reply line for the expected address. */
  predicate LineFits(line: string, address: int) {
    var m := MatchMemoryLine(line);
    m.Some? && StrToInt(m.value.0, 16) == Some(address)
  }

  /** The bytes of a line that matches. */
  function LineBytes(line: string): (bytes: seq<Byte>)
    requires MatchMemoryLine(line).Some?
    ensures |bytes| == BYTES_PER_LINE
  {
    var digits := MatchMemoryLine(line).value.1;
    seq(BYTES_PER_LINE, i requires 0 <= i < BYTES_PER_LINE => DigitsByte(digits[2 * i..2 * i + 2]))
  }

  function DigitsByte(s: string): Byte
    requires |s| == 2
  {
    TwoDigitsFitAByte(s);
    Value(s, 16)
  }

  /** What the lines of a reply deliver when some bytes are missing, from the address on;
      nothing if a line that is wanted is refused. Empty lines do not count. */
  function Delivered(lines: seq<string>, missing: nat, address: nat): (bytes: Option<seq<Byte>>)
    ensures bytes.Some? ==> |bytes.value| <= missing
  {
    if lines == [] then Some([])
    else if lines[0] == "" then Delivered(lines[1..], missing, address)
    else if missing == 0 then Some([])
    else if !LineFits(lines[0], address) then None
    else
      var n := Min(missing, BYTES_PER_LINE);
      Behind(LineBytes(lines[0])[..n], Delivered(lines[1..], missing - n, address + BYTES_PER_LINE))
  }

  function Behind(first: seq<Byte>, rest: Option<seq<Byte>>): Option<seq<Byte>> {
    if rest.Some? then Some(first + rest.value) else None
  }

  lemma BehindBehind(a: seq<Byte>, b: seq<Byte>, rest: Option<seq<Byte>>)
    ensures Behind(a, Behind(b, rest)) == Behind(a + b, rest)
  {
    if rest.Some? {
      assert a + (b + rest.value) == a + b + rest.value;
    }
  }

  lemma PrintedLine(mem: seq<Byte>, address: nat)
    requires address + BYTES_PER_LINE <= |mem| <= INT_MAX
    ensures var line := MemoryLine(address, mem[address..][..BYTES_PER_LINE]);
      line != "" && LineFits(line, address) && LineBytes(line) == mem[address..][..BYTES_PER_LINE]
  {
    var bytes := mem[address..][..BYTES_PER_LINE];
    MemoryLineRoundTrip(address, bytes);
    var line := MemoryLine(address, bytes);
    var digits := MatchMemoryLine(line).value.1;
    assert forall i | 0 <= i < BYTES_PER_LINE :: LineBytes(line)[i] == ByteAt(digits, i);
  }

  /** The first line, and the others. */
  lemma DeliveredNext(lines: seq<string>, k: nat, missing: nat, address: nat)
    requires k < |lines|
    ensures lines[k] == "" ==> Delivered(lines[k..], missing, address) == Delivered(lines[k + 1..], missing, address)
    ensures lines[k] != "" && missing == 0 ==> Delivered(lines[k..], missing, address) == Some([])
    ensures lines[k] != "" && missing > 0 && !LineFits(lines[k], address) ==> Delivered(lines[k..], missing, address) == None
    ensures lines[k] != "" && missing > 0 && LineFits(lines[k], address) ==>
      var n := Min(missing, BYTES_PER_LINE);
      Delivered(lines[k..], missing, address)
        == Behind(LineBytes(lines[k])[..n], Delivered(lines[k + 1..], missing - n, address + BYTES_PER_LINE))
  {
    assert lines[k..][0] == lines[k] && lines[k..][1..] == lines[k + 1..];
  }

  /** The line is one for the address, with the bytes of memory there. */
  predicate Shows(line: string, mem: seq<Byte>, address: nat) {
    && line != "" && LineFits(line, address) && address + BYTES_PER_LINE <= |mem|
    && LineBytes(line) == mem[address..][..BYTES_PER_LINE]
  }

  /** n lines show memory from the address on; an empty one may follow. */
  predicate AllShow(lines: seq<string>, mem: seq<Byte>, address: nat, n: nat)
    decreases n
  {
    if n == 0 then lines == [] || lines == [""]
    else lines != [] && Shows(lines[0], mem, address) && AllShow(lines[1..], mem, address + BYTES_PER_LINE, n - 1)
  }

  lemma MemoryLinesGoOn(mem: seq<Byte>, address: nat, n: nat)
    requires n > 0 && address + n * BYTES_PER_LINE <= |mem| <= INT_MAX
    ensures Shows(MemoryLines(mem, address, n)[0], mem, address)
    ensures MemoryLines(mem, address, n)[1..] == MemoryLines(mem, address + BYTES_PER_LINE, n - 1)
  {
    PrintedLine(mem, address);
  }

  lemma {:induction false} MemoryLinesShow(mem: seq<Byte>, address: nat, n: nat, tail: seq<string>)
    requires address + n * BYTES_PER_LINE <= |mem| <= INT_MAX && (tail == [] || tail == [""])
    ensures AllShow(MemoryLines(mem, address, n) + tail, mem, address, n)
    decreases n
  {
    var printed := MemoryLines(mem, address, n);
    if n == 0 {
      assert printed + tail == tail;
    } else {
      MemoryLinesGoOn(mem, address, n);
      MemoryLinesShow(mem, address + BYTES_PER_LINE, n - 1, tail);
      assert (printed + tail)[0] == printed[0] && (printed + tail)[1..] == printed[1..] + tail;
    }
  }

  /** The first of the wanted bytes, which lie on a line, and those behind it. */
  lemma TwoSlices(mem: seq<Byte>, address: nat, line: nat, m: nat, missing: nat)
    requires address + line + m <= |mem|
    ensures mem[address..][..line][..Min(missing, line)] + mem[address + line..][..Min(missing - Min(missing, line), m)]
      == mem[address..][..Min(missing, line + m)]
  {
  }

  lemma LineAndRest(mem: seq<Byte>, address: nat, lines: seq<string>, missing: nat, m: nat)
    requires address + BYTES_PER_LINE + m <= |mem| && lines != [] && Shows(lines[0], mem, address)
    requires Delivered(lines[1..], missing - Min(missing, BYTES_PER_LINE), address + BYTES_PER_LINE)
      == Some(mem[address + BYTES_PER_LINE..][..Min(missing - Min(missing, BYTES_PER_LINE), m)])
    ensures Delivered(lines, missing, address) == Some(mem[address..][..Min(missing, BYTES_PER_LINE + m)])
  {
    DeliveredNext(lines, 0, missing, address);
    assert lines[0..] == lines;
    TwoSlices(mem, address, BYTES_PER_LINE, m, missing);
  }

  lemma NoLineDelivers(lines: seq<string>, missing: nat, address: nat)
    requires lines == [] || lines == [""]
    ensures Delivered(lines, missing, address) == Some([])
  {
    if lines != [] {
      assert lines[1..] == [];
    }
  }

  /** Such lines deliver memory, as far as they go. */
  lemma {:induction false} ShownIsDelivered(lines: seq<string>, mem: seq<Byte>, address: nat, n: nat, size: nat, missing: nat)
    requires size == n * BYTES_PER_LINE && address + size <= |mem| && AllShow(lines, mem, address, n)
    ensures Delivered(lines, missing, address) == Some(mem[address..][..Min(missing, size)])
    decreases n
  {
    if n == 0 {
      NoLineDelivers(lines, missing, address);
    } else {
      ShownIsDelivered(lines[1..], mem, address + BYTES_PER_LINE, n - 1, size - BYTES_PER_LINE, missing - Min(missing, BYTES_PER_LINE));
      LineAndRest(mem, address, lines, missing, size - BYTES_PER_LINE);
    }
  }

  /** The lines that the monitor prints. */
  lemma PrintedLinesDeliver(mem: seq<Byte>, address: nat, n: nat, missing: nat, tail: seq<string>)
    requires address + n * BYTES_PER_LINE <= |mem| <= INT_MAX && (tail == [] || tail == [""])
    ensures Delivered(MemoryLines(mem, address, n) + tail, missing, address) == Some(mem[address..][..Min(missing, n * BYTES_PER_LINE)])
  {
    MemoryLinesShow(mem, address, n, tail);
    ShownIsDelivered(MemoryLines(mem, address, n) + tail, mem, address, n, n * BYTES_PER_LINE, missing);
  }

  /** A line that the monitor prints for some address is taken exactly where that is the
      expected one. */
  lemma PrintedLineFitsIff(mem: seq<Byte>, printed: nat, address: nat)
    requires printed + BYTES_PER_LINE <= |mem| <= INT_MAX
    ensures LineFits(MemoryLine(printed, mem[printed..][..BYTES_PER_LINE]), address) <==> printed == address
  {
    MemoryLineRoundTrip(printed, mem[printed..][..BYTES_PER_LINE]);
  }

  /** One line of a reply. A line that does not match, or is for another address than
      the expected one, is refused; the latter after its bytes have been stored. */
  method StoreLine(line: string, dest: array<Byte>, at: nat, n: nat, address: int) returns (r: Result<(), Failure>)
    requires n <= BYTES_PER_LINE && at + n <= dest.Length
    modifies dest
    ensures OnlyWithin(old(dest[..]), dest[..], at, at + n)
    ensures r.Ok? <==> LineFits(line, address)
    ensures MatchMemoryLine(line).None? ==> dest[..] == old(dest[..])
    ensures r.Ok? ==> forall i | at <= i < at + n :: dest[i] == ByteAt(MatchMemoryLine(line).value.1, i - at)
  {
    var retAddr := ParseAddressLine(line, dest, at, n);
    if retAddr.Err? {
      return Err(retAddr.error);
    }
    return if retAddr.value == address then Ok(()) else Err(UnexpectedReply);
  }

  /** Between lo and hi lie the first of the bytes that are to be delivered. */
  ghost predicate StoredSoFar(all: Option<seq<Byte>>, d: seq<Byte>, lo: nat, hi: nat, rest: Option<seq<Byte>>) {
    lo <= hi <= |d| && all == Behind(d[lo..hi], rest)
  }

  /** The bytes of one more line. */
  lemma StoredMore(all: Option<seq<Byte>>, d0: seq<Byte>, d: seq<Byte>, lo: nat, mid: nat, hi: nat, line: string, rest: Option<seq<Byte>>)
    requires mid <= hi <= |d| && hi - mid <= BYTES_PER_LINE && OnlyWithin(d0, d, mid, hi) && MatchMemoryLine(line).Some?
    requires forall i | mid <= i < hi :: d[i] == ByteAt(MatchMemoryLine(line).value.1, i - mid)
    requires StoredSoFar(all, d0, lo, mid, Behind(LineBytes(line)[..hi - mid], rest))
    ensures StoredSoFar(all, d, lo, hi, rest)
  {
    forall i | 0 <= i < hi - lo ensures d[lo..hi][i] == (d0[lo..mid] + LineBytes(line)[..hi - mid])[i] {
    }
    assert d[lo..hi] == d0[lo..mid] + LineBytes(line)[..hi - mid];
    BehindBehind(d0[lo..mid], LineBytes(line)[..hi - mid], rest);
  }

  /** Where the loop is: lines from index k on are still to be looked at, and bytes
      from index pos of the wanted ones still to be stored. */
  datatype Place = Place(lines: seq<string>, k: nat, pos: nat, missing: nat, address: nat)

  ghost predicate StoredUpTo(all: Option<seq<Byte>>, d: seq<Byte>, at: nat, from: nat, p: Place) {
    match p
    case Place(lines, k, pos, missing, address) =>
      k <= |lines| && StoredSoFar(all, d, at + from, at + pos, Delivered(lines[k..], missing, address))
  }

  lemma NothingStored(all: Option<seq<Byte>>, d: seq<Byte>, at: nat, from: nat, p: Place)
    requires at + from <= |d| && p.k == 0 && p.pos == from && all == Delivered(p.lines, p.missing, p.address)
    ensures StoredUpTo(all, d, at, from, p)
  {
    assert p.lines[0..] == p.lines && d[at + from..at + from] == [];
    assert all.Some? ==> [] + all.value == all.value;
  }

  lemma EmptyLineSkipped(all: Option<seq<Byte>>, d: seq<Byte>, at: nat, from: nat, p: Place)
    requires StoredUpTo(all, d, at, from, p) && p.k < |p.lines| && p.lines[p.k] == ""
    ensures StoredUpTo(all, d, at, from, Place(p.lines, p.k + 1, p.pos, p.missing, p.address))
  {
    DeliveredNext(p.lines, p.k, p.missing, p.address);
  }

  /** The wanted bytes are stored. */
  ghost predicate StoredAs(all: Option<seq<Byte>>, d: seq<Byte>, at: nat, from: nat, pos: nat) {
    from <= pos <= |d| - at && all == Some(d[at + from..at + pos])
  }

  lemma AllStored(all: Option<seq<Byte>>, d: seq<Byte>, at: nat, from: nat, p: Place)
    requires StoredUpTo(all, d, at, from, p) && (p.k == |p.lines| || (p.lines[p.k] != "" && p.missing == 0))
    ensures StoredAs(all, d, at, from, p.pos)
  {
    if p.k < |p.lines| {
      DeliveredNext(p.lines, p.k, p.missing, p.address);
    }
    assert d[at + from..at + p.pos] + [] == d[at + from..at + p.pos];
  }

  /** The line at the place, which is wanted. */
  method StoreNext(ghost p: Place, line: string, dest: array<Byte>, at: nat, count: nat, ghost from: nat, pos: nat, address: nat,
                   ghost all: Option<seq<Byte>>) returns (r: Result<(nat, nat), Failure>)
    requires pos < count && at + count <= dest.Length
    requires p.k < |p.lines| && p.lines[p.k] == line != "" && p == Place(p.lines, p.k, pos, count - pos, address)
    requires StoredUpTo(all, dest[..], at, from, p)
    modifies dest
    ensures OnlyWithin(old(dest[..]), dest[..], at + pos, at + count)
    ensures r.Err? ==> all == None
    ensures r.Ok? ==> r.value == (pos + Min(count - pos, BYTES_PER_LINE), address + BYTES_PER_LINE)
    ensures r.Ok? ==>
      StoredUpTo(all, dest[..], at, from, Place(p.lines, p.k + 1, r.value.0, count - r.value.0, r.value.1))
  {
    var needed := Min(count - pos, BYTES_PER_LINE);
    DeliveredNext(p.lines, p.k, count - pos, address);
    var stored := StoreLine(line, dest, at + pos, needed, address);
    if stored.Err? {
      return Err(stored.error);
    }
    StoredMore(all, old(dest[..]), dest[..], at + from, at + pos, at + pos + needed, line,
               Delivered(p.lines[p.k + 1..], count - pos - needed, address + BYTES_PER_LINE));
    return Ok((pos + needed, address + BYTES_PER_LINE));
  }

  /** The loop over the lines of one reply, whatever they are. */
  method StoreLines(lines: seq<string>, dest: array<Byte>, at: nat, count: nat, from: nat, fromAddress: nat)
    returns (r: Result<(nat, nat), Failure>)
    requires at + count <= dest.Length && from <= count
    modifies dest
    ensures OnlyWithin(old(dest[..]), dest[..], at + from, at + count)
    ensures r.Err? ==> Delivered(lines, count - from, fromAddress) == None
    ensures r.Ok? ==> StoredAs(Delivered(lines, count - from, fromAddress), dest[..], at, from, r.value.0)
    ensures r.Ok? ==> from <= r.value.0 <= count && (r.value.0 < count ==> r.value.1 == fromAddress + (r.value.0 - from))
  {
    var pos: nat, address: nat := from, fromAddress;
    ghost var all := Delivered(lines, count - from, fromAddress);
    NothingStored(all, dest[..], at, from, Place(lines, 0, pos, count - pos, address));
    for k := 0 to |lines|
      invariant from <= pos <= count && (pos < count ==> address == fromAddress + (pos - from))
      invariant OnlyWithin(old(dest[..]), dest[..], at + from, at + count)
      invariant StoredUpTo(all, dest[..], at, from, Place(lines, k, pos, count - pos, address))
    {
      ghost var place := Place(lines, k, pos, count - pos, address);
      var line := lines[k];
      if |line| == 0 {
        EmptyLineSkipped(all, dest[..], at, from, place);
        continue;
      }
      if pos >= count {
        AllStored(all, dest[..], at, from, place);
        return Ok((pos, address));
      }
      var stored := StoreNext(place, line, dest, at, count, from, pos, address, all);
      if stored.Err? {
        return Err(stored.error);
      }
      pos, address := stored.value.0, stored.value.1;
    }
    AllStored(all, dest[..], at, from, Place(lines, |lines|, pos, count - pos, address));
    return Ok((pos, address));
  }

  lemma OneMoreCommand(count: nat, pos: nat)
    requires pos < count && pos % 256 == 0
    ensures CommandsFor(Min(count, pos + 256)) == CommandsFor(pos) + 1
    ensures pos + 256 <= count ==> (pos + 256) % 256 == 0
  {
  }

  /** The size of the reply to the command that fetches the next bytes. */
  function ReplySize(missing: int): nat {
    if missing <= BYTES_PER_LINE then BYTES_PER_LINE else 256
  }

  /** A reply to the command that fetches the next bytes. */
  predicate IsReply(lines: seq<string>, mem: seq<Byte>, address: nat, missing: nat) {
    var n := if missing <= BYTES_PER_LINE then 1 else 16;
    && address + n * BYTES_PER_LINE < |mem| <= INT_MAX
    && (lines == MemoryLines(mem, address, n) + [] || lines == MemoryLines(mem, address, n) + [""])
  }

  /** The monitor's answer to the command that the debugger prints. */
  lemma PrintedCommandIsAnswered(mem: seq<Byte>, address: nat, missing: nat)
    requires |mem| <= INT_MAX
    ensures var r := MemoryReply(mem, if missing <= BYTES_PER_LINE then 'm' else 'M', Render(address, 16));
      && (r.Ok? <==> address + ReplySize(missing) < |mem|)
      && (r.Ok? ==> IsReply(r.value + [], mem, address, missing) && IsReply(r.value + [""], mem, address, missing))
  {
    ValueOfRender(address, 16);
  }

  /** None of its lines is refused, and what they deliver is memory. */
  lemma ReplyDelivers(lines: seq<string>, mem: seq<Byte>, address: nat, missing: nat)
    requires IsReply(lines, mem, address, missing)
    ensures address + Min(missing, 256) <= |mem|
    ensures Delivered(lines, missing, address) == Some(mem[address..][..Min(missing, 256)])
  {
    var n := if missing <= BYTES_PER_LINE then 1 else 16;
    var tail := if lines == MemoryLines(mem, address, n) + [] then [] else [""];
    PrintedLinesDeliver(mem, address, n, missing, tail);
  }

  lemma SliceIsCopied(mem: seq<Byte>, address: nat, n: nat, d: seq<Byte>, lo: nat, hi: nat)
    requires address + n <= |mem| && lo <= hi <= |d| && d[lo..hi] == mem[address..][..n]
    ensures hi - lo == n && Copied(d, lo, mem, address, n)
  {
    assert |d[lo..hi]| == |mem[address..][..n]|;
    forall i {:trigger d[i]} | lo <= i < hi ensures d[i] == mem[address + (i - lo)] {
      assert d[i] == d[lo..hi][i - lo];
    }
  }

  /** One command. */
  method AskForMemory(target: MockMega65, missing: nat, address: nat) returns (r: Result<seq<string>, Failure>)
    requires target.Valid()
    modifies target`memoryCommands, target`timeouts
    ensures r.Ok? ==> target.memoryCommands == old(target.memoryCommands) + 1 && address + ReplySize(missing) < MEMORY_SIZE
    ensures r.Ok? ==> address + Min(missing, 256) <= MEMORY_SIZE
    ensures r.Ok? ==> Delivered(r.value, missing, address) == Some(target.memory[..][address..][..Min(missing, 256)])
    ensures Explained(r.Ok?, address + ReplySize(missing) < MEMORY_SIZE, old(target.timeouts), target.timeouts)
  {
    ghost var mem := target.memory[..];
    var command := if missing <= BYTES_PER_LINE then 'm' else 'M';
    PrintedCommandIsAnswered(mem, address, missing);
    r := target.ExecuteMemoryCommand(command, Render(address, 16));
    if r.Ok? {
      ReplyDelivers(r.value, mem, address, missing);
    }
  }

  /** One command, and its reply stored at index at + from. */
  method FetchReply(target: MockMega65, dest: array<Byte>, at: nat, count: nat, from: nat, fromAddress: nat)
    returns (r: Result<(nat, nat), Failure>)
    requires target.Valid() && dest != target.memory && at + count <= dest.Length && from < count
    modifies dest, target`memoryCommands, target`timeouts
    ensures OnlyWithin(old(dest[..]), dest[..], at + from, at + count)
    ensures r.Ok? ==> target.memoryCommands == old(target.memoryCommands) + 1
    ensures r.Ok? ==> r.value.0 == Min(count, from + 256)
    ensures r.Ok? ==> (r.value.0 < count ==> r.value.1 == fromAddress + 256)
    ensures r.Ok? ==> Copied(dest[..], at + from, target.memory[..], fromAddress, r.value.0 - from)
    ensures r.Ok? ==> fromAddress + ReplySize(count - from) < MEMORY_SIZE
    ensures Explained(r.Ok?, fromAddress + ReplySize(count - from) < MEMORY_SIZE, old(target.timeouts), target.timeouts)
  {
    ghost var mem := target.memory[..];
    var reply := AskForMemory(target, count - from, fromAddress);
    if reply.Err? {
      return Err(reply.error);
    }
    r := StoreLines(reply.value, dest, at, count, from, fromAddress);
    SliceIsCopied(mem, fromAddress, Min(count - from, 256), dest[..], at + from, at + r.value.0);
  }

  /** Fills dest[at..at + count] from target memory. On success it holds exactly
      memory[addr..addr + count], after one command per 256 bytes; it fails exactly
      when a command gets no answer or when memory ends. Nothing else is written. */
  method GetMemoryBytes(target: MockMega65, addr: nat, dest: array<Byte>, at: nat, count: nat)
    returns (r: Result<(), Failure>)
    requires target.Valid() && dest != target.memory && at + count <= dest.Length
    modifies dest, target`memoryCommands, target`timeouts
    ensures OnlyWithin(old(dest[..]), dest[..], at, at + count)
    ensures r.Ok? ==> Served(addr, count, MEMORY_SIZE)
    ensures r.Ok? && count > 0 ==> Copied(dest[..], at, target.memory[..], addr, count)
    ensures r.Ok? ==> target.memoryCommands == old(target.memoryCommands) + CommandsFor(count)
    ensures Explained(r.Ok?, Served(addr, count, MEMORY_SIZE), old(target.timeouts), target.timeouts)
  {
    ghost var mem := target.memory[..];
    var pos: nat, address: nat := 0, addr;
    while pos < count
      invariant pos <= count && (pos < count ==> pos % 256 == 0 && address == addr + pos)
      invariant target.timeouts == old(target.timeouts)
      invariant pos > 0 && pos == count ==> Served(addr, count, MEMORY_SIZE)
      invariant target.memoryCommands == old(target.memoryCommands) + CommandsFor(pos)
      invariant pos > 0 ==> Copied(dest[..], at, mem, addr, pos)
      invariant OnlyWithin(old(dest[..]), dest[..], at, at + count)
    {
      OneMoreCommand(count, pos);
      ServedStep(addr, count, pos, MEMORY_SIZE);
      ghost var before, start := dest[..], pos;
      var fetched := FetchReply(target, dest, at, count, pos, address);
      if fetched.Err? {
        return Err(fetched.error);
      }
      pos, address := fetched.value.0, fetched.value.1;
      CopyMore(before, dest[..], at, mem, addr, start, pos - start, at + count);
    }
    return Ok(());
  }
}
