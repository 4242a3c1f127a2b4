/**
 The line cache between the debugger and target memory: src/memory_cache.cpp.

 Abstractly the cache is a partial map from line addresses to 256 bytes. As long
 as a miss finds a line that is not in use, every operation acts on that map as
 one would expect; when all lines are in use, a miss overwrites the first line
 and leaves its old address mapped to it. The contracts say both.
 */
module MemoryCache {
  import opened Common
  import opened Monitor
  import opened TargetMemory

  const LINE_SIZE := 256

  datatype LineInfo = LineInfo(tableIdx: nat, address: int, valid: bool, accessed: bool)

  type View = map<int, seq<Byte>>

  function Base(address: nat): nat {
    address - address % LINE_SIZE
  }

  /** The line at a line address. */
  function Line(mem: seq<Byte>, address: nat): seq<Byte>
    requires address + LINE_SIZE <= |mem|
  {
    mem[address..address + LINE_SIZE]
  }

  /** Where in its line read takes byte i from, if it starts at the offset: it
      goes on at the start of the same line. */
  function LineIndex(offset: nat, i: nat): (k: nat)
    requires offset < LINE_SIZE
    ensures k < LINE_SIZE
    decreases i
  {
    if offset + i < LINE_SIZE then offset + i else LineIndex(0, i - (LINE_SIZE - offset))
  }

  lemma {:induction false} LineIndexIsMod(offset: nat, i: nat)
    requires offset < LINE_SIZE
    ensures LineIndex(offset, i) == (offset + i) % LINE_SIZE
    decreases i
  {
    if offset + i >= LINE_SIZE {
      LineIndexIsMod(0, i - (LINE_SIZE - offset));
    }
  }

  lemma {:induction false} LineIndexGoesOn(offset: nat, pos: nat, j: nat)
    requires offset < LINE_SIZE && LineIndex(offset, pos) + j <= LINE_SIZE
    ensures LineIndex(offset, pos + j) == if LineIndex(offset, pos) + j < LINE_SIZE then LineIndex(offset, pos) + j else 0
    decreases pos
  {
    if offset + pos >= LINE_SIZE {
      LineIndexGoesOn(0, pos - (LINE_SIZE - offset), j);
    }
  }

  /** The first n bytes of d are what a read from the address returns, given
      the line of its first byte. */
  predicate IsWrapped(d: seq<Byte>, line: seq<Byte>, address: nat, n: nat) {
    n <= |d| && |line| == LINE_SIZE && forall i | 0 <= i < n :: d[i] == line[LineIndex(address % LINE_SIZE, i)]
  }

  /** Every mapped line holds what memory holds. */
  ghost predicate Coherent(v: View, mem: seq<Byte>) {
    forall k <- v :: 0 <= k && k + LINE_SIZE <= |mem| && v[k] == Line(mem, k)
  }

  function Touch(v: View, a: nat, mem: seq<Byte>): View
    requires a in v || a + LINE_SIZE <= |mem|
  {
    if a in v then v else v[a := Line(mem, a)]
  }

  function FirstInvalid(ls: seq<LineInfo>): (i: nat)
    ensures i <= |ls| && (i < |ls| ==> !ls[i].valid) && forall j | 0 <= j < i :: ls[j].valid
  {
    if |ls| == 0 || !ls[0].valid then 0 else 1 + FirstInvalid(ls[1..])
  }

  function FirstUnused(ls: seq<LineInfo>): (i: nat)
    ensures i <= |ls| && (i < |ls| ==> !ls[i].accessed) && forall j | 0 <= j < i :: ls[j].accessed
  {
    if |ls| == 0 || !ls[0].accessed then 0 else 1 + FirstUnused(ls[1..])
  }

  /** The line a miss fills: an invalid one, else one not accessed, else the first. */
  function Victim(ls: seq<LineInfo>): (v: nat)
    requires |ls| > 0
    ensures v < |ls|
    ensures ls[v].valid && ls[v].accessed ==> v == 0 && forall l <- ls :: l.accessed
  {
    if FirstInvalid(ls) < |ls| then FirstInvalid(ls)
    else if FirstUnused(ls) < |ls| then FirstUnused(ls)
    else 0
  }

  /** Mapped lines are valid and accessed, and accessed lines are mapped from
      their address. */
  predicate Consistent(av: map<int, nat>, ls: seq<LineInfo>) {
    && (forall k <- av :: 0 <= k && k % LINE_SIZE == 0 && av[k] < |ls| && ls[av[k]].valid && ls[av[k]].accessed)
    && (forall i | 0 <= i < |ls| && ls[i].accessed :: ls[i].address in av && av[ls[i].address] == i)
  }

  /** No line is mapped from two addresses. */
  predicate AliasFree(av: map<int, nat>, ls: seq<LineInfo>) {
    forall k <- av :: av[k] < |ls| && ls[av[k]].address == k
  }

  /** The lines after a miss on address a that was fetched and marked. */
  function Filled(ls: seq<LineInfo>, a: int): seq<LineInfo>
    requires |ls| > 0
  {
    var v := Victim(ls);
    ls[v := ls[v].(address := a, valid := true, accessed := true)]
  }

  lemma MissKeepsConsistent(av: map<int, nat>, ls: seq<LineInfo>, a: int)
    requires |ls| > 0 && Consistent(av, ls) && a !in av && 0 <= a && a % LINE_SIZE == 0
    ensures Consistent(av[a := Victim(ls)], Filled(ls, a))
  {
  }

  /** With room, a miss takes a line that is not mapped, and no line becomes
      mapped twice; without, it takes the first line, which is mapped once. */
  lemma MissVictim(av: map<int, nat>, ls: seq<LineInfo>, a: int)
    requires |ls| > 0 && Consistent(av, ls) && AliasFree(av, ls) && a !in av
    ensures |av| <= |ls|
    ensures |av| < |ls| ==> (forall k <- av :: av[k] != Victim(ls)) && AliasFree(av[a := Victim(ls)], Filled(ls, a))
    ensures |av| == |ls| ==> Victim(ls) == 0 && ls[0].address in av && forall k <- av :: av[k] == 0 <==> k == ls[0].address
  {
    RoomMeansFreeLine(av, ls);
    var v := Victim(ls);
    if |av| < |ls| {
      assert !(ls[v].valid && ls[v].accessed);
    } else {
      assert ls[v] in ls;
    }
  }

  lemma RoomMeansFreeLine(av: map<int, nat>, ls: seq<LineInfo>)
    requires Consistent(av, ls) && AliasFree(av, ls)
    ensures |av| <= |ls| && (|av| == |ls| <==> forall l <- ls :: l.accessed)
  {
    forall i, j | 0 <= i < j < |ls| && ls[i].accessed && ls[j].accessed ensures ls[i].address != ls[j].address {
      assert av[ls[i].address] == i && av[ls[j].address] == j;
    }
    Pigeonhole(ls);
    forall k ensures k in AccessedAddresses(ls) <==> k in av {
      AccessedAddressesAreInUse(ls, k);
      if k in av {
        assert ls[av[k]].accessed && ls[av[k]].address == k;
      }
    }
    assert AccessedAddresses(ls) == av.Keys;
  }

  /* Counting lines in use */

  function AccessedAddresses(ls: seq<LineInfo>): set<int> {
    if |ls| == 0 then {}
    else AccessedAddresses(ls[..|ls| - 1]) + if ls[|ls| - 1].accessed then {ls[|ls| - 1].address} else {}
  }

  predicate DistinctAddresses(ls: seq<LineInfo>) {
    forall i, j | 0 <= i < j < |ls| && ls[i].accessed && ls[j].accessed :: ls[i].address != ls[j].address
  }

  predicate InUse(ls: seq<LineInfo>, a: int) {
    exists i :: 0 <= i < |ls| && ls[i].accessed && ls[i].address == a
  }

  lemma {:induction false} AccessedAddressesAreInUse(ls: seq<LineInfo>, a: int)
    ensures a in AccessedAddresses(ls) <==> InUse(ls, a)
  {
    if |ls| > 0 {
      var init, last := ls[..|ls| - 1], ls[|ls| - 1];
      AccessedAddressesAreInUse(init, a);
      if InUse(ls, a) {
        var i :| 0 <= i < |ls| && ls[i].accessed && ls[i].address == a;
        assert i == |init| || init[i] == ls[i];
      }
      if InUse(init, a) {
        var i :| 0 <= i < |init| && init[i].accessed && init[i].address == a;
        assert ls[i] == init[i];
      }
      assert last.accessed && last.address == a ==> InUse(ls, a);
    }
  }

  predicate AllInUse(ls: seq<LineInfo>) {
    forall l <- ls :: l.accessed
  }

  /** Pigeonhole: distinct addresses fill as many lines as there are only if
      every line is in use. */
  lemma {:induction false} Pigeonhole(ls: seq<LineInfo>)
    requires DistinctAddresses(ls)
    ensures |AccessedAddresses(ls)| <= |ls|
    ensures |AccessedAddresses(ls)| == |ls| <==> AllInUse(ls)
  {
    if |ls| > 0 {
      var init, last := ls[..|ls| - 1], ls[|ls| - 1];
      Pigeonhole(init);
      assert ls == init + [last];
      AccessedAddressesAreInUse(init, last.address);
      assert last.accessed ==> last.address !in AccessedAddresses(init);
      assert AllInUse(ls) <==> last.accessed && AllInUse(init);
    }
  }

  /* What read returns, and when that is memory */

  lemma DirectIsWrapped(mem: seq<Byte>, address: nat, n: nat)
    requires Base(address) + LINE_SIZE <= |mem| && address + n <= |mem| && (n == 0 || address % LINE_SIZE + n <= LINE_SIZE)
    ensures IsWrapped(mem[address..address + n], Line(mem, Base(address)), address, n)
  {
    var bytes, line, offset := mem[address..address + n], Line(mem, Base(address)), address % LINE_SIZE;
    forall i | 0 <= i < n ensures bytes[i] == line[LineIndex(offset, i)] {
      assert LineIndex(offset, i) == offset + i && address == Base(address) + offset;
    }
  }

  /** read is a read of memory, whatever memory holds, exactly for accesses that
      stay inside one line. */
  lemma WrappedIsDirectIff(address: nat, n: nat, size: nat)
    requires Base(address) + LINE_SIZE <= size && address + n <= size
    ensures (forall mem: seq<Byte> | |mem| == size :: IsWrapped(mem[address..address + n], Line(mem, Base(address)), address, n))
      <==> n == 0 || address % LINE_SIZE + n <= LINE_SIZE
  {
    var off := address % LINE_SIZE;
    if off + n <= LINE_SIZE || n == 0 {
      forall mem: seq<Byte> | |mem| == size
        ensures IsWrapped(mem[address..address + n], Line(mem, Base(address)), address, n)
      {
        DirectIsWrapped(mem, address, n);
      }
    } else {
      var i := LINE_SIZE - off;
      var mem: seq<Byte> := seq(size, k => if k == Base(address) then 1 else 0);
      assert LineIndex(off, i) == 0;
      assert mem[address..address + n][i] == 0 && Line(mem, Base(address))[0] == 1;
      assert !IsWrapped(mem[address..address + n], Line(mem, Base(address)), address, n);
    }
  }

  /** The bytes of line number i in the cache's data. */
  function LineAt(d: seq<Byte>, i: nat): seq<Byte> {
    if (i + 1) * LINE_SIZE <= |d| then d[i * LINE_SIZE..(i + 1) * LINE_SIZE] else []
  }

  function ViewOf(av: map<int, nat>, d: seq<Byte>): View {
    map k | k in av :: LineAt(d, av[k])
  }

  lemma OtherLinesKept(d0: seq<Byte>, d1: seq<Byte>, v: nat, i: nat)
    requires OnlyWithin(d0, d1, v * LINE_SIZE, (v + 1) * LINE_SIZE) && i != v
    ensures LineAt(d1, i) == LineAt(d0, i)
  {
    if (i + 1) * LINE_SIZE <= |d0| {
      assert i < v || v < i;
      forall k | i * LINE_SIZE <= k < (i + 1) * LINE_SIZE ensures d1[k] == d0[k] {
      }
    }
  }

  /** Filling line v changes what every address mapped to it shows. */
  lemma FilledView(av: map<int, nat>, d0: seq<Byte>, d1: seq<Byte>, v: nat, a: int)
    requires OnlyWithin(d0, d1, v * LINE_SIZE, (v + 1) * LINE_SIZE)
    ensures ViewOf(av[a := v], d1) == map k | k in av.Keys + {a} :: if k == a || av[k] == v then LineAt(d1, v) else LineAt(d0, av[k])
    ensures (forall k <- av :: av[k] != v) ==> ViewOf(av, d1) == ViewOf(av, d0)
  {
    forall k | k in av && av[k] != v ensures LineAt(d1, av[k]) == LineAt(d0, av[k]) {
      OtherLinesKept(d0, d1, v, av[k]);
    }
    assert (forall k <- av :: av[k] != v) ==> forall k <- av :: LineAt(d1, av[k]) == LineAt(d0, av[k]);
  }

  lemma FilledFreeLine(av: map<int, nat>, d0: seq<Byte>, d1: seq<Byte>, v: nat, a: int)
    requires OnlyWithin(d0, d1, v * LINE_SIZE, (v + 1) * LINE_SIZE) && forall k <- av :: av[k] != v
    ensures ViewOf(av[a := v], d1) == ViewOf(av, d0)[a := LineAt(d1, v)]
  {
    FilledView(av, d0, d1, v, a);
  }

  lemma FilledUsedLine(av: map<int, nat>, d0: seq<Byte>, d1: seq<Byte>, v: nat, a: int, old0: int)
    requires OnlyWithin(d0, d1, v * LINE_SIZE, (v + 1) * LINE_SIZE)
    requires forall k <- av :: av[k] == v <==> k == old0
    requires old0 in av
    ensures ViewOf(av[a := v], d1) == ViewOf(av, d0)[old0 := LineAt(d1, v)][a := LineAt(d1, v)]
  {
    FilledView(av, d0, d1, v, a);
  }

  /** What a miss does to the view: with room it adds one line; without, it
      also changes what the address of the first line shows. */
  lemma MissView(av: map<int, nat>, ls: seq<LineInfo>, d0: seq<Byte>, d1: seq<Byte>, a: int)
    requires |ls| > 0 && Consistent(av, ls) && AliasFree(av, ls) && a !in av
    requires OnlyWithin(d0, d1, Victim(ls) * LINE_SIZE, (Victim(ls) + 1) * LINE_SIZE)
    ensures |av| < |ls| ==> ViewOf(av, d1) == ViewOf(av, d0)
    ensures |av| < |ls| ==> ViewOf(av[a := Victim(ls)], d1) == ViewOf(av, d0)[a := LineAt(d1, Victim(ls))]
    ensures |av| >= |ls| ==> ls[0].address in av
    ensures |av| >= |ls| ==>
      (ViewOf(av[a := Victim(ls)], d1) == ViewOf(av, d0)[ls[0].address := LineAt(d1, Victim(ls))][a := LineAt(d1, Victim(ls))])
  {
    var v := Victim(ls);
    MissVictim(av, ls, a);
    FilledView(av, d0, d1, v, a);
    if |av| < |ls| {
      FilledFreeLine(av, d0, d1, v, a);
    } else {
      FilledUsedLine(av, d0, d1, v, a, ls[0].address);
    }
  }

  /** The fields of a cache at one moment. */
  datatype Snapshot = Snapshot(av: map<int, nat>, ls: seq<LineInfo>, d: seq<Byte>) {
    ghost predicate Valid() {
      |ls| > 0 && Consistent(av, ls)
    }

    ghost predicate NoAlias() {
      AliasFree(av, ls)
    }

    ghost function View(): View {
      ViewOf(av, d)
    }

    /** Whether the line at address a can be had without overwriting one in use. */
    predicate Room(a: int) {
      a in av || |av| < |ls|
    }
  }

  /** An access to the line at address a: a hit changes nothing; a miss fills the
      victim, or, when the fetch fails, at most spoils the victim's bytes. */
  ghost predicate Access(s: Snapshot, s': Snapshot, a: nat, mem: seq<Byte>, ok: bool) {
    if a in s.av then s' == s && ok
    else
      && |s.ls| > 0 && OnlyWithin(s.d, s'.d, Victim(s.ls) * LINE_SIZE, (Victim(s.ls) + 1) * LINE_SIZE)
      && (!ok ==> s'.av == s.av && s'.ls == s.ls)
      && (ok ==> s'.av == s.av[a := Victim(s.ls)] && s'.ls == Filled(s.ls, a))
      && (ok ==> a + LINE_SIZE <= |mem| && LineAt(s'.d, Victim(s.ls)) == Line(mem, a))
  }

  /** The access seen on the view. */
  lemma AccessView(s: Snapshot, s': Snapshot, a: nat, mem: seq<Byte>, ok: bool)
    requires s.Valid() && Access(s, s', a, mem, ok) && a % LINE_SIZE == 0
    ensures s'.Valid()
    ensures ok ==> a in s'.View()
    ensures ok && a !in s.av ==> s'.View()[a] == Line(mem, a)
    ensures s.NoAlias() && s.Room(a) ==> s'.NoAlias()
    ensures s.NoAlias() && s.Room(a) ==> s'.View() == if ok then Touch(s.View(), a, mem) else s.View()
    ensures s.NoAlias() && !s.Room(a) ==> s.ls[0].address in s.av
    ensures s.NoAlias() && !s.Room(a) && ok ==>
      (s'.View() == s.View()[s.ls[0].address := Line(mem, a)][a := Line(mem, a)])
  {
    if a !in s.av {
      MissKeepsConsistent(s.av, s.ls, a);
      if s.NoAlias() {
        MissVictim(s.av, s.ls, a);
        MissView(s.av, s.ls, s.d, s'.d, a);
      }
    }
  }

  /** Within capacity, coherence with memory survives every access, a failed
      fetch included. */
  lemma AccessKeepsCoherent(s: Snapshot, s': Snapshot, a: nat, mem: seq<Byte>, ok: bool)
    requires s.Valid() && s.NoAlias() && s.Room(a) && Access(s, s', a, mem, ok) && a % LINE_SIZE == 0
    requires Coherent(s.View(), mem)
    ensures s'.Valid() && s'.NoAlias() && Coherent(s'.View(), mem)
  {
    AccessView(s, s', a, mem, ok);
  }

  /** Valid, without aliases, and coherent with memory. */
  ghost predicate Sound(s: Snapshot, mem: seq<Byte>) {
    s.Valid() && s.NoAlias() && Coherent(s.View(), mem)
  }

  /** One operation: an access with room, fetched or failed, or the unmapping of all
      lines. */
  ghost predicate Operation(s: Snapshot, s': Snapshot, mem: seq<Byte>) {
    || (exists a: nat, ok: bool :: a % LINE_SIZE == 0 && s.Room(a) && Access(s, s', a, mem, ok))
    || (s'.Valid() && s'.NoAlias() && s'.av == map[])
  }

  /** Over whole runs while memory stays as it is: within capacity, the cache stays
      coherent. */
  lemma {:induction false} RunKeepsSound(ss: seq<Snapshot>, mem: seq<Byte>, k: nat)
    requires k < |ss| && Sound(ss[0], mem) && forall i | 0 <= i < k :: Operation(ss[i], ss[i + 1], mem)
    ensures Sound(ss[k], mem)
  {
    if k > 0 {
      RunKeepsSound(ss, mem, k - 1);
      var s, s' := ss[k - 1], ss[k];
      assert Operation(s, s', mem);
      if a: nat, ok: bool :| a % LINE_SIZE == 0 && s.Room(a) && Access(s, s', a, mem, ok) {
        AccessKeepsCoherent(s, s', a, mem, ok);
      }
    }
  }

  /** Beyond capacity, a miss keeps the cache coherent exactly when the line that
      is overwritten and the line that is fetched hold the same bytes. */
  lemma FullMissCoherentIff(s: Snapshot, s': Snapshot, a: nat, mem: seq<Byte>)
    requires s.Valid() && s.NoAlias() && !s.Room(a) && Access(s, s', a, mem, true) && a % LINE_SIZE == 0
    requires Coherent(s.View(), mem)
    ensures s.ls[0].address in s.View() && a + LINE_SIZE <= |mem|
    ensures Coherent(s'.View(), mem) <==> Line(mem, s.ls[0].address) == Line(mem, a)
  {
    AccessView(s, s', a, mem, true);
    if Coherent(s'.View(), mem) {
      assert s.ls[0].address in s'.View();
    }
  }

  /** A fetch that fails may have written into the victim before it threw. Memory can
      be read from the cache afterwards, whatever was written, exactly with room. */
  lemma FailedFetchIff(s: Snapshot, a: nat, mem: seq<Byte>)
    requires Sound(s, mem) && Sized(s) && a !in s.av && a % LINE_SIZE == 0
    ensures (forall s' | Access(s, s', a, mem, false) :: Coherent(s'.View(), mem)) <==> s.Room(a)
  {
    if s.Room(a) {
      forall s' | Access(s, s', a, mem, false) ensures Coherent(s'.View(), mem) {
        AccessKeepsCoherent(s, s', a, mem, false);
      }
    } else {
      var s' := SpoiledFetch(s, a, mem);
    }
  }

  lemma SpoiledFetch(s: Snapshot, a: nat, mem: seq<Byte>) returns (s': Snapshot)
    requires Sound(s, mem) && Sized(s) && !s.Room(a)
    ensures Access(s, s', a, mem, false) && !Coherent(s'.View(), mem)
  {
    MissVictim(s.av, s.ls, a);
    var key := s.ls[0].address;
    var other: Byte := if s.d[0] == 0 then 1 else 0;
    s' := s.(d := s.d[0 := other]);
    assert key in s.View() && s.View()[key] == Line(mem, key);
    assert LineAt(s.d, 0)[0] == s.d[0] && LineAt(s'.d, 0)[0] == other;
    assert key in s'.View();
  }

  /* What mapped lines hold while memory changes */

  /** A line that stays mapped keeps its bytes; a new one holds what memory holds. */
  ghost predicate Fills(s: Snapshot, s': Snapshot, mem: seq<Byte>) {
    forall key <- s'.View() ::
      if key in s.View() then s'.View()[key] == s.View()[key]
      else 0 <= key && key + LINE_SIZE <= |mem| && s'.View()[key] == Line(mem, key)
  }

  lemma AccessFills(s: Snapshot, s': Snapshot, a: nat, mem: seq<Byte>, ok: bool)
    requires s.Valid() && s.NoAlias() && s.Room(a) && Access(s, s', a, mem, ok) && a % LINE_SIZE == 0
    ensures s'.Valid() && s'.NoAlias() && Fills(s, s', mem)
  {
    AccessView(s, s', a, mem, ok);
  }

  lemma OperationFills(s: Snapshot, s': Snapshot, mem: seq<Byte>)
    requires s.Valid() && s.NoAlias() && Operation(s, s', mem)
    ensures s'.Valid() && s'.NoAlias() && Fills(s, s', mem)
  {
    if a: nat, ok: bool :| a % LINE_SIZE == 0 && s.Room(a) && Access(s, s', a, mem, ok) {
      AccessFills(s, s', a, mem, ok);
    }
  }

  /** The line at the key was fetched in step j, has been mapped ever since, and holds
      what memory held then. */
  ghost predicate FetchedIn(ss: seq<Snapshot>, mems: seq<seq<Byte>>, k: nat, key: int, j: nat)
    requires k < |ss| && k <= |mems|
  {
    && j < k && key !in ss[j].av && (forall i | j < i <= k :: key in ss[i].View())
    && 0 <= key && key + LINE_SIZE <= |mems[j]| && ss[k].View()[key] == Line(mems[j], key)
  }

  lemma {:induction false} FillsAddUp(ss: seq<Snapshot>, mems: seq<seq<Byte>>, k: nat, key: int) returns (j: nat)
    requires k < |ss| && k <= |mems| && ss[0].av == map[] && forall i | 0 <= i < k :: Fills(ss[i], ss[i + 1], mems[i])
    requires key in ss[k].View()
    ensures FetchedIn(ss, mems, k, key, j)
  {
    assert k > 0 && Fills(ss[k - 1], ss[k - 1 + 1], mems[k - 1]);
    if key in ss[k - 1].View() {
      j := FillsAddUp(ss, mems, k - 1, key);
    } else {
      j := k - 1;
    }
  }

  /** Over whole runs, while memory changes from step to step in any way: within
      capacity every mapped line holds memory as of the step that fetched it, and
      it has been mapped since then. */
  lemma LinesHoldTheirFills(ss: seq<Snapshot>, mems: seq<seq<Byte>>, k: nat, key: int) returns (j: nat)
    requires k < |ss| && k <= |mems| && ss[0].Valid() && ss[0].av == map[]
    requires forall i | 0 <= i < k :: Operation(ss[i], ss[i + 1], mems[i])
    requires key in ss[k].av
    ensures ss[k].Valid() && ss[k].NoAlias() && FetchedIn(ss, mems, k, key, j)
  {
    forall i | 0 <= i < k ensures Fills(ss[i], ss[i + 1], mems[i]) {
      OperationsKeepAliasFree(ss, mems, i);
      OperationFills(ss[i], ss[i + 1], mems[i]);
    }
    OperationsKeepAliasFree(ss, mems, k);
    j := FillsAddUp(ss, mems, k, key);
  }

  lemma {:induction false} OperationsKeepAliasFree(ss: seq<Snapshot>, mems: seq<seq<Byte>>, k: nat)
    requires k < |ss| && k <= |mems| && ss[0].Valid() && ss[0].NoAlias()
    requires forall i | 0 <= i < k :: Operation(ss[i], ss[i + 1], mems[i])
    ensures ss[k].Valid() && ss[k].NoAlias()
  {
    if k > 0 {
      OperationsKeepAliasFree(ss, mems, k - 1);
      OperationFills(ss[k - 1], ss[k - 1 + 1], mems[k - 1]);
    }
  }

  /** What the address shows. */
  function Shown(s: Snapshot, a: int): seq<Byte> {
    if a in s.av then LineAt(s.d, s.av[a]) else []
  }

  ghost predicate HasLine(c: Snapshot, address: nat) {
    Base(address) in c.View() && |c.View()[Base(address)]| == LINE_SIZE
  }

  ghost function LineOf(c: Snapshot, address: nat): (line: seq<Byte>)
    requires HasLine(c, address)
    ensures |line| == LINE_SIZE
  {
    c.View()[Base(address)]
  }

  lemma AccessKeepsValid(c: Snapshot, c': Snapshot, address: nat, mem: seq<Byte>, ok: bool)
    requires c.Valid() && Access(c, c', Base(address), mem, ok)
    ensures c'.Valid()
  {
    AccessView(c, c', Base(address), mem, ok);
  }

  /** The data holds all the lines. */
  predicate Sized(c: Snapshot) {
    |c.d| == |c.ls| * LINE_SIZE
  }

  /** A successful access. */
  function Accessed(c: Snapshot, a: nat, mem: seq<Byte>): Snapshot
    requires |c.ls| > 0 && Sized(c) && a + LINE_SIZE <= |mem|
  {
    if a in c.av then c
    else
      var v := Victim(c.ls);
      Snapshot(c.av[a := v], Filled(c.ls, a), c.d[..v * LINE_SIZE] + Line(mem, a) + c.d[(v + 1) * LINE_SIZE..])
  }

  lemma AccessedIsAccess(c: Snapshot, address: nat, mem: seq<Byte>)
    requires c.Valid() && Sized(c) && Base(address) + LINE_SIZE <= |mem|
    ensures var c' := Accessed(c, Base(address), mem);
      Access(c, c', Base(address), mem, true) && c'.Valid() && Sized(c') && HasLine(c', address)
  {
    var a, v := Base(address), Victim(c.ls);
    var c' := Accessed(c, a, mem);
    if a !in c.av {
      assert c'.d[v * LINE_SIZE..(v + 1) * LINE_SIZE] == Line(mem, a);
    }
    AccessKeepsValid(c, c', address, mem, true);
    assert c'.av[a] < |c'.ls|;
  }

  /** How an access to the line at address a ends: a mapped line takes no command; for
      another one a command is sent, and if it is answered, the access ends well exactly
      below the last line of memory. */
  predicate AccessExplained(ok: bool, mapped: bool, a: nat, before: Traffic, after: Traffic) {
    if mapped then ok && after == before
    else
      && Explained(ok, a + LINE_SIZE < MEMORY_SIZE, before.timeouts, after.timeouts)
      && (ok ==> after.commands == before.commands + 1)
  }

  /** The line a read needs, whether it was mapped before, and the traffic by then. */
  datatype Link = Link(a: nat, mapped: bool, traffic: Traffic)

  /** During a read: once a byte is read, the line has been accessed, and nothing was
      sent since. */
  predicate LinkSoFar(link: Link, started: bool, mapped: bool, traffic: Traffic) {
    match link
    case Link(a, mapped0, traffic0) =>
      if started then mapped && AccessExplained(true, mapped0, a, traffic0, traffic) else mapped == mapped0 && traffic == traffic0
  }

  predicate LinkEnds(link: Link, ok: bool, traffic: Traffic) {
    match link
    case Link(a, mapped0, traffic0) => AccessExplained(ok, mapped0, a, traffic0, traffic)
  }

  class MemoryCache {
    const target: MockMega65
    const data: array<Byte>
    const lines: array<LineInfo>
    var addressView: map<int, nat>

    constructor (target: MockMega65, numCacheLines: nat)
      requires target.Valid() && numCacheLines > 0
      ensures Valid() && State().NoAlias() && addressView == map[] && fresh(data) && fresh(lines)
      ensures this.target == target && lines.Length == numCacheLines
    {
      this.target := target;
      data := new Byte[numCacheLines * LINE_SIZE](_ => 0);
      lines := new LineInfo[numCacheLines](_ => LineInfo(0, 0, false, false));
      addressView := map[];
      new;
      for idx := 0 to numCacheLines
        invariant addressView == map[]
        invariant forall i | 0 <= i < numCacheLines :: lines[i] == LineInfo(if i < idx then i else 0, 0, false, false)
      {
        lines[idx] := lines[idx].(tableIdx := idx);
      }
    }

    ghost predicate Shape()
      reads this, lines, target
    {
      && target.Valid() && data != target.memory
      && lines.Length > 0 && data.Length == lines.Length * LINE_SIZE
      && (forall i | 0 <= i < lines.Length :: lines[i].tableIdx == i)
      && (forall k <- addressView :: addressView[k] < lines.Length)
    }

    ghost function State(): Snapshot
      reads this, lines, data
    {
      Snapshot(addressView, lines[..], data[..])
    }

    ghost predicate Valid()
      reads this, lines, data, target
    {
      match State()
      case Snapshot(av, ls, d) => Shape() && Consistent(av, ls)
    }

    ghost function Memory(): seq<Byte>
      reads target.memory
    {
      target.memory[..]
    }

    /** std::find_if over the lines: invalid ones, not accessed ones, the first. */
    method FindVictim() returns (v: nat)
      requires lines.Length > 0
      ensures v == Victim(lines[..])
    {
      v := 0;
      while v < lines.Length && lines[v].valid
        invariant v <= lines.Length && forall j | 0 <= j < v :: lines[j].valid
      {
        v := v + 1;
      }
      assert v == FirstInvalid(lines[..]);
      if v == lines.Length {
        v := 0;
        while v < lines.Length && lines[v].accessed
          invariant v <= lines.Length && forall j | 0 <= j < v :: lines[j].accessed
        {
          v := v + 1;
        }
        assert v == FirstUnused(lines[..]);
        if v == lines.Length {
          v := 0;
        }
      }
    }

    /** The line for a line address, fetched if it is not mapped. */
    method EnsureValidCacheLine(a: nat) returns (r: Result<nat, Failure>)
      requires Shape() && a % LINE_SIZE == 0 && (a in addressView || Valid())
      modifies this`addressView, data, lines, target`memoryCommands, target`timeouts
      ensures Shape()
      ensures a in old(addressView) ==>
        && addressView == old(addressView) && r == Ok(addressView[a])
        && lines[..] == old(lines[..]) && data[..] == old(data[..])
      ensures AccessExplained(r.Ok?, a in old(addressView), a, old(target.Sent()), target.Sent())
      ensures a !in old(addressView) ==> var v := Victim(old(lines[..]));
        && OnlyWithin(old(data[..]), data[..], v * LINE_SIZE, (v + 1) * LINE_SIZE)
        && (r.Err? ==> addressView == old(addressView) && lines[..] == old(lines[..]))
        && (r.Ok? ==> r.value == v && addressView == old(addressView)[a := v])
        && (r.Ok? ==> lines[..] == old(lines[..])[v := old(lines[..])[v].(address := a, valid := true)])
        && (r.Ok? ==> a + LINE_SIZE <= |Memory()| && LineAt(data[..], v) == Line(Memory(), a))
    {
      if a in addressView {
        return Ok(addressView[a]);
      }
      var v := FindVictim();
      assert lines[v].tableIdx == v;
      var fetched := GetMemoryBytes(target, a, data, lines[v].tableIdx * LINE_SIZE, LINE_SIZE);
      if fetched.Err? {
        return Err(fetched.error);
      }
      lines[v] := lines[v].(address := a, valid := true);
      addressView := addressView[a := v];
      return Ok(v);
    }

    /** Ensures the line and marks it accessed, as read and read_byte do. */
    method AccessLine(a: nat) returns (r: Result<nat, Failure>)
      requires Valid() && a % LINE_SIZE == 0
      modifies this`addressView, data, lines, target`memoryCommands, target`timeouts
      ensures Valid() && Access(old(State()), State(), a, Memory(), r.Ok?)
      ensures r.Ok? ==> a in addressView && r.value == addressView[a]
      ensures AccessExplained(r.Ok?, a in old(addressView), a, old(target.Sent()), target.Sent())
    {
      ghost var s := State();
      r := EnsureValidCacheLine(a);
      if r.Ok? {
        lines[r.value] := lines[r.value].(accessed := true);
      }
      if a in s.av {
        assert State() == s;
      } else {
        MissKeepsConsistent(s.av, s.ls, a);
        assert r.Ok? ==> lines[..] == Filled(s.ls, a);
      }
    }

    /** std::copy from a line to dest[at..at + n]. */
    method CopyFromLine(line: nat, offset: nat, n: nat, dest: array<Byte>, at: nat)
      requires (line + 1) * LINE_SIZE <= data.Length && offset + n <= LINE_SIZE
      requires at + n <= dest.Length && dest != data
      modifies dest
      ensures OnlyWithin(old(dest[..]), dest[..], at, at + n)
      ensures Copied(dest[..], at, LineAt(data[..], line), offset, n)
    {
      for i := 0 to n
        invariant OnlyWithin(old(dest[..]), dest[..], at, at + n)
        invariant Copied(dest[..], at, LineAt(data[..], line), offset, i)
      {
        dest[at + i] := data[line * LINE_SIZE + offset + i];
      }
    }

    /** One round of the loop of read: an access, and a copy to dest[at..at + n]. */
    method ReadChunk(lineAddress: nat, offset: nat, n: nat, dest: array<Byte>, at: nat) returns (r: Result<(), Failure>)
      requires Valid() && dest != data && dest != target.memory
      requires lineAddress % LINE_SIZE == 0 && offset + n <= LINE_SIZE && at + n <= dest.Length
      modifies this`addressView, data, lines, target`memoryCommands, target`timeouts, dest
      ensures Valid() && Access(old(State()), State(), lineAddress, Memory(), r.Ok?)
      ensures OnlyWithin(old(dest[..]), dest[..], at, at + n)
      ensures r.Ok? ==> lineAddress in State().View() && |State().View()[lineAddress]| == LINE_SIZE
      ensures r.Ok? ==> Copied(dest[..], at, State().View()[lineAddress], offset, n)
      ensures r.Err? ==> dest[..] == old(dest[..])
      ensures AccessExplained(r.Ok?, lineAddress in old(addressView), lineAddress, old(target.Sent()), target.Sent())
      ensures r.Ok? ==> lineAddress in addressView
    {
      var line := AccessLine(lineAddress);
      if line.Err? {
        return Err(line.error);
      }
      ghost var s := State();
      CopyFromLine(line.value, offset, n, dest, at);
      assert State() == s;
      return Ok(());
    }

    /** The same, seen from the read it belongs to. */
    method ReadRound(ghost link: Link, ghost s: Snapshot, ghost d0: seq<Byte>, address: nat, dest: array<Byte>, pos: nat, offset: nat, n: nat)
      returns (r: Result<(), Failure>, ghost next: Chunk)
      requires Valid() && dest != data && dest != target.memory && pos < dest.Length
      requires Reading(s, State(), d0, dest[..], address, Memory(), Chunk(pos, offset, n))
      requires link.a == Base(address) && LinkSoFar(link, pos > 0, Base(address) in addressView, target.Sent())
      modifies this`addressView, data, lines, target`memoryCommands, target`timeouts, dest
      ensures Valid()
      ensures 0 < n <= dest.Length - pos
      ensures next == Chunk(pos + n, 0, Min(dest.Length - (pos + n), LINE_SIZE))
      ensures r.Ok? ==> Reading(s, State(), d0, dest[..], address, Memory(), next)
      ensures r.Err? ==> ReadFailed(s, State(), d0, dest[..], address, Memory())
      ensures r.Ok? ==> LinkSoFar(link, true, Base(address) in addressView, target.Sent())
      ensures r.Err? ==> LinkEnds(link, false, target.Sent())
    {
      next := Chunk(pos + n, 0, Min(dest.Length - (pos + n), LINE_SIZE));
      ghost var before := dest[..];
      NextChunk(address, dest.Length, pos, offset, n);
      r := ReadChunk(Base(address), offset, n, dest, pos);
      if r.Ok? {
        WrapMore(before, dest[..], pos, n, State().View()[Base(address)], address, offset);
      }
    }

    /** Reads into dest. As written, the line address does not advance: what is
        read is the line of the first byte, over and over. */
    method Read(address: nat, dest: array<Byte>) returns (r: Result<(), Failure>)
      requires Valid() && dest != data && dest != target.memory
      modifies this`addressView, data, lines, target`memoryCommands, target`timeouts, dest
      ensures Valid()
      ensures r.Ok? ==> ReadSoFar(old(State()), State(), old(dest[..]), dest[..], address, Memory(), dest.Length)
      ensures r.Err? ==> ReadFailed(old(State()), State(), old(dest[..]), dest[..], address, Memory())
      ensures AccessExplained(r.Ok?, dest.Length == 0 || Base(address) in old(addressView), Base(address),
                              old(target.Sent()), target.Sent())
    {
      ghost var s, d0 := State(), dest[..];
      ghost var link := Link(Base(address), Base(address) in addressView, target.Sent());
      var lineOffset := address % LINE_SIZE;
      var numBytes := Min(LINE_SIZE - lineOffset, dest.Length);
      var pos: nat := 0;
      ReadStarts(s, d0, address, Memory());
      while pos < dest.Length
        invariant pos <= dest.Length && Valid()
        invariant Reading(s, State(), d0, dest[..], address, Memory(), Chunk(pos, lineOffset, numBytes))
        invariant LinkSoFar(link, pos > 0, Base(address) in addressView, target.Sent())
      {
        ghost var next;
        r, next := ReadRound(link, s, d0, address, dest, pos, lineOffset, numBytes);
        if r.Err? {
          return;
        }
        lineOffset := 0;
        pos := pos + numBytes;
        numBytes := Min(dest.Length - pos, LINE_SIZE);
        assert Chunk(pos, lineOffset, numBytes) == next;
      }
      ReadEnds(s, State(), d0, dest[..], address, Memory(), lineOffset, numBytes);
      return Ok(());
    }

    method ReadByte(address: nat) returns (r: Result<Byte, Failure>)
      requires Valid()
      modifies this`addressView, data, lines, target`memoryCommands, target`timeouts
      ensures Valid() && Access(old(State()), State(), Base(address), Memory(), r.Ok?)
      ensures r.Ok? ==> Base(address) in State().View() && |State().View()[Base(address)]| == LINE_SIZE
      ensures r.Ok? ==> r.value == State().View()[Base(address)][address % LINE_SIZE]
      ensures AccessExplained(r.Ok?, Base(address) in old(addressView), Base(address), old(target.Sent()), target.Sent())
    {
      var line := AccessLine(Base(address));
      if line.Err? {
        return Err(line.error);
      }
      return Ok(data[line.value * LINE_SIZE + address % LINE_SIZE]);
    }

    /** A little-endian word; its high byte, too, comes from the line of the low one. */
    method ReadWord(address: nat) returns (r: Result<int, Failure>)
      requires Valid()
      modifies this`addressView, data, lines, target`memoryCommands, target`timeouts
      ensures Valid() && Access(old(State()), State(), Base(address), Memory(), r.Ok?)
      ensures r.Ok? ==> Base(address) in State().View() && |State().View()[Base(address)]| == LINE_SIZE
      ensures r.Ok? ==> var line := State().View()[Base(address)];
        r.value == (line[address % LINE_SIZE] as int) + 256 * (line[LineIndex(address % LINE_SIZE, 1)] as int)
      ensures AccessExplained(r.Ok?, Base(address) in old(addressView), Base(address), old(target.Sent()), target.Sent())
    {
      var wordBytes := new Byte[2];
      var read := Read(address, wordBytes);
      if read.Err? {
        return Err(read.error);
      }
      assert wordBytes[..][0] == wordBytes[0] && wordBytes[..][1] == wordBytes[1];
      assert LineIndex(address % LINE_SIZE, 0) == address % LINE_SIZE;
      return Ok((wordBytes[0] as int) + 256 * (wordBytes[1] as int));
    }

    /** The loop body of refresh_accessed for one mapped address. */
    method RefreshEntry(key: int)
      requires Shape() && key in addressView && 0 <= key && key % LINE_SIZE == 0
      modifies this`addressView, data, lines, target`memoryCommands, target`timeouts
      ensures Shape() && addressView == old(addressView) && data[..] == old(data[..])
      ensures target.Sent() == old(target.Sent())
      ensures lines[..] == old(lines[..])[addressView[key] := Refreshed(old(lines[addressView[key]]))]
    {
      var line := addressView[key];
      if lines[line].accessed {
        var _ := EnsureValidCacheLine(key);
      } else {
        lines[line] := lines[line].(address := 0, valid := false);
      }
      lines[line] := lines[line].(accessed := false);
    }

    /** After a step of the target. Every mapped line is found, so nothing is
        fetched; then every line counts as not accessed, and all of them are
        unmapped. Without aliases they stay valid. */
    method RefreshAccessed()
      requires Valid()
      modifies this`addressView, data, lines, target`memoryCommands, target`timeouts
      ensures Valid() && State().NoAlias() && addressView == map[]
      ensures data[..] == old(data[..]) && target.Sent() == old(target.Sent())
      ensures old(State().NoAlias()) ==> forall i | 0 <= i < lines.Length :: lines[..][i] == old(lines[..])[i].(accessed := false)
    {
      ghost var av, ls, d := addressView, lines[..], data[..];
      var todo := addressView.Keys;
      while todo != {}
        invariant Shape() && addressView == av && data[..] == d && todo <= av.Keys
        invariant target.Sent() == old(target.Sent())
        invariant RefreshedBut(av, ls, lines[..], todo)
        decreases |todo|
      {
        var key: int :| key in todo by {
          var _ := SomeElement(todo);
        }
        RefreshEntry(key);
        todo := todo - {key};
      }
      addressView := addressView - set k | k in addressView && !lines[addressView[k]].accessed;
      AllRefreshed(av, ls, lines[..]);
      assert forall k: int :: k !in addressView;
    }

    method Invalidate()
      requires Valid()
      modifies this`addressView, lines
      ensures Valid() && State().NoAlias() && addressView == map[]
      ensures forall i | 0 <= i < lines.Length :: !lines[i].valid && !lines[i].accessed
    {
      for k := 0 to lines.Length
        invariant Shape() && addressView == old(addressView)
        invariant forall i | 0 <= i < k :: !lines[i].valid && !lines[i].accessed
      {
        lines[k] := lines[k].(accessed := false, valid := false, address := 0);
      }
      addressView := map[];
    }
  }

  /** What refresh_accessed makes of a line each time it meets it. */
  function Refreshed(l: LineInfo): LineInfo {
    if l.accessed then l.(accessed := false) else l.(address := 0, valid := false)
  }

  /** The lines while refresh_accessed still has to visit the addresses of todo. */
  ghost predicate RefreshedBut(av: map<int, nat>, ls: seq<LineInfo>, now: seq<LineInfo>, todo: set<int>) {
    && |now| == |ls|
    && (forall i | 0 <= i < |ls| && now[i].accessed :: now[i] == ls[i] && ls[i].address in todo)
    && (AliasFree(av, ls) ==> forall i | 0 <= i < |ls| ::
          now[i] == if ls[i].accessed && ls[i].address !in todo then ls[i].(accessed := false) else ls[i])
  }

  lemma AllRefreshed(av: map<int, nat>, ls: seq<LineInfo>, now: seq<LineInfo>)
    requires RefreshedBut(av, ls, now, {})
    ensures forall i | 0 <= i < |now| :: !now[i].accessed
    ensures AliasFree(av, ls) ==> forall i | 0 <= i < |ls| :: now[i] == ls[i].(accessed := false)
  {
  }

  /** A read that threw: nothing is mapped and nothing is delivered. */
  ghost predicate ReadFailed(s: Snapshot, s': Snapshot, d0: seq<Byte>, d: seq<Byte>, address: nat, mem: seq<Byte>) {
    Access(s, s', Base(address), mem, false) && d == d0
  }

  /** A read of which pos bytes are done. */
  ghost predicate ReadSoFar(s: Snapshot, s': Snapshot, d0: seq<Byte>, d: seq<Byte>, address: nat, mem: seq<Byte>, pos: nat) {
    if pos == 0 then s' == s && d == d0
    else Access(s, s', Base(address), mem, true) && HoldsWrapped(d, s'.View(), address, pos)
  }

  /** The offset and the length of the round that starts at index pos. */
  predicate ChunkAt(address: nat, total: int, pos: int, offset: int, n: int) {
    0 <= pos < total && offset == LineIndex(address % LINE_SIZE, pos) && n == Min(LINE_SIZE - offset, total - pos)
  }

  /** What the next round copies: n bytes from the offset on, to index pos. */
  datatype Chunk = Chunk(pos: nat, offset: int, n: int)

  /** Between two rounds of a read. */
  ghost predicate Reading(s: Snapshot, s': Snapshot, d0: seq<Byte>, d: seq<Byte>, address: nat, mem: seq<Byte>, c: Chunk) {
    match c
    case Chunk(pos, offset, n) =>
      ReadSoFar(s, s', d0, d, address, mem, pos) && (pos < |d| ==> ChunkAt(address, |d|, pos, offset, n))
  }

  lemma ReadStarts(s: Snapshot, d: seq<Byte>, address: nat, mem: seq<Byte>)
    ensures Reading(s, s, d, d, address, mem, Chunk(0, address % LINE_SIZE, Min(LINE_SIZE - address % LINE_SIZE, |d|)))
  {
  }

  lemma ReadEnds(s: Snapshot, s': Snapshot, d0: seq<Byte>, d: seq<Byte>, address: nat, mem: seq<Byte>, offset: int, n: int)
    requires Reading(s, s', d0, d, address, mem, Chunk(|d|, offset, n))
    ensures ReadSoFar(s, s', d0, d, address, mem, |d|)
  {
  }

  lemma NextChunk(address: nat, total: int, pos: int, offset: int, n: int)
    requires ChunkAt(address, total, pos, offset, n)
    ensures 0 < n <= total - pos
    ensures pos + n < total ==> ChunkAt(address, total, pos + n, 0, Min(total - (pos + n), LINE_SIZE))
  {
    LineIndexGoesOn(address % LINE_SIZE, pos, n);
  }

  ghost predicate HoldsWrapped(d: seq<Byte>, v: View, address: nat, n: nat) {
    Base(address) in v && IsWrapped(d, v[Base(address)], address, n)
  }

  lemma WrapMore(d0: seq<Byte>, d: seq<Byte>, pos: nat, n: nat, line: seq<Byte>, address: nat, offset: nat)
    requires |line| == LINE_SIZE && pos + n <= |d0| && OnlyWithin(d0, d, pos, pos + n)
    requires Copied(d, pos, line, offset, n) && offset == LineIndex(address % LINE_SIZE, pos) && offset + n <= LINE_SIZE
    requires IsWrapped(d0, line, address, pos)
    ensures IsWrapped(d, line, address, pos + n)
  {
    forall i | 0 <= i < pos + n ensures d[i] == line[LineIndex(address % LINE_SIZE, i)] {
      if i >= pos {
        LineIndexGoesOn(address % LINE_SIZE, pos, i - pos);
      }
    }
  }
}
