/**
 MemoryCache::read of src/memory_cache.cpp with the one change that its loop needs:
 the line address moves on with every round. The rounds run on the bounded table of
 lines, so a read that misses on a full table can overwrite a line that one of its
 later rounds finds mapped. The result is memory exactly when that does no harm.
 */
module RepairedRead {
  import opened Common
  import opened Monitor
  import opened TargetMemory
  import opened MemoryCache

  function ChunkSize(offset: nat, n: nat): nat
    requires offset < LINE_SIZE
  {
    Min(LINE_SIZE - offset, n)
  }

  /** A read of n bytes that begins at the offset of the line at a: ss holds the
      cache before the first round and after every round. */
  ghost predicate Rounds(ss: seq<Snapshot>, mem: seq<Byte>, a: nat, offset: nat, n: nat)
    requires offset < LINE_SIZE
    decreases n
  {
    if n == 0 then |ss| == 1
    else |ss| > 1 && Access(ss[0], ss[1], a, mem, true) && Rounds(ss[1..], mem, a + LINE_SIZE, 0, n - ChunkSize(offset, n))
  }

  function Part(line: seq<Byte>, from: nat, n: nat): seq<Byte> {
    if from + n <= |line| then line[from..from + n] else []
  }

  /** What the rounds copy to the target. */
  ghost function Delivered(ss: seq<Snapshot>, mem: seq<Byte>, a: nat, offset: nat, n: nat): seq<Byte>
    requires offset < LINE_SIZE && Rounds(ss, mem, a, offset, n)
    decreases n
  {
    if n == 0 then []
    else
      var chunk := ChunkSize(offset, n);
      Part(Shown(ss[1], a), offset, chunk) + Delivered(ss[1..], mem, a + LINE_SIZE, 0, n - chunk)
  }

  /* Which line is overwritten, said of the cache before the read */

  /** How many lines from one address up to another are not mapped. */
  function Missed(av: map<int, nat>, first: int, a: int): nat
    decreases a - first
  {
    if a <= first then 0 else Missed(av, first, a - LINE_SIZE) + if a - LINE_SIZE in av then 0 else 1
  }

  /** The last line before a that is fetched when the free lines are used up. */
  function Overwriter(av: map<int, nat>, free: int, first: int, a: int): (y: Option<int>)
    requires free >= 0
    ensures y.Some? <==> Missed(av, first, a) > free
    decreases a - first
  {
    if a <= first then None
    else if a - LINE_SIZE !in av && Missed(av, first, a) > free then Some(a - LINE_SIZE)
    else Overwriter(av, free, first, a - LINE_SIZE)
  }

  function Free(s: Snapshot): int {
    |s.ls| - |s.av|
  }

  function LineOrNone(mem: seq<Byte>, a: int): seq<Byte> {
    if 0 <= a && a + LINE_SIZE <= |mem| then Line(mem, a) else []
  }

  /** The line at address a was mapped to the first line before the read, and the
      read has overwritten it when it gets there. */
  predicate Overwritten(s: Snapshot, first: int, a: int)
    requires |s.ls| > 0 && Free(s) >= 0
  {
    s.ls[0].accessed && a == s.ls[0].address && Overwriter(s.av, Free(s), first, a).Some?
  }

  /** What a round on address a shows. */
  function Foreseen(s: Snapshot, mem: seq<Byte>, first: int, a: int): seq<Byte>
    requires |s.ls| > 0 && Free(s) >= 0
  {
    LineOrNone(mem, if Overwritten(s, first, a) then Overwriter(s.av, Free(s), first, a).value else a)
  }

  /** Enough free lines so far: the cache is sound, and its first line is the one
      that was in use before, or one of this read. */
  ghost predicate Spare(s: Snapshot, s0: Snapshot, mem: seq<Byte>, first: int, a: int)
    requires |s.ls| == |s0.ls| > 0
  {
    && Sound(s, mem) && |s.av| == |s0.av| + Missed(s0.av, first, a)
    && (if s0.ls[0].accessed then s.ls[0] == s0.ls[0] else s.ls[0].accessed ==> s.ls[0].address < a)
  }

  /** All lines are in use, and the first one holds the line at y. */
  ghost predicate Crowded(s: Snapshot, s0: Snapshot, mem: seq<Byte>, y: int, a: int)
    requires |s.ls| == |s0.ls| > 0
  {
    && (forall l <- s.ls :: l.valid && l.accessed)
    && 0 <= y && y + LINE_SIZE <= |mem| && LineAt(s.d, 0) == Line(mem, y)
    && (forall k <- s.av | k >= a ::
          && (s.av[k] == 0 <==> s0.ls[0].accessed && k == s0.ls[0].address)
          && (s.av[k] != 0 ==> LineAt(s.d, s.av[k]) == LineOrNone(mem, k)))
  }

  /** Before the round on address a of a read that began at line first with s0. */
  ghost predicate Between(s: Snapshot, s0: Snapshot, mem: seq<Byte>, first: int, a: int) {
    && s.Valid() && |s.ls| == |s0.ls| > 0 && Free(s0) >= 0
    && (forall k: int | k >= a :: k in s.av <==> k in s0.av)
    && match Overwriter(s0.av, Free(s0), first, a)
       case None => Spare(s, s0, mem, first, a)
       case Some(y) => Crowded(s, s0, mem, y, a)
  }

  lemma Begins(s: Snapshot, mem: seq<Byte>, first: int)
    requires Sound(s, mem)
    ensures Between(s, s, mem, first, first)
  {
    RoomMeansFreeLine(s.av, s.ls);
  }

  lemma Hit(s: Snapshot, s0: Snapshot, mem: seq<Byte>, first: int, a: int)
    requires Between(s, s0, mem, first, a) && a in s.av && first <= a
    ensures Between(s, s0, mem, first, a + LINE_SIZE) && Shown(s, a) == Foreseen(s0, mem, first, a)
  {
    assert a in s0.av;
    assert Overwriter(s0.av, Free(s0), first, a + LINE_SIZE) == Overwriter(s0.av, Free(s0), first, a);
    if Overwriter(s0.av, Free(s0), first, a) == None {
      assert a in s.View();
    }
  }

  lemma MissWithRoom(s: Snapshot, s': Snapshot, s0: Snapshot, mem: seq<Byte>, first: int, a: nat)
    requires Between(s, s0, mem, first, a) && a !in s.av && first <= a && a % LINE_SIZE == 0
    requires Overwriter(s0.av, Free(s0), first, a) == None && |s.av| < |s.ls| && Access(s, s', a, mem, true)
    ensures Between(s', s0, mem, first, a + LINE_SIZE) && Shown(s', a) == Line(mem, a)
  {
    AccessKeepsCoherent(s, s', a, mem, true);
    MissVictim(s.av, s.ls, a);
    assert Missed(s0.av, first, a + LINE_SIZE) == Missed(s0.av, first, a) + 1;
    assert Overwriter(s0.av, Free(s0), first, a + LINE_SIZE) == None;
  }

  /** The first miss on a full table takes the first line. */
  lemma BecomesCrowded(s: Snapshot, s': Snapshot, s0: Snapshot, mem: seq<Byte>, first: int, a: nat)
    requires |s.ls| == |s0.ls| > 0 && Spare(s, s0, mem, first, a)
    requires a !in s.av && |s.av| >= |s.ls| && Access(s, s', a, mem, true)
    ensures |s'.ls| == |s.ls| && Crowded(s', s0, mem, a, a + LINE_SIZE)
  {
    MissVictim(s.av, s.ls, a);
    RoomMeansFreeLine(s.av, s.ls);
    forall k <- s.av | s.av[k] != 0 ensures LineAt(s'.d, s.av[k]) == LineOrNone(mem, k) {
      OtherLinesKept(s.d, s'.d, 0, s.av[k]);
      assert k in s.View();
    }
  }

  lemma MissWithoutRoom(s: Snapshot, s': Snapshot, s0: Snapshot, mem: seq<Byte>, first: int, a: nat)
    requires Between(s, s0, mem, first, a) && a !in s.av && first <= a && a % LINE_SIZE == 0
    requires Overwriter(s0.av, Free(s0), first, a) == None && |s.av| >= |s.ls| && Access(s, s', a, mem, true)
    ensures Between(s', s0, mem, first, a + LINE_SIZE) && Shown(s', a) == Line(mem, a)
  {
    BecomesCrowded(s, s', s0, mem, first, a);
    assert Missed(s0.av, first, a + LINE_SIZE) == Missed(s0.av, first, a) + 1;
    assert Overwriter(s0.av, Free(s0), first, a + LINE_SIZE) == Some(a);
    AccessKeepsValid(s, s', a, mem, true);
  }

  lemma MissWhenCrowded(s: Snapshot, s': Snapshot, s0: Snapshot, mem: seq<Byte>, first: int, a: nat)
    requires Between(s, s0, mem, first, a) && a !in s.av && first <= a && a % LINE_SIZE == 0
    requires Overwriter(s0.av, Free(s0), first, a).Some? && Access(s, s', a, mem, true)
    ensures Between(s', s0, mem, first, a + LINE_SIZE) && Shown(s', a) == Line(mem, a)
  {
    assert Victim(s.ls) == 0;
    assert Missed(s0.av, first, a + LINE_SIZE) == Missed(s0.av, first, a) + 1;
    assert Overwriter(s0.av, Free(s0), first, a + LINE_SIZE) == Some(a);
    AccessKeepsValid(s, s', a, mem, true);
    forall k <- s.av | k >= a && s.av[k] != 0 ensures LineAt(s'.d, s.av[k]) == LineOrNone(mem, k) {
      OtherLinesKept(s.d, s'.d, 0, s.av[k]);
    }
    assert Crowded(s', s0, mem, a, a + LINE_SIZE);
  }

  lemma OneRound(s: Snapshot, s': Snapshot, s0: Snapshot, mem: seq<Byte>, first: int, a: nat)
    requires Between(s, s0, mem, first, a) && first <= a && a % LINE_SIZE == 0 && s0.Valid()
    requires Access(s, s', a, mem, true)
    ensures Between(s', s0, mem, first, a + LINE_SIZE) && Shown(s', a) == Foreseen(s0, mem, first, a)
  {
    if a in s.av {
      Hit(s, s0, mem, first, a);
    } else {
      assert !Overwritten(s0, first, a);
      if Overwriter(s0.av, Free(s0), first, a).Some? {
        MissWhenCrowded(s, s', s0, mem, first, a);
      } else if |s.av| < |s.ls| {
        MissWithRoom(s, s', s0, mem, first, a);
      } else {
        MissWithoutRoom(s, s', s0, mem, first, a);
      }
    }
  }

  lemma BaseReaches(lineAddress: nat, last: nat)
    requires lineAddress % LINE_SIZE == 0 && lineAddress <= last
    ensures lineAddress <= Base(last) && (lineAddress + LINE_SIZE) % LINE_SIZE == 0
  {
    var q, p := lineAddress / 256, last / 256;
    assert lineAddress == 256 * q && last - last % 256 == 256 * p;
    assert q <= p;
  }

  lemma PartOfLine(mem: seq<Byte>, lineAddress: nat, offset: nat, n: nat)
    requires lineAddress + LINE_SIZE <= |mem| && offset + n <= LINE_SIZE
    ensures Line(mem, lineAddress)[offset..offset + n] == mem[lineAddress + offset..lineAddress + offset + n]
  {
    var part, whole := Line(mem, lineAddress)[offset..offset + n], mem[lineAddress + offset..lineAddress + offset + n];
    forall k | 0 <= k < n ensures part[k] == whole[k] {
      assert part[k] == Line(mem, lineAddress)[offset + k];
    }
  }

  lemma Consecutive(mem: seq<Byte>, i: nat, j: nat, k: nat)
    requires i <= j <= k <= |mem|
    ensures mem[i..j] + mem[j..k] == mem[i..k]
  {
  }

  /** What the rounds of a read copy, foreseen. */
  function ForeseenAll(s: Snapshot, mem: seq<Byte>, first: int, a: nat, offset: nat, n: nat): seq<Byte>
    requires offset < LINE_SIZE && |s.ls| > 0 && Free(s) >= 0
    decreases n
  {
    if n == 0 then []
    else
      var chunk := ChunkSize(offset, n);
      Part(Foreseen(s, mem, first, a), offset, chunk) + ForeseenAll(s, mem, first, a + LINE_SIZE, 0, n - chunk)
  }

  lemma {:induction false} RoundsDeliver(ss: seq<Snapshot>, s0: Snapshot, mem: seq<Byte>, first: int, a: nat, offset: nat, n: nat)
    requires offset < LINE_SIZE && Rounds(ss, mem, a, offset, n) && s0.Valid()
    requires Between(ss[0], s0, mem, first, a) && first <= a && a % LINE_SIZE == 0
    ensures Delivered(ss, mem, a, offset, n) == ForeseenAll(s0, mem, first, a, offset, n)
    decreases n
  {
    if n > 0 {
      OneRound(ss[0], ss[1], s0, mem, first, a);
      var rest := n - ChunkSize(offset, n);
      NextLine(a);
      assert ss[1..][0] == ss[1];
      RoundsDeliver(ss[1..], s0, mem, first, a + LINE_SIZE, 0, rest);
      assert Delivered(ss, mem, a, offset, n)
        == Part(Shown(ss[1], a), offset, ChunkSize(offset, n)) + Delivered(ss[1..], mem, a + LINE_SIZE, 0, rest);
    }
  }

  lemma {:induction false} OverwriterIsEarlier(av: map<int, nat>, free: int, first: nat, a: nat)
    requires free >= 0 && first % LINE_SIZE == 0 && a % LINE_SIZE == 0 && Overwriter(av, free, first, a).Some?
    ensures first <= Overwriter(av, free, first, a).value <= a - LINE_SIZE
    decreases a
  {
    if !(a - LINE_SIZE !in av && Missed(av, first, a) > free) {
      OverwriterIsEarlier(av, free, first, a - LINE_SIZE);
    }
  }

  /** The read gets to an overwritten line before its end only if the line that
      overwrote it holds the same bytes where they are wanted. */
  predicate Harmless(s: Snapshot, mem: seq<Byte>, first: int, end: int)
    requires |s.ls| > 0 && Free(s) >= 0
  {
    var z := s.ls[0].address;
    Overwritten(s, first, z) && z < end ==>
      Part(Foreseen(s, mem, first, z), 0, Min(LINE_SIZE, end - z)) == Part(LineOrNone(mem, z), 0, Min(LINE_SIZE, end - z))
  }

  lemma SameParts(x: seq<Byte>, y: seq<Byte>, s: seq<Byte>, t: seq<Byte>)
    requires |x| == |y|
    ensures x + s == y + t <==> x == y && s == t
  {
    if x + s == y + t {
      assert (x + s)[..|x|] == x && (y + t)[..|y|] == y;
      assert (x + s)[|x|..] == s && (y + t)[|y|..] == t;
    }
  }

  lemma PartOfMemory(mem: seq<Byte>, a: nat, offset: nat, n: nat)
    requires a + LINE_SIZE <= |mem| && offset + n <= LINE_SIZE
    ensures Part(LineOrNone(mem, a), offset, n) == mem[a + offset..a + offset + n]
  {
    PartOfLine(mem, a, offset, n);
  }

  /** One round's part, right or wrong. */
  lemma RoundIsMemoryIff(s: Snapshot, mem: seq<Byte>, first: nat, a: nat, offset: nat, n: nat, end: nat)
    requires end == a + offset + n && s.Valid() && Free(s) >= 0 && offset < LINE_SIZE && n > 0 && a + LINE_SIZE <= |mem|
    requires first <= a && first % LINE_SIZE == 0 && a % LINE_SIZE == 0 && (a == first || offset == 0)
    ensures var part := Part(Foreseen(s, mem, first, a), offset, ChunkSize(offset, n));
      && |part| == ChunkSize(offset, n)
      && (part == mem[a + offset..a + offset + ChunkSize(offset, n)] <==>
          (s.ls[0].address == a ==> Harmless(s, mem, first, end)))
  {
    PartOfMemory(mem, a, offset, ChunkSize(offset, n));
    if Overwritten(s, first, a) {
      OverwriterIsEarlier(s.av, Free(s), first, a);
    }
  }

  lemma MultiplesDoNotLieBetween(a: int, z: int)
    requires a % LINE_SIZE == 0 && z % LINE_SIZE == 0
    ensures !(a < z < a + LINE_SIZE)
  {
  }

  /** Lines in use start at multiples of the line size. */
  lemma NotInsideALine(s: Snapshot, mem: seq<Byte>, first: int, a: nat, end: int)
    requires s.Valid() && Free(s) >= 0 && a % LINE_SIZE == 0
    ensures a < s.ls[0].address < a + LINE_SIZE ==> Harmless(s, mem, first, end)
  {
    if s.ls[0].accessed {
      assert s.ls[0].address in s.av;
      MultiplesDoNotLieBetween(a, s.ls[0].address);
    }
  }

  lemma TwoParts(mem: seq<Byte>, from: nat, mid: nat, end: nat, part: seq<Byte>, rest: seq<Byte>)
    requires from <= mid <= end <= |mem| && |part| == mid - from
    ensures part + rest == mem[from..end] <==> part == mem[from..mid] && rest == mem[mid..end]
  {
    Consecutive(mem, from, mid, end);
    SameParts(part, mem[from..mid], rest, mem[mid..end]);
  }

  /** Where the next round's bytes go on in memory. */
  lemma NextRound(a: nat, offset: nat, n: nat, end: nat)
    requires offset < LINE_SIZE && n > 0 && end == a + offset + n && a % LINE_SIZE == 0
    ensures var chunk := ChunkSize(offset, n);
      && (n > chunk ==> a + LINE_SIZE == a + offset + chunk)
      && a <= Base(end - 1) && (a + LINE_SIZE) % LINE_SIZE == 0
      && (n <= chunk ==> n == chunk && end <= a + LINE_SIZE)
  {
    BaseReaches(a, end - 1);
  }

  lemma {:induction false} ForeseenIsMemoryIff(s: Snapshot, mem: seq<Byte>, first: nat, a: nat, offset: nat, n: nat, end: nat)
    requires s.Valid() && Free(s) >= 0 && offset < LINE_SIZE && end == a + offset + n <= |mem|
    requires n > 0 ==> Base(end - 1) + LINE_SIZE <= |mem|
    requires first <= a && first % LINE_SIZE == 0 && a % LINE_SIZE == 0 && (a == first || offset == 0)
    ensures ForeseenAll(s, mem, first, a, offset, n) == mem[a + offset..end]
      <==> (a <= s.ls[0].address < end ==> Harmless(s, mem, first, end))
    decreases n
  {
    if n > 0 {
      NextRound(a, offset, n, end);
      ForeseenSplitIff(s, mem, first, a, offset, n, end);
      NotInsideALine(s, mem, first, a, end);
      if n > ChunkSize(offset, n) {
        ForeseenIsMemoryIff(s, mem, first, a + LINE_SIZE, 0, n - ChunkSize(offset, n), end);
      }
    }
  }

  /** One round and the rounds behind it. */
  lemma ForeseenSplitIff(s: Snapshot, mem: seq<Byte>, first: nat, a: nat, offset: nat, n: nat, end: nat)
    requires s.Valid() && Free(s) >= 0 && offset < LINE_SIZE && n > 0 && end == a + offset + n <= |mem|
    requires a + LINE_SIZE <= |mem|
    requires first <= a && first % LINE_SIZE == 0 && a % LINE_SIZE == 0 && (a == first || offset == 0)
    ensures var rest := n - ChunkSize(offset, n);
      ForeseenAll(s, mem, first, a, offset, n) == mem[a + offset..end] <==>
        && (s.ls[0].address == a ==> Harmless(s, mem, first, end))
        && (rest > 0 ==> ForeseenAll(s, mem, first, a + LINE_SIZE, 0, rest) == mem[a + LINE_SIZE + 0..end])
  {
    var chunk := ChunkSize(offset, n);
    var from, mid := a + offset, a + offset + chunk;
    RoundIsMemoryIff(s, mem, first, a, offset, n, end);
    var part, rest := Part(Foreseen(s, mem, first, a), offset, chunk), ForeseenAll(s, mem, first, a + LINE_SIZE, 0, n - chunk);
    TwoParts(mem, from, mid, end, part, rest);
    assert n > chunk ==> a + LINE_SIZE + 0 == mid;
    assert n == chunk ==> rest == [] && mem[mid..end] == [];
  }

  /** The repaired read of n bytes, from an offset in the line at first, is a read of
      memory exactly if the one line that it can find overwritten does no harm. */
  lemma ReadIsDirectIff(ss: seq<Snapshot>, mem: seq<Byte>, first: nat, offset: nat, n: nat, end: nat)
    requires first % LINE_SIZE == 0 && offset < LINE_SIZE && end == first + offset + n <= |mem|
    requires n > 0 ==> Base(end - 1) + LINE_SIZE <= |mem|
    requires Rounds(ss, mem, first, offset, n) && Sound(ss[0], mem)
    ensures Free(ss[0]) >= 0
    ensures Delivered(ss, mem, first, offset, n) == mem[first + offset..end] <==> Harmless(ss[0], mem, first, end)
  {
    Begins(ss[0], mem, first);
    RoundsDeliver(ss, ss[0], mem, first, first, offset, n);
    ForeseenIsMemoryIff(ss[0], mem, first, first, offset, n, end);
    if ss[0].ls[0].address <= first || ss[0].ls[0].address >= end {
      BeforeIsHarmless(ss[0], mem, first, end);
    }
  }

  lemma BeforeIsHarmless(s: Snapshot, mem: seq<Byte>, first: int, end: int)
    requires |s.ls| > 0 && Free(s) >= 0 && (s.ls[0].address <= first || s.ls[0].address >= end)
    ensures Harmless(s, mem, first, end)
  {
  }

  lemma {:induction false} MissedGrows(av: map<int, nat>, first: int, a: int, b: int)
    requires a <= b && first % LINE_SIZE == 0 && a % LINE_SIZE == 0 && b % LINE_SIZE == 0
    ensures Missed(av, first, a) <= Missed(av, first, b)
    decreases b - a
  {
    if a < b {
      MissedGrows(av, first, a, b - LINE_SIZE);
    }
  }

  /** With as many lines free as the read has to fetch, up to its last line, it is a
      read of memory. */
  lemma ReadWithRoomIsDirect(ss: seq<Snapshot>, mem: seq<Byte>, first: nat, offset: nat, n: nat, end: nat, last: nat)
    requires first % LINE_SIZE == 0 && offset < LINE_SIZE && n > 0 && end == first + offset + n <= |mem|
    requires last == Base(end - 1) && last % LINE_SIZE == 0 && last + LINE_SIZE <= |mem|
    requires Rounds(ss, mem, first, offset, n) && Sound(ss[0], mem)
    requires |ss[0].av| + Missed(ss[0].av, first, last + LINE_SIZE) <= |ss[0].ls|
    ensures Delivered(ss, mem, first, offset, n) == mem[first + offset..end]
  {
    ReadIsDirectIff(ss, mem, first, offset, n, end);
    RoomIsHarmless(ss[0], mem, first, last, end);
  }

  lemma RoomIsHarmless(s: Snapshot, mem: seq<Byte>, first: nat, last: nat, end: nat)
    requires s.Valid() && Free(s) >= 0 && first % LINE_SIZE == 0 && last % LINE_SIZE == 0 && end <= last + LINE_SIZE
    requires Missed(s.av, first, last + LINE_SIZE) <= Free(s)
    ensures Harmless(s, mem, first, end)
  {
    var z := s.ls[0].address;
    if s.ls[0].accessed && z < end {
      assert z in s.av;
      NextLine(last);
      MissedGrows(s.av, first, z, last + LINE_SIZE);
    }
  }

  lemma NextLine(a: nat)
    requires a % LINE_SIZE == 0
    ensures (a + LINE_SIZE) % LINE_SIZE == 0
  {
  }

  const ONE_LINE_OF_ONES: seq<Byte> := seq(1024, i => if 256 <= i < 512 then 1 else 0)

  const FULL_TABLE := Snapshot(map[512 := 0, 768 := 1], [LineInfo(0, 512, true, true), LineInfo(1, 768, true, true)], seq(512, _ => 0))

  lemma FullTableIsSound()
    ensures Sound(FULL_TABLE, ONE_LINE_OF_ONES) && Sized(FULL_TABLE)
  {
    var s, mem := FULL_TABLE, ONE_LINE_OF_ONES;
    assert s.View().Keys == {512, 768};
    assert s.View()[512] == Line(mem, 512) && s.View()[768] == Line(mem, 768);
  }

  lemma TwoRounds(s: Snapshot, s': Snapshot, mem: seq<Byte>, a: nat, n: nat)
    requires n == 2 * LINE_SIZE && Access(s, s', a, mem, true) && a + LINE_SIZE in s'.av
    ensures Rounds([s, s', s'], mem, a, 0, n)
  {
    assert [s, s', s'][1..] == [s', s'] && [s', s'][1..] == [s'];
    assert Rounds([s'], mem, a + LINE_SIZE + LINE_SIZE, 0, 0);
    assert Rounds([s', s'], mem, a + LINE_SIZE, 0, LINE_SIZE);
  }

  /** A full table of two lines, mapped from 512 and 768: every read of two lines from
      256 on shows the first line twice. */
  lemma ReadCanShowAnotherLine(ss: seq<Snapshot>)
    requires Rounds(ss, ONE_LINE_OF_ONES, 256, 0, 2 * LINE_SIZE) && ss[0] == FULL_TABLE
    ensures Delivered(ss, ONE_LINE_OF_ONES, 256, 0, 2 * LINE_SIZE) != ONE_LINE_OF_ONES[256..256 + 2 * LINE_SIZE]
  {
    FullTableIsSound();
    OverwrittenExample(FULL_TABLE, ONE_LINE_OF_ONES);
    ReadIsDirectIff(ss, ONE_LINE_OF_ONES, 256, 0, 2 * LINE_SIZE, 256 + 2 * LINE_SIZE);
  }

  /** And there is such a read. */
  lemma ReadOfFullTable() returns (ss: seq<Snapshot>)
    ensures Rounds(ss, ONE_LINE_OF_ONES, 256, 0, 2 * LINE_SIZE) && ss[0] == FULL_TABLE
  {
    FullTableIsSound();
    AccessedIsAccess(FULL_TABLE, 256, ONE_LINE_OF_ONES);
    var s' := Accessed(FULL_TABLE, 256, ONE_LINE_OF_ONES);
    ss := [FULL_TABLE, s', s'];
    TwoRounds(FULL_TABLE, s', ONE_LINE_OF_ONES, 256, 2 * LINE_SIZE);
  }

  lemma OverwrittenExample(s: Snapshot, mem: seq<Byte>)
    requires |s.ls| == 2 && s.ls[0].accessed && s.ls[0].address == 512 && 256 !in s.av && |s.av| == 2
    requires |mem| == 1024 && mem[256] != mem[512]
    ensures !Harmless(s, mem, 256, 768)
  {
    assert Missed(s.av, 256, 256) == 0 && Missed(s.av, 256, 512) == 1;
    assert Overwriter(s.av, 0, 256, 512) == Some(256);
    assert Line(mem, 256)[0] == mem[256] && Line(mem, 512)[0] == mem[512];
    assert Part(LineOrNone(mem, 256), 0, 256)[0] == mem[256] && Part(LineOrNone(mem, 512), 0, 256)[0] == mem[512];
  }
}
