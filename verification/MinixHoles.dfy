/**
 What read would have to deliver, and when it does: the file's own end, and the file's own
 blocks. The slots of a file are its leaf zones by block number, with zero for a hole; read
 goes through the leaf zones that are not zero.
 */
module MinixHoles {
  import opened Common
  import opened Cpu
  import opened Disk
  import opened MinixFile

  // ---------------------------------------------------------------- the end of the file

  /** The bytes from offset on that a file of isize bytes has to give for a request of `size`. */
  function FileCount(isize: nat, size: nat, offset: nat): nat
  {
    if offset >= isize then 0 else Min(size, isize - offset)
  }

  /** The blocks a file of isize bytes has. */
  function BlocksOf(isize: nat): (n: nat)
    ensures BLOCK_SIZE * n >= isize && (n > 0 ==> BLOCK_SIZE * (n - 1) < isize)
  {
    (isize + 1023) / 1024
  }

  /** The request begins at the start, asks for nothing, ends within the file, begins past its last block, or its last block is full. */
  predicate EndsRight(isize: nat, size: nat, offset: nat)
  {
    || offset == 0 || size == 0 || offset + size <= isize
    || offset >= BLOCK_SIZE * BlocksOf(isize) || isize == BLOCK_SIZE * BlocksOf(isize)
  }

  /** read, which does not subtract the offset, returns the file's own count exactly under this condition. */
  lemma {:induction false} ReadEndIff(d: seq<Byte>, ino: Inode, size: nat, offset: nat, buf: seq<Byte>)
    requires GoodInode(d, ino) && Min(size, ino.size) <= |buf| && |FileZones(d, ino, 10)| == BlocksOf(ino.size)
    ensures AllOnDisk(d, FileZones(d, ino, 10))
    ensures var st := VisitAll(d, offset / BLOCK_SIZE, StartState(offset, Min(size, ino.size), buf), FileZones(d, ino, 10));
            st.read == FileCount(ino.size, size, offset) <==> EndsRight(ino.size, size, offset)
  {
    hide FileZones, VisitAll, GoodInode;
    ReadReturns(d, ino, offset, Min(size, ino.size), buf);
    CountIsFileCount(ino.size, size, offset);
  }

  lemma {:induction false} CountIsFileCount(isize: nat, size: nat, offset: nat)
    ensures Count(BlocksOf(isize), offset, Min(size, isize)) == FileCount(isize, size, offset) <==> EndsRight(isize, size, offset)
  {
  }

  /** For instance 10 bytes asked for at offset 8 of a file of 10: read reports 10, and the file has 2 more. */
  lemma {:induction false} ReadsPastEnd()
    ensures BlocksOf(10) == 1 && Count(1, 8, Min(10, 10)) == 10 && FileCount(10, 10, 8) == 2
  {
  }

  // ---------------------------------------------------------------- slots

  /** How many leaf slots a pointer of a level stands for. */
  function Width(level: nat): nat { if level == 0 then 1 else NUM_IPTRS * Width(level - 1) }

  function Zeros(n: nat): (s: seq<nat>)
    ensures |s| == n
  {
    seq(n, _ => 0)
  }

  /** The leaf slots under a pointer, in order of block number. */
  ghost function SlotsUnder(d: seq<Byte>, z: nat, level: nat): seq<nat>
    requires z != 0 ==> Good(d, z, level)
    decreases level, NUM_IPTRS + 1
  {
    if level == 0 then [z]
    else if z == 0 then Zeros(Width(level))
    else SlotsBelow(d, z, level, NUM_IPTRS)
  }

  ghost function SlotsBelow(d: seq<Byte>, z: nat, level: nat, n: nat): seq<nat>
    requires Good(d, z, level) && level > 0 && n <= NUM_IPTRS
    decreases level, n
  {
    if n == 0 then [] else SlotsBelow(d, z, level, n - 1) + SlotsUnder(d, Pointer(d, z, n - 1), level - 1)
  }

  /** The slots of the first n zones of an inode. */
  ghost function FileSlots(d: seq<Byte>, ino: Inode, n: nat): seq<nat>
    requires GoodInode(d, ino) && n <= 10
  {
    if n == 0 then [] else FileSlots(d, ino, n - 1) + SlotsUnder(d, ino.zones[n - 1], ZoneLevel(n - 1))
  }

  function NonZero(s: seq<nat>): seq<nat>
  {
    if s == [] then [] else NonZero(s[..|s| - 1]) + if s[|s| - 1] == 0 then [] else [s[|s| - 1]]
  }

  lemma {:induction false} NonZeroAppend(a: seq<nat>, b: seq<nat>)
    ensures NonZero(a + b) == NonZero(a) + NonZero(b)
  {
    if b == [] {
      assert a + b == a;
    } else {
      var n := |b| - 1;
      assert (a + b)[..|a + b| - 1] == a + b[..n];
      NonZeroAppend(a, b[..n]);
    }
  }

  lemma {:induction false} NonZeroZeros(n: nat)
    ensures NonZero(Zeros(n)) == []
  {
    if n > 0 {
      assert Zeros(n)[..n - 1] == Zeros(n - 1);
      NonZeroZeros(n - 1);
    }
  }

  lemma {:induction false} LeavesAreSlots(d: seq<Byte>, z: nat, level: nat)
    requires z != 0 ==> Good(d, z, level)
    ensures NonZero(SlotsUnder(d, z, level)) == if z == 0 then [] else Leaves(d, z, level)
    decreases level, NUM_IPTRS + 1
  {
    if level == 0 {
      assert [z][..0] == [];
    } else if z == 0 {
      NonZeroZeros(Width(level));
    } else {
      LeavesBelowAreSlots(d, z, level, NUM_IPTRS);
    }
  }

  lemma {:induction false} LeavesBelowAreSlots(d: seq<Byte>, z: nat, level: nat, n: nat)
    requires Good(d, z, level) && level > 0 && n <= NUM_IPTRS
    ensures NonZero(SlotsBelow(d, z, level, n)) == LeavesBelow(d, z, level, n)
    decreases level, n
  {
    hide Pointer, NonZero, SlotsUnder, SlotsBelow, Leaves, LeavesBelow, Good;
    if n == 0 {
      BelowNone(d, z, level);
      SlotsNone(d, z, level);
    } else {
      SlotsStep(d, z, level, n);
      BelowStep(d, z, level, n);
      var p := Pointer(d, z, n - 1);
      LeavesBelowAreSlots(d, z, level, n - 1);
      LeavesAreSlots(d, p, level - 1);
      NonZeroAppend(SlotsBelow(d, z, level, n - 1), SlotsUnder(d, p, level - 1));
    }
  }

  lemma {:induction false} SlotsNone(d: seq<Byte>, z: nat, level: nat)
    requires Good(d, z, level) && level > 0
    ensures SlotsBelow(d, z, level, 0) == [] && NonZero([]) == []
  {
  }

  lemma {:induction false} SlotsStep(d: seq<Byte>, z: nat, level: nat, n: nat)
    requires Good(d, z, level) && level > 0 && 0 < n <= NUM_IPTRS
    ensures OnDisk(d, z)
    ensures var p := Pointer(d, z, n - 1);
            && (p != 0 ==> Good(d, p, level - 1))
            && SlotsBelow(d, z, level, n) == SlotsBelow(d, z, level, n - 1) + SlotsUnder(d, p, level - 1)
  {
    hide Pointer;
  }

  /** read goes through the slots that are not zero. */
  lemma {:induction false} ZonesAreSlots(d: seq<Byte>, ino: Inode, n: nat)
    requires GoodInode(d, ino) && n <= 10
    ensures FileZones(d, ino, n) == NonZero(FileSlots(d, ino, n))
  {
    if n > 0 {
      hide NonZero, SlotsUnder, Leaves;
      ZonesAreSlots(d, ino, n - 1);
      LeavesAreSlots(d, ino.zones[n - 1], ZoneLevel(n - 1));
      NonZeroAppend(FileSlots(d, ino, n - 1), SlotsUnder(d, ino.zones[n - 1], ZoneLevel(n - 1)));
    }
  }

  // ---------------------------------------------------------------- where a block's zone number is stored

  /** Numbers stored one after the other in four bytes each, least significant byte first. */
  function Stored(xs: seq<nat>): (b: seq<Byte>)
    ensures |b| == 4 * |xs|
  {
    seq(4 * |xs|, j requires 0 <= j < 4 * |xs| => ByteOf(xs[j / 4], j % 4))
  }

  lemma {:induction false} StoredReads(xs: seq<nat>, i: nat)
    requires i < |xs| && xs[i] < 0x1_0000_0000
    ensures U32(Stored(xs), i) == xs[i]
  {
    hide Stored, ByteOf, LittleEndian;
    LittleEndianReads(xs[i]);
    StoredByte(xs, i, 0);
    StoredByte(xs, i, 1);
    StoredByte(xs, i, 2);
    StoredByte(xs, i, 3);
  }

  lemma {:induction false} StoredByte(xs: seq<nat>, i: nat, j: nat)
    requires i < |xs| && j < 4
    ensures Stored(xs)[4 * i + j] == ByteOf(xs[i], j)
  {
    hide ByteOf;
    QuotientIs(4 * i + j, 4, i, j);
  }

  /** A pointer block that stores these zone numbers has exactly them as its slots, and them without the zeros as its leaves. */
  lemma {:induction false} PointerBlockReads(d: seq<Byte>, z: nat, xs: seq<nat>)
    requires Good(d, z, 1) && z != 0 && OnDisk(d, z) && |xs| == NUM_IPTRS && Block(d, z) == Stored(xs)
    requires forall i :: 0 <= i < |xs| ==> xs[i] < 0x1_0000_0000
    ensures forall i :: 0 <= i < NUM_IPTRS ==> Pointer(d, z, i) == xs[i]
    ensures SlotsUnder(d, z, 1) == xs && Leaves(d, z, 1) == NonZero(xs)
  {
    hide Leaves, NonZero, Good, Pointer, Stored, Block, SlotsBelow;
    GoodThere(d, z, 1);
    PointersAre(d, z, xs);
    SlotsOfOne(d, z, xs, NUM_IPTRS);
    assert xs[..NUM_IPTRS] == xs;
    LeavesAreSlots(d, z, 1);
  }

  lemma {:induction false} PointersAre(d: seq<Byte>, z: nat, xs: seq<nat>)
    requires OnDisk(d, z) && |xs| == NUM_IPTRS && Block(d, z) == Stored(xs)
    requires forall i :: 0 <= i < |xs| ==> xs[i] < 0x1_0000_0000
    ensures forall i :: 0 <= i < NUM_IPTRS ==> Pointer(d, z, i) == xs[i]
  {
    hide Stored, Block, U32;
    forall i | 0 <= i < NUM_IPTRS ensures Pointer(d, z, i) == xs[i] { StoredReads(xs, i); }
  }

  lemma {:induction false} SlotsOfOne(d: seq<Byte>, z: nat, xs: seq<nat>, n: nat)
    requires Good(d, z, 1) && n <= NUM_IPTRS == |xs| && forall i :: 0 <= i < NUM_IPTRS ==> Pointer(d, z, i) == xs[i]
    ensures SlotsBelow(d, z, 1, n) == xs[..n]
  {
    hide Pointer, Good;
    if n == 0 {
      SlotsNone(d, z, 1);
    } else {
      SlotsStep(d, z, 1, n);
      SlotsOfOne(d, z, xs, n - 1);
      assert xs[..n] == xs[..n - 1] + [xs[n - 1]];
    }
  }

  lemma {:induction false} TimesAtMost(a: nat, b: nat, w: nat)
    requires a <= b
    ensures a * w <= b * w && (a + 1) * w == a * w + w
  {
  }

  lemma {:induction false} SlotsUnderSize(d: seq<Byte>, z: nat, level: nat)
    requires z != 0 ==> Good(d, z, level)
    ensures |SlotsUnder(d, z, level)| == Width(level)
    decreases level, NUM_IPTRS + 1
  {
    if level > 0 && z != 0 { SlotsBelowSize(d, z, level, NUM_IPTRS); }
  }

  lemma {:induction false} SlotsBelowSize(d: seq<Byte>, z: nat, level: nat, n: nat)
    requires Good(d, z, level) && level > 0 && n <= NUM_IPTRS
    ensures |SlotsBelow(d, z, level, n)| == n * Width(level - 1)
    decreases level, n
  {
    hide Pointer, Good, SlotsUnder, Width;
    if n == 0 {
      SlotsNone(d, z, level);
    } else {
      SlotsStep(d, z, level, n);
      SlotsBelowSize(d, z, level, n - 1);
      SlotsUnderSize(d, Pointer(d, z, n - 1), level - 1);
      TimesAtMost(n - 1, n, Width(level - 1));
    }
  }

  /** Pointer i of block z; a block that is not there has none. */
  function PointerIn(d: seq<Byte>, z: nat, i: nat): nat
    requires i < NUM_IPTRS
  {
    if z == 0 || !OnDisk(d, z) then 0 else Pointer(d, z, i)
  }

  /** Slot j under pointer i comes after all slots under the pointers before it. */
  lemma {:induction false} SlotBelow(d: seq<Byte>, z: nat, level: nat, n: nat, i: nat, j: nat, w: nat, at: nat)
    requires Good(d, z, level) && OnDisk(d, z) && level > 0 && i < n <= NUM_IPTRS
    requires w == Width(level - 1) && j < w && at == i * w + j
    ensures var p := Pointer(d, z, i);
            && (p != 0 ==> Good(d, p, level - 1))
            && at < |SlotsBelow(d, z, level, n)| && j < |SlotsUnder(d, p, level - 1)|
            && SlotsBelow(d, z, level, n)[at] == SlotsUnder(d, p, level - 1)[j]
    decreases n
  {
    hide Pointer, Good, SlotsUnder, SlotsBelow, Width;
    SlotsStep(d, z, level, n);
    SlotsBelowSize(d, z, level, n - 1);
    SlotsUnderSize(d, Pointer(d, z, n - 1), level - 1);
    if i < n - 1 {
      TimesAtMost(i + 1, n - 1, w);
      TimesAtMost(i, i + 1, w);
      SlotBelow(d, z, level, n - 1, i, j, w, at);
    }
  }

  lemma {:induction false} SlotUnder(d: seq<Byte>, z: nat, level: nat, i: nat, j: nat, w: nat, at: nat)
    requires (z != 0 ==> Good(d, z, level) && OnDisk(d, z)) && level > 0 && i < NUM_IPTRS
    requires w == Width(level - 1) && j < w && at == i * w + j
    ensures var p := PointerIn(d, z, i);
            && (p != 0 ==> Good(d, p, level - 1) && OnDisk(d, p))
            && at < |SlotsUnder(d, z, level)| && j < |SlotsUnder(d, p, level - 1)|
            && SlotsUnder(d, z, level)[at] == SlotsUnder(d, p, level - 1)[j]
  {
    hide Pointer, Good, SlotsBelow;
    SlotsUnderSize(d, z, level);
    if z == 0 {
      SlotsUnderSize(d, 0, level - 1);
      TimesAtMost(i + 1, NUM_IPTRS, w);
      TimesAtMost(i, i + 1, w);
    } else {
      SlotBelow(d, z, level, NUM_IPTRS, i, j, w, at);
      if PointerIn(d, z, i) != 0 { GoodThere(d, PointerIn(d, z, i), level - 1); }
    }
  }

  lemma {:induction false} Widths()
    ensures Width(0) == 1 && Width(1) == 256 && Width(2) == 65536 && Width(3) == 16777216
  {
    assert Width(1) == NUM_IPTRS * Width(0);
    assert Width(2) == NUM_IPTRS * Width(1);
    assert Width(3) == NUM_IPTRS * Width(2);
  }

  /** The zone of file block k: seven in the inode, then 256, 256 * 256 and 256 * 256 * 256 behind one, two and three pointers. */
  function ZoneOfBlock(d: seq<Byte>, zones: seq<nat>, k: nat): nat
    requires |zones| == 10 && k < 16843015
  {
    if k < 7 then zones[k]
    else if k < 263 then PointerIn(d, zones[7], k - 7)
    else if k < 65799 then
      var x := k - 263;
      PointerIn(d, PointerIn(d, zones[8], x / 256), x % 256)
    else
      var x := k - 65799;
      PointerIn(d, PointerIn(d, PointerIn(d, zones[9], x / 65536), x / 256 % 256), x % 256)
  }

  function BlocksBefore(n: nat): nat
  {
    if n <= 7 then n else if n == 8 then 263 else if n == 9 then 65799 else 16843015
  }

  lemma {:induction false} FileSlotsSize(d: seq<Byte>, ino: Inode, n: nat)
    requires GoodInode(d, ino) && n <= 10
    ensures |FileSlots(d, ino, n)| == BlocksBefore(n)
  {
    hide SlotsUnder, Good;
    if n > 0 {
      FileSlotsSize(d, ino, n - 1);
      SlotsUnderSize(d, ino.zones[n - 1], ZoneLevel(n - 1));
      Widths();
    }
  }

  lemma {:induction false} SlotOfZone(d: seq<Byte>, ino: Inode, n: nat, j: nat)
    requires GoodInode(d, ino) && n < 10 && j < Width(ZoneLevel(n))
    ensures var k := BlocksBefore(n) + j;
            && k < |FileSlots(d, ino, 10)| && j < |SlotsUnder(d, ino.zones[n], ZoneLevel(n))|
            && FileSlots(d, ino, 10)[k] == SlotsUnder(d, ino.zones[n], ZoneLevel(n))[j]
  {
    hide SlotsUnder, Good, Width;
    SlotsUnderSize(d, ino.zones[n], ZoneLevel(n));
    FileSlotsSize(d, ino, n);
    FileSlotsStep(d, ino, n);
    SlotsGrow(d, ino, n + 1, 10);
  }

  lemma {:induction false} FileSlotsStep(d: seq<Byte>, ino: Inode, n: nat)
    requires GoodInode(d, ino) && n < 10
    ensures FileSlots(d, ino, n + 1) == FileSlots(d, ino, n) + SlotsUnder(d, ino.zones[n], ZoneLevel(n))
  {
    hide SlotsUnder;
  }

  /** The slots of a file are the zones of its blocks, in order. */
  lemma {:induction false} SlotOfBlock(d: seq<Byte>, ino: Inode, k: nat)
    requires GoodInode(d, ino) && k < 16843015
    ensures |FileSlots(d, ino, 10)| == 16843015 && FileSlots(d, ino, 10)[k] == ZoneOfBlock(d, ino.zones, k)
  {
    hide FileSlots, SlotsUnder, PointerIn, Good, Width;
    FileSlotsSize(d, ino, 10);
    Widths();
    if k < 7 {
      SlotOfZone(d, ino, k, 0);
      ZoneThere(d, ino, k);
      OneSlot(d, ino.zones[k]);
    } else {
      var n := if k < 263 then 7 else if k < 65799 then 8 else 9;
      var x := k - BlocksBefore(n);
      SlotOfZone(d, ino, n, x);
      ZoneThere(d, ino, n);
      SlotBehind(d, ino.zones[n], n - 6, x);
    }
  }

  lemma {:induction false} OneSlot(d: seq<Byte>, z: nat)
    ensures z != 0 && OnDisk(d, z) ==> Good(d, z, 0)
    ensures z == 0 || OnDisk(d, z) ==> SlotsUnder(d, z, 0) == [z]
  {
  }

  lemma {:induction false} ZoneThere(d: seq<Byte>, ino: Inode, n: nat)
    requires GoodInode(d, ino) && n < 10
    ensures ino.zones[n] != 0 ==> Good(d, ino.zones[n], ZoneLevel(n)) && OnDisk(d, ino.zones[n])
  {
  }

  /** Slot x behind one, two or three pointers. */
  lemma {:induction false} SlotBehind(d: seq<Byte>, z: nat, level: nat, x: nat)
    requires (z != 0 ==> Good(d, z, level) && OnDisk(d, z)) && 1 <= level <= 3 && x < Width(level)
    ensures x < |SlotsUnder(d, z, level)|
    ensures SlotsUnder(d, z, level)[x] ==
            if level == 1 then PointerIn(d, z, x)
            else if level == 2 then PointerIn(d, PointerIn(d, z, x / 256), x % 256)
            else PointerIn(d, PointerIn(d, PointerIn(d, z, x / 65536), x / 256 % 256), x % 256)
    decreases level
  {
    hide SlotsUnder, PointerIn, Good, Width;
    Widths();
    if level == 1 {
      SlotUnder(d, z, 1, x, 0, 1, x);
      OneSlot(d, PointerIn(d, z, x));
    } else if level == 2 {
      SlotUnder(d, z, 2, x / 256, x % 256, 256, x);
      SlotBehind(d, PointerIn(d, z, x / 256), 1, x % 256);
    } else {
      var y := x % 65536;
      SlotUnder(d, z, 3, x / 65536, y, 65536, x);
      SlotBehind(d, PointerIn(d, z, x / 65536), 2, y);
      var q := x / 256;
      QuotientIs(x, 65536, q / 256, q % 256 * 256 + x % 256);
      QuotientIs(y, 256, q % 256, x % 256);
    }
  }

  /** A pointer fills four bytes, and pointers fill a block. */
  lemma {:induction false} PointersFillBlock()
    ensures 4 * NUM_IPTRS == BLOCK_SIZE
  {
  }
  // ---------------------------------------------------------------- which block is delivered

  /** No zone is used twice. */
  predicate DistinctZones(s: seq<nat>)
  {
    forall i, j :: 0 <= i < j < |s| && s[i] != 0 ==> s[i] != s[j]
  }

  predicate NoHoleUpTo(s: seq<nat>, k: nat)
  {
    k <= |s| && forall j :: 0 <= j < k ==> s[j] != 0
  }

  lemma {:induction false} NonZeroOfFull(s: seq<nat>)
    requires NoHoleUpTo(s, |s|)
    ensures NonZero(s) == s
  {
    if s != [] {
      NonZeroOfFull(s[..|s| - 1]);
      assert s == s[..|s| - 1] + [s[|s| - 1]];
    }
  }

  lemma {:induction false} NonZeroMember(s: seq<nat>, m: nat) returns (i: nat)
    requires m < |NonZero(s)|
    ensures i < |s| && s[i] == NonZero(s)[m] != 0
  {
    var n := |s| - 1;
    if m < |NonZero(s[..n])| {
      i := NonZeroMember(s[..n], m);
    } else {
      i := n;
    }
  }

  lemma {:induction false} NonZeroShorter(s: seq<nat>)
    ensures |NonZero(s)| <= |s|
  {
    if s != [] { NonZeroShorter(s[..|s| - 1]); }
  }

  lemma {:induction false} HoleShortens(s: seq<nat>, j: nat)
    requires j < |s| && s[j] == 0
    ensures |NonZero(s)| < |s|
  {
    var n := |s| - 1;
    if j < n { HoleShortens(s[..n], j); } else { NonZeroShorter(s[..n]); }
  }

  /** In place k there is slot k exactly when none of the slots up to k is a hole. */
  lemma {:induction false} InPlaceIff(s: seq<nat>, k: nat)
    requires DistinctZones(s) && k < |s|
    ensures k < |NonZero(s)| && NonZero(s)[k] == s[k] <==> NoHoleUpTo(s, k + 1)
  {
    hide NonZero;
    var a, b := s[..k + 1], s[k + 1..];
    assert s == a + b;
    NonZeroAppend(a, b);
    if NoHoleUpTo(s, k + 1) {
      NonZeroOfFull(a);
    } else {
      var j :| 0 <= j <= k && s[j] == 0;
      assert a[j] == s[j];
      HoleShortens(a, j);
      if k < |NonZero(s)| {
        var i := NonZeroMember(b, k - |NonZero(a)|);
        assert b[i] == s[k + 1 + i];
      }
    }
  }

  /**
   The k-th block that read goes through is block k of the file exactly when no block up to k
   is a hole.
   */
  lemma {:induction false} BlockInPlaceIff(d: seq<Byte>, ino: Inode, k: nat)
    requires GoodInode(d, ino) && DistinctZones(FileSlots(d, ino, 10)) && k < |FileSlots(d, ino, 10)|
    ensures k < |FileZones(d, ino, 10)| && FileZones(d, ino, 10)[k] == FileSlots(d, ino, 10)[k]
            <==> NoHoleUpTo(FileSlots(d, ino, 10), k + 1)
  {
    ZonesAreSlots(d, ino, 10);
    InPlaceIff(FileSlots(d, ino, 10), k);
  }

  /** A file whose only zone is its second: what read delivers as block 0 is block 1. */
  lemma {:induction false} SparseFile(d: seq<Byte>, ino: Inode, z: nat)
    requires ino.zones == [0, z, 0, 0, 0, 0, 0, 0, 0, 0] && z != 0 && OnDisk(d, z)
    ensures GoodInode(d, ino) && FileZones(d, ino, 10) == [z]
    ensures |FileSlots(d, ino, 10)| >= 2 && FileSlots(d, ino, 10)[0] == 0 && FileSlots(d, ino, 10)[1] == z
  {
    assert forall i :: 0 <= i < 10 && ino.zones[i] != 0 ==> i == 1;
    assert Good(d, z, ZoneLevel(1));
    OnlySecond(d, ino, z, 10);
    assert FileSlots(d, ino, 1) == [0];
    assert FileSlots(d, ino, 2) == [0, z];
    SlotsGrow(d, ino, 2, 10);
  }

  lemma {:induction false} OnlySecond(d: seq<Byte>, ino: Inode, z: nat, n: nat)
    requires GoodInode(d, ino) && ino.zones == [0, z, 0, 0, 0, 0, 0, 0, 0, 0] && z != 0 && n <= 10
    ensures FileZones(d, ino, n) == if n < 2 then [] else [z]
  {
    if n > 0 { OnlySecond(d, ino, z, n - 1); }
  }

  lemma {:induction false} SlotsGrow(d: seq<Byte>, ino: Inode, i: nat, n: nat)
    requires GoodInode(d, ino) && i <= n <= 10
    ensures FileSlots(d, ino, i) <= FileSlots(d, ino, n)
    decreases n
  {
    if i < n {
      hide SlotsUnder;
      SlotsGrow(d, ino, i, n - 1);
    }
  }

  // ---------------------------------------------------------------- the file's own bytes

  ghost predicate SlotsOnDisk(d: seq<Byte>, s: seq<nat>)
  {
    forall i :: 0 <= i < |s| && s[i] != 0 ==> OnDisk(d, s[i])
  }

  /** The file's bytes: block by block, zeros for a hole. */
  ghost function FileBytes(d: seq<Byte>, s: seq<nat>): (c: seq<Byte>)
    requires SlotsOnDisk(d, s)
    ensures |c| == BLOCK_SIZE * |s|
  {
    if s == [] then []
    else
      var z := s[|s| - 1];
      FileBytes(d, s[..|s| - 1]) + if z == 0 then seq(BLOCK_SIZE, _ => 0) else Block(d, z)
  }

  lemma {:induction false} ContentIsFile(d: seq<Byte>, s: seq<nat>)
    requires NoHoleUpTo(s, |s|) && AllOnDisk(d, s)
    ensures SlotsOnDisk(d, s) && Content(d, s) == FileBytes(d, s)
  {
    if s != [] { ContentIsFile(d, s[..|s| - 1]); }
  }

  /** A file without holes: as many zones as blocks, none of them zero. */
  ghost predicate Whole(d: seq<Byte>, ino: Inode)
    requires GoodInode(d, ino)
  {
    NoHoleUpTo(FileSlots(d, ino, 10), BlocksOf(ino.size)) && |FileZones(d, ino, 10)| == BlocksOf(ino.size)
  }

  lemma {:induction false} WholeZones(d: seq<Byte>, ino: Inode)
    requires GoodInode(d, ino) && Whole(d, ino)
    ensures FileZones(d, ino, 10) == FileSlots(d, ino, 10)[..BlocksOf(ino.size)]
  {
    hide NonZero, FileSlots, FileZones;
    var s, n := FileSlots(d, ino, 10), BlocksOf(ino.size);
    assert s == s[..n] + s[n..];
    ZonesAreSlots(d, ino, 10);
    NonZeroAppend(s[..n], s[n..]);
    NonZeroOfFull(s[..n]);
  }

  /**
   Of a file without holes, a request that ends right and whose pieces memcpy copies in full
   gets the file's own bytes from offset on, as many as the file has to give.
   */
  lemma {:induction false} ReadGivesFile(d: seq<Byte>, ino: Inode, size: nat, offset: nat, buf: seq<Byte>)
    requires GoodInode(d, ino) && Whole(d, ino) && Min(size, ino.size) <= |buf| && EndsRight(ino.size, size, offset)
    requires PiecesFull(BlocksOf(ino.size), offset, Min(size, ino.size))
    ensures var s, n := FileSlots(d, ino, 10)[..BlocksOf(ino.size)], FileCount(ino.size, size, offset);
            && SlotsOnDisk(d, s) && (n > 0 ==> offset + n <= |FileBytes(d, s)|) && AllOnDisk(d, FileZones(d, ino, 10))
            && VisitAll(d, offset / BLOCK_SIZE, StartState(offset, Min(size, ino.size), buf), FileZones(d, ino, 10)).buf
               == Overlay(buf, 0, Slice(FileBytes(d, s), offset, n))
  {
    hide FileZones, FileSlots, VisitAll, GoodInode, Overlay, Content, FileBytes, PiecesFull, EndsRight, FileCount;
    WholeZones(d, ino);
    FileZonesOnDisk(d, ino, 10);
    ContentIsFile(d, FileZones(d, ino, 10));
    ReadBytes(d, FileZones(d, ino, 10), offset, Min(size, ino.size), buf);
    ReadEndIff(d, ino, size, offset, buf);
  }
}
