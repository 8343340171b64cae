/**
 A Minix 3 file on disk, as fs.rs reads it: ten zone numbers in the inode, of which seven are
 direct and the others lead through one, two or three levels of pointer blocks. A zero
 pointer is skipped. Everything here is a function of the disk's bytes.
 */
module MinixFile {
  import opened Common
  import opened Cpu
  import opened Disk

  const NUM_IPTRS := 256

  datatype Inode = Inode(mode: nat, size: nat, zones: seq<nat>)

  predicate OnDisk(d: seq<Byte>, z: nat) { BLOCK_SIZE * (z + 1) <= |d| }

  function Block(d: seq<Byte>, z: nat): (b: seq<Byte>)
    requires OnDisk(d, z)
    ensures |b| == BLOCK_SIZE
  {
    d[BLOCK_SIZE * z..BLOCK_SIZE * (z + 1)]
  }

  /** The i-th little-endian 32-bit value of a block. */
  function U32(b: seq<Byte>, i: nat): nat
    requires 4 * i + 4 <= |b|
  {
    LittleEndian(b[4 * i], b[4 * i + 1], b[4 * i + 2], b[4 * i + 3])
  }

  function LittleEndian(a: nat, b: nat, c: nat, d: nat): nat
  {
    a + 0x100 * b + 0x1_0000 * c + 0x100_0000 * d
  }

  /** Byte j of a 32-bit number, counted from the least significant. */
  function ByteOf(x: nat, j: nat): Byte
  {
    (if j == 0 then x else if j == 1 then x / 0x100 else if j == 2 then x / 0x1_0000 else x / 0x100_0000) % 0x100
  }

  /** Four bytes, least significant first, are read as the number they store. */
  lemma {:induction false} LittleEndianReads(x: nat)
    requires x < 0x1_0000_0000
    ensures LittleEndian(ByteOf(x, 0), ByteOf(x, 1), ByteOf(x, 2), ByteOf(x, 3)) == x
  {
    var a := x / 0x100;
    var b := a / 0x100;
    QuotientIs(x, 0x1_0000, b, a % 0x100 * 0x100 + x % 0x100);
    QuotientIs(x, 0x100_0000, b / 0x100, b % 0x100 * 0x1_0000 + a % 0x100 * 0x100 + x % 0x100);
    assert x / 0x100_0000 < 0x100;
  }

  function Pointer(d: seq<Byte>, z: nat, i: nat): nat
    requires OnDisk(d, z) && i < NUM_IPTRS
  {
    U32(Block(d, z), i)
  }

  /** Every zone reachable through z, a pointer block of the given level, lies on the disk. */
  ghost predicate Good(d: seq<Byte>, z: nat, level: nat)
    decreases level
  {
    && OnDisk(d, z)
    && (level > 0 ==> forall i :: 0 <= i < NUM_IPTRS && Pointer(d, z, i) != 0 ==> Good(d, Pointer(d, z, i), level - 1))
  }

  /** The leaf zones under z, in the order of traversal. */
  ghost function Leaves(d: seq<Byte>, z: nat, level: nat): seq<nat>
    requires Good(d, z, level)
    decreases level, NUM_IPTRS + 1
  {
    if level == 0 then [z] else LeavesBelow(d, z, level, NUM_IPTRS)
  }

  /** The leaf zones under the first n pointers of z. */
  ghost function LeavesBelow(d: seq<Byte>, z: nat, level: nat, n: nat): seq<nat>
    requires Good(d, z, level) && level > 0 && n <= NUM_IPTRS
    decreases level, n
  {
    if n == 0 then []
    else
      LeavesBelow(d, z, level, n - 1)
      + if Pointer(d, z, n - 1) == 0 then [] else Leaves(d, Pointer(d, z, n - 1), level - 1)
  }

  lemma {:induction false} BelowNone(d: seq<Byte>, z: nat, level: nat)
    requires Good(d, z, level) && level > 0
    ensures LeavesBelow(d, z, level, 0) == []
  {
  }

  lemma {:induction false} BelowStep(d: seq<Byte>, z: nat, level: nat, n: nat)
    requires Good(d, z, level) && level > 0 && 0 < n <= NUM_IPTRS
    ensures var p := Pointer(d, z, n - 1);
            if p == 0 then LeavesBelow(d, z, level, n) == LeavesBelow(d, z, level, n - 1)
            else Good(d, p, level - 1) && LeavesBelow(d, z, level, n) == LeavesBelow(d, z, level, n - 1) + Leaves(d, p, level - 1)
  {
    hide Pointer;
  }

  /** The level of each of the ten zones of an inode. */
  function ZoneLevel(i: nat): nat { if i < 7 then 0 else i - 6 }

  ghost predicate GoodInode(d: seq<Byte>, ino: Inode)
  {
    |ino.zones| == 10 && forall i :: 0 <= i < 10 && ino.zones[i] != 0 ==> Good(d, ino.zones[i], ZoneLevel(i))
  }

  /** The leaf zones under the first n zones of an inode. */
  ghost function FileZones(d: seq<Byte>, ino: Inode, n: nat): seq<nat>
    requires GoodInode(d, ino) && n <= 10
  {
    if n == 0 then []
    else
      FileZones(d, ino, n - 1)
      + if ino.zones[n - 1] == 0 then [] else Leaves(d, ino.zones[n - 1], ZoneLevel(n - 1))
  }

  predicate AllOnDisk(d: seq<Byte>, zs: seq<nat>)
  {
    forall i :: 0 <= i < |zs| ==> OnDisk(d, zs[i])
  }

  lemma {:induction false} LeavesOnDisk(d: seq<Byte>, z: nat, level: nat)
    requires Good(d, z, level)
    ensures AllOnDisk(d, Leaves(d, z, level))
    decreases level, NUM_IPTRS + 1
  {
    if level > 0 { LeavesBelowOnDisk(d, z, level, NUM_IPTRS); }
  }

  lemma {:induction false} LeavesBelowOnDisk(d: seq<Byte>, z: nat, level: nat, n: nat)
    requires Good(d, z, level) && level > 0 && n <= NUM_IPTRS
    ensures AllOnDisk(d, LeavesBelow(d, z, level, n))
    decreases level, n
  {
    hide Pointer, LeavesBelow, Leaves, Good;
    if n == 0 {
      BelowNone(d, z, level);
    } else {
      BelowStep(d, z, level, n);
      LeavesBelowOnDisk(d, z, level, n - 1);
      GoodThere(d, z, level);
      if Pointer(d, z, n - 1) != 0 { LeavesOnDisk(d, Pointer(d, z, n - 1), level - 1); }
    }
  }

  lemma {:induction false} GoodThere(d: seq<Byte>, z: nat, level: nat)
    requires Good(d, z, level)
    ensures OnDisk(d, z)
  {
  }

  lemma {:induction false} FileZonesOnDisk(d: seq<Byte>, ino: Inode, n: nat)
    requires GoodInode(d, ino) && n <= 10
    ensures AllOnDisk(d, FileZones(d, ino, n))
  {
    if n > 0 {
      FileZonesOnDisk(d, ino, n - 1);
      if ino.zones[n - 1] != 0 { LeavesOnDisk(d, ino.zones[n - 1], ZoneLevel(n - 1)); }
    }
  }

  /** The bytes of a list of zones, one block after the other. */
  function Content(d: seq<Byte>, zs: seq<nat>): (c: seq<Byte>)
    requires AllOnDisk(d, zs)
    ensures |c| == BLOCK_SIZE * |zs|
  {
    if zs == [] then [] else Content(d, zs[..|zs| - 1]) + Block(d, zs[|zs| - 1])
  }

  // ---------------------------------------------------------------- one zone after the other

  /** The local state of read: blocks_seen, offset_byte, bytes_left, bytes_read, the buffer, and whether it has returned. */
  datatype State = State(seen: nat, offsetByte: nat, left: nat, read: nat, buf: seq<Byte>, done: bool)

  predicate Sane(st: State) { st.offsetByte <= BLOCK_SIZE && st.read + st.left <= |st.buf| }

  function Min(a: nat, b: nat): nat { if a > b then b else a }

  /** What read does at a non-zero leaf zone. */
  function Visit(d: seq<Byte>, offsetBlock: nat, st: State, z: nat): (r: State)
    requires OnDisk(d, z) && Sane(st)
    ensures Sane(r) && |r.buf| == |st.buf|
  {
    if st.done then st
    else if offsetBlock <= st.seen then
      var n := Min(BLOCK_SIZE - st.offsetByte, st.left);
      CopiesAll(n);
      var buf := Overlay(st.buf, st.read, Block(d, z)[st.offsetByte..st.offsetByte + Copied(n)]);
      if st.left == n then State(st.seen, 0, 0, st.read + n, buf, true)
      else State(st.seen + 1, 0, st.left - n, st.read + n, buf, false)
    else st.(seen := st.seen + 1)
  }

  function VisitAll(d: seq<Byte>, offsetBlock: nat, st: State, zs: seq<nat>): (r: State)
    requires AllOnDisk(d, zs) && Sane(st)
    ensures Sane(r) && |r.buf| == |st.buf|
  {
    if zs == [] then st
    else Visit(d, offsetBlock, VisitAll(d, offsetBlock, st, zs[..|zs| - 1]), zs[|zs| - 1])
  }

  lemma {:induction false} VisitAllAppend(d: seq<Byte>, ob: nat, st: State, a: seq<nat>, b: seq<nat>)
    requires AllOnDisk(d, a) && AllOnDisk(d, b) && Sane(st)
    ensures AllOnDisk(d, a + b)
    ensures VisitAll(d, ob, st, a + b) == VisitAll(d, ob, VisitAll(d, ob, st, a), b)
  {
    if b == [] {
      assert a + b == a;
    } else {
      var n := |b| - 1;
      assert (a + b)[..|a + b| - 1] == a + b[..n];
      VisitAllAppend(d, ob, st, a, b[..n]);
    }
  }

  /** Once read has returned, later zones change nothing. */
  lemma {:induction false} VisitAllDone(d: seq<Byte>, ob: nat, st: State, zs: seq<nat>)
    requires AllOnDisk(d, zs) && Sane(st) && st.done
    ensures VisitAll(d, ob, st, zs) == st
  {
    if zs != [] { VisitAllDone(d, ob, st, zs[..|zs| - 1]); }
  }

  // ---------------------------------------------------------------- what a read amounts to

  function StartState(offset: nat, limit: nat, buf: seq<Byte>): State
  {
    State(0, offset % BLOCK_SIZE, limit, 0, buf, false)
  }

  /** min(limit, max(0, 1024 k - offset)) */
  function Count(k: nat, offset: nat, limit: nat): nat
  {
    if BLOCK_SIZE * k <= offset then 0 else Min(limit, BLOCK_SIZE * k - offset)
  }

  /** The counters after k zones, in closed form. */
  predicate Counters(st: State, k: nat, offset: nat, limit: nat)
  {
    if k <= offset / BLOCK_SIZE then
      st.seen == k && st.offsetByte == offset % BLOCK_SIZE && st.left == limit && st.read == 0 && !st.done
    else
      && st.offsetByte == 0 && st.read == Count(k, offset, limit) && st.left == limit - st.read
      && st.done == (st.left == 0)
      && (!st.done ==> st.seen == k)
  }

  lemma {:induction false} CountersStep(d: seq<Byte>, st: State, k: nat, offset: nat, limit: nat, z: nat)
    requires OnDisk(d, z) && Sane(st) && Counters(st, k, offset, limit)
    ensures Counters(Visit(d, offset / BLOCK_SIZE, st, z), k + 1, offset, limit)
  {
  }

  lemma {:induction false} ReadCounts(d: seq<Byte>, zs: seq<nat>, offset: nat, limit: nat, buf: seq<Byte>)
    requires AllOnDisk(d, zs) && limit <= |buf|
    ensures Counters(VisitAll(d, offset / BLOCK_SIZE, StartState(offset, limit, buf), zs), |zs|, offset, limit)
  {
    if zs != [] {
      var n := |zs| - 1;
      ReadCounts(d, zs[..n], offset, limit, buf);
      CountersStep(d, VisitAll(d, offset / BLOCK_SIZE, StartState(offset, limit, buf), zs[..n]), n, offset, limit, zs[n]);
    }
  }

  /** n bytes of c from offset on; nothing when n is 0, wherever offset points. */
  function Slice(c: seq<Byte>, offset: nat, n: nat): (s: seq<Byte>)
    requires n > 0 ==> offset + n <= |c|
    ensures |s| == n
  {
    if n == 0 then [] else c[offset..offset + n]
  }

  lemma {:induction false} OverlayExtend(buf: seq<Byte>, s: seq<Byte>, b: seq<Byte>)
    requires |s| + |b| <= |buf|
    ensures Overlay(Overlay(buf, 0, s), |s|, b) == Overlay(buf, 0, s + b)
  {
  }

  /** The next n bytes lie in the next block, behind what has been read or at the offset. */
  lemma {:induction false} SliceExtend(c: seq<Byte>, b: seq<Byte>, offset: nat, read: nat, at: nat, n: nat)
    requires read > 0 ==> offset + read <= |c|
    requires at + n <= |b| && offset + read == |c| + at
    ensures Slice(c + b, offset, read + n) == Slice(c, offset, read) + b[at..at + n]
  {
    var x, y := Slice(c + b, offset, read + n), Slice(c, offset, read) + b[at..at + n];
    forall k | 0 <= k < read + n ensures x[k] == y[k] {
      assert x[k] == (c + b)[offset + k];
      if k < read {
        assert y[k] == Slice(c, offset, read)[k] == c[offset + k];
      } else {
        assert y[k] == b[at..at + n][k - read] == b[at + (k - read)];
        assert offset + k == |c| + (at + (k - read));
      }
    }
  }

  /** The number of bytes read takes from the k-th zone. */
  function Piece(k: nat, offset: nat, limit: nat): (n: nat)
    ensures Count(k + 1, offset, limit) == Count(k, offset, limit) + n
  {
    Count(k + 1, offset, limit) - Count(k, offset, limit)
  }

  /** memcpy copies every piece in full. It depends on offset, limit and the number of zones only. */
  predicate PiecesFull(n: nat, offset: nat, limit: nat)
  {
    forall k :: 0 <= k < n ==> Copied(Piece(k, offset, limit)) == Piece(k, offset, limit)
  }

  lemma {:induction false} PieceIs(st: State, k: nat, offset: nat, limit: nat)
    requires Counters(st, k, offset, limit)
    ensures Piece(k, offset, limit) ==
            if !st.done && offset / BLOCK_SIZE <= st.seen then Min(BLOCK_SIZE - st.offsetByte, st.left) else 0
    ensures st.read == Count(k, offset, limit)
  {
  }

  lemma {:induction false} PiecesMod8(k: nat, offset: nat, limit: nat)
    requires offset % 8 == 0 && limit % 8 == 0
    ensures Piece(k, offset, limit) % 8 == 0
  {
    hide Count;
    var a, b := Count(k, offset, limit), Count(k + 1, offset, limit);
    CountMod8(k, offset, limit);
    CountMod8(k + 1, offset, limit);
    QuotientIs(Piece(k, offset, limit), 8, b / 8 - a / 8, 0);
  }

  lemma {:induction false} CountMod8(k: nat, offset: nat, limit: nat)
    requires offset % 8 == 0 && limit % 8 == 0
    ensures Count(k, offset, limit) % 8 == 0
  {
    if 1024 * k > offset { QuotientIs(1024 * k - offset, 8, 128 * k - offset / 8, 0); }
  }

  /** Offsets and limits that are multiples of 8 are such a case. */
  lemma {:induction false} AlignedPiecesFull(n: nat, offset: nat, limit: nat)
    requires offset % 8 == 0 && limit % 8 == 0
    ensures PiecesFull(n, offset, limit)
  {
    forall k | 0 <= k < n ensures Copied(Piece(k, offset, limit)) == Piece(k, offset, limit) {
      PiecesMod8(k, offset, limit);
      CopiesAll(Piece(k, offset, limit));
    }
  }

  /** Where a block is taken from, what has been read ends there, or reading starts there. */
  lemma {:induction false} ReadPosition(st: State, k: nat, offset: nat, limit: nat)
    requires Counters(st, k, offset, limit) && !st.done && offset / BLOCK_SIZE <= st.seen
    ensures offset + st.read == BLOCK_SIZE * k + st.offsetByte
  {
  }

  lemma {:induction false} BytesStep(d: seq<Byte>, st: State, c: seq<Byte>, k: nat, offset: nat, limit: nat, buf: seq<Byte>, z: nat)
    requires OnDisk(d, z) && Sane(st) && Counters(st, k, offset, limit) && |c| == BLOCK_SIZE * k
    requires Copied(Piece(k, offset, limit)) == Piece(k, offset, limit) && limit <= |buf| == |st.buf|
    requires st.read > 0 ==> offset + st.read <= |c|
    requires st.buf == Overlay(buf, 0, Slice(c, offset, st.read))
    ensures var r := Visit(d, offset / BLOCK_SIZE, st, z);
            && (r.read > 0 ==> offset + r.read <= |c| + BLOCK_SIZE)
            && r.buf == Overlay(buf, 0, Slice(c + Block(d, z), offset, r.read))
  {
    hide Overlay, Copied, Count, Piece, Counters, Block, Visit, Slice;
    var b, n := Block(d, z), Piece(k, offset, limit);
    PieceIs(st, k, offset, limit);
    VisitIs(d, offset / BLOCK_SIZE, st, z);
    if !st.done && offset / BLOCK_SIZE <= st.seen {
      ReadPosition(st, k, offset, limit);
      SliceExtend(c, b, offset, st.read, st.offsetByte, n);
      OverlayExtend(buf, Slice(c, offset, st.read), b[st.offsetByte..st.offsetByte + n]);
    } else {
      SliceKept(c, b, offset, st.read);
    }
  }

  lemma {:induction false} VisitIs(d: seq<Byte>, ob: nat, st: State, z: nat)
    requires OnDisk(d, z) && Sane(st)
    ensures var r := Visit(d, ob, st, z);
            if !st.done && ob <= st.seen then
              var n := Min(BLOCK_SIZE - st.offsetByte, st.left);
              && Copied(n) <= n && r.read == st.read + n
              && r.buf == Overlay(st.buf, st.read, Block(d, z)[st.offsetByte..st.offsetByte + Copied(n)])
            else r.read == st.read && r.buf == st.buf
  {
    hide Overlay, Copied, Block;
    CopiesAll(Min(BLOCK_SIZE - st.offsetByte, st.left));
  }

  lemma {:induction false} SliceKept(c: seq<Byte>, b: seq<Byte>, offset: nat, n: nat)
    requires n > 0 ==> offset + n <= |c|
    ensures Slice(c + b, offset, n) == Slice(c, offset, n)
  {
  }

  lemma {:induction false} ReadBytes(d: seq<Byte>, zs: seq<nat>, offset: nat, limit: nat, buf: seq<Byte>)
    requires AllOnDisk(d, zs) && limit <= |buf| && PiecesFull(|zs|, offset, limit)
    ensures var r := VisitAll(d, offset / BLOCK_SIZE, StartState(offset, limit, buf), zs);
            && (r.read > 0 ==> offset + r.read <= |Content(d, zs)|)
            && r.buf == Overlay(buf, 0, Slice(Content(d, zs), offset, r.read))
  {
    if zs != [] {
      var n := |zs| - 1;
      var st := VisitAll(d, offset / BLOCK_SIZE, StartState(offset, limit, buf), zs[..n]);
      ReadBytes(d, zs[..n], offset, limit, buf);
      ReadCounts(d, zs[..n], offset, limit, buf);
      BytesStep(d, st, Content(d, zs[..n]), n, offset, limit, buf, zs[n]);
    }
  }

  /**
   The counting half of read's contract: how many bytes it returns, for every offset, size
   and file. N is the number of non-zero leaf zones.
   */
  lemma {:induction false} ReadReturns(d: seq<Byte>, ino: Inode, offset: nat, limit: nat, buf: seq<Byte>)
    requires GoodInode(d, ino) && limit <= |buf|
    ensures var zs := FileZones(d, ino, 10);
            && AllOnDisk(d, zs)
            && VisitAll(d, offset / BLOCK_SIZE, StartState(offset, limit, buf), zs).read == Count(|zs|, offset, limit)
  {
    FileZonesOnDisk(d, ino, 10);
    ReadCounts(d, FileZones(d, ino, 10), offset, limit, buf);
  }

  /** A position that no zone's copy covers keeps what the caller's buffer held. */
  lemma {:induction false} Untouched(d: seq<Byte>, zs: seq<nat>, offset: nat, limit: nat, buf: seq<Byte>, p: nat)
    requires AllOnDisk(d, zs) && limit <= |buf| && p < |buf|
    requires forall k :: 0 <= k < |zs| ==> !Covers(k, offset, limit, p)
    ensures VisitAll(d, offset / BLOCK_SIZE, StartState(offset, limit, buf), zs).buf[p] == buf[p]
  {
    if zs != [] {
      hide Visit, Count, Piece, Copied, Counters, Covers;
      var n := |zs| - 1;
      var st := VisitAll(d, offset / BLOCK_SIZE, StartState(offset, limit, buf), zs[..n]);
      Untouched(d, zs[..n], offset, limit, buf, p);
      ReadCounts(d, zs[..n], offset, limit, buf);
      PieceIs(st, n, offset, limit);
      assert !Covers(n, offset, limit, p);
      VisitUntouched(d, st, n, offset, limit, zs[n], p);
    }
  }

  lemma {:induction false} VisitUntouched(d: seq<Byte>, st: State, k: nat, offset: nat, limit: nat, z: nat, p: nat)
    requires OnDisk(d, z) && Sane(st) && p < |st.buf| && Counters(st, k, offset, limit) && !Covers(k, offset, limit, p)
    ensures Visit(d, offset / BLOCK_SIZE, st, z).buf[p] == st.buf[p]
  {
    hide Copied, Count, Piece, Counters;
    PieceIs(st, k, offset, limit);
    CopiesAll(Piece(k, offset, limit));
  }

  /** The copy from the k-th zone writes buffer position p. */
  predicate Covers(k: nat, offset: nat, limit: nat, p: nat)
  {
    Count(k, offset, limit) <= p < Count(k, offset, limit) + Copied(Piece(k, offset, limit))
  }

  lemma {:induction false} CountMonotone(j: nat, k: nat, offset: nat, limit: nat)
    requires j <= k
    ensures Count(j, offset, limit) <= Count(k, offset, limit)
  {
  }

  /** Where a piece is cut short, the first byte memcpy omits is covered by no copy at all. */
  lemma {:induction false} GapIsUncovered(k: nat, j: nat, offset: nat, limit: nat)
    requires Copied(Piece(j, offset, limit)) < Piece(j, offset, limit)
    ensures !Covers(k, offset, limit, Count(j, offset, limit) + Copied(Piece(j, offset, limit)))
  {
    CopiesAll(Piece(k, offset, limit));
    if k < j { CountMonotone(k + 1, j, offset, limit); }
    if j < k { CountMonotone(j + 1, k, offset, limit); }
  }

  /** What read promises: the buffer begins with the file's bytes from offset on. */
  ghost predicate Exact(d: seq<Byte>, zs: seq<nat>, offset: nat, limit: nat, buf: seq<Byte>)
    requires AllOnDisk(d, zs) && limit <= |buf|
  {
    var r := VisitAll(d, offset / BLOCK_SIZE, StartState(offset, limit, buf), zs);
    && (r.read > 0 ==> offset + r.read <= |Content(d, zs)|)
    && r.buf == Overlay(buf, 0, Slice(Content(d, zs), offset, r.read))
  }

  lemma {:induction false} GapBreaksRead(d: seq<Byte>, zs: seq<nat>, offset: nat, limit: nat, len: nat, j: nat) returns (buf: seq<Byte>)
    requires AllOnDisk(d, zs) && limit <= len && j < |zs|
    requires Copied(Piece(j, offset, limit)) < Piece(j, offset, limit)
    ensures |buf| == len && !Exact(d, zs, offset, limit, buf)
  {
    hide VisitAll, Overlay, Copied, Covers, Content;
    var p := Count(j, offset, limit) + Copied(Piece(j, offset, limit));
    CountMonotone(j + 1, |zs|, offset, limit);
    var c := Content(d, zs);
    var x: Byte := if c[offset + p] == 0 then 1 else 0;
    buf := seq(len, _ => x);
    forall k | 0 <= k < |zs| ensures !Covers(k, offset, limit, p) { GapIsUncovered(k, j, offset, limit); }
    Untouched(d, zs, offset, limit, buf, p);
    ReadCounts(d, zs, offset, limit, buf);
    var r := VisitAll(d, offset / BLOCK_SIZE, StartState(offset, limit, buf), zs);
    if offset + r.read <= |c| {
      OverlayHead(buf, Slice(c, offset, r.read), p);
    }
  }

  lemma {:induction false} OverlayHead(buf: seq<Byte>, s: seq<Byte>, p: nat)
    requires p < |s| <= |buf|
    ensures Overlay(buf, 0, s)[p] == s[p]
  {
  }

  /** read delivers the file's bytes, whatever the buffer held, exactly when every piece is copied in full. */
  lemma {:induction false} ReadExactIff(d: seq<Byte>, ino: Inode, offset: nat, limit: nat, len: nat)
    requires GoodInode(d, ino) && limit <= len
    ensures AllOnDisk(d, FileZones(d, ino, 10))
    ensures (forall buf: seq<Byte> :: |buf| == len ==> Exact(d, FileZones(d, ino, 10), offset, limit, buf))
            <==> PiecesFull(|FileZones(d, ino, 10)|, offset, limit)
  {
    FileZonesOnDisk(d, ino, 10);
    var zs := FileZones(d, ino, 10);
    if PiecesFull(|zs|, offset, limit) {
      forall buf: seq<Byte> | |buf| == len ensures Exact(d, zs, offset, limit, buf) {
        ReadBytes(d, zs, offset, limit, buf);
      }
    } else {
      var j :| 0 <= j < |zs| && Copied(Piece(j, offset, limit)) != Piece(j, offset, limit);
      CopiesAll(Piece(j, offset, limit));
      var buf := GapBreaksRead(d, zs, offset, limit, len, j);
    }
  }

  /**
   The content half for aligned reads: the buffer begins with exactly that slice of the
   file's concatenated leaf blocks and is otherwise untouched.
   */
  lemma {:induction false} ReadDelivers(d: seq<Byte>, ino: Inode, offset: nat, limit: nat, buf: seq<Byte>)
    requires GoodInode(d, ino) && limit <= |buf| && offset % 8 == 0 && limit % 8 == 0
    ensures AllOnDisk(d, FileZones(d, ino, 10)) && Exact(d, FileZones(d, ino, 10), offset, limit, buf)
  {
    FileZonesOnDisk(d, ino, 10);
    AlignedPiecesFull(|FileZones(d, ino, 10)|, offset, limit);
    ReadBytes(d, FileZones(d, ino, 10), offset, limit, buf);
  }
}
