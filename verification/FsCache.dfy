/**
 get_inode, cache_at, init, refresh and open of fs.rs on a disk: superblock, inode table and
 directory blocks are decoded from bytes.
 */
module FsCache {
  import opened Common
  import opened Cpu
  import opened Disk
  import opened MinixFile
  import opened MinixRead
  import opened MinixHoles
  import opened PathCache

  const MAGIC := 0x4d5a
  const INODE_SIZE := 64
  const INODES_PER_BLOCK := 16
  const DIRENT_SIZE := 64

  // ---------------------------------------------------------------- decoding

  function U16At(b: seq<Byte>, at: nat): nat
    requires at + 2 <= |b|
  {
    LittleEndian(b[at], b[at + 1], 0, 0)
  }

  function U32At(b: seq<Byte>, at: nat): nat
    requires at + 4 <= |b|
  {
    LittleEndian(b[at], b[at + 1], b[at + 2], b[at + 3])
  }

  /** The fields of the superblock, which begins at byte 1024. */
  function ImapBlocks(b: seq<Byte>): nat requires |b| >= 512 { U16At(b, 6) }
  function ZmapBlocks(b: seq<Byte>): nat requires |b| >= 512 { U16At(b, 8) }
  function MagicOf(b: seq<Byte>): nat requires |b| >= 512 { U16At(b, 24) }

  function InodeOf(b: seq<Byte>, at: nat): Inode
    requires at + INODE_SIZE <= |b|
  {
    Inode(U16At(b, at), U32At(b, at + 8), seq(10, i requires 0 <= i < 10 => U32At(b, at + 24 + 4 * i)))
  }

  /** The start of the inode table: boot block, superblock and both bitmaps come first. */
  function TableStart(d: seq<Byte>): nat
    requires |d| >= 2048
  {
    BLOCK_SIZE * (2 + ImapBlocks(d[1024..1536]) + ZmapBlocks(d[1024..1536]))
  }

  /** Inode n (counted from 1) is entry n-1 of the table, whose block number fits 16 bits. */
  predicate HasInode(d: seq<Byte>, n: nat)
  {
    && |d| >= 2048 && n >= 1 && TableStart(d) + INODE_SIZE * n <= |d|
    && TableStart(d) < BLOCK_SIZE * 0x1_0000
  }

  function InodeAt(d: seq<Byte>, n: nat): Inode
    requires HasInode(d, n)
  {
    InodeOf(d, TableStart(d) + INODE_SIZE * (n - 1))
  }

  function NameFrom(b: seq<Byte>, at: nat, left: nat): string
    requires at + left <= |b|
    decreases left
  {
    if left == 0 || b[at] == 0 then "" else [b[at] as char] + NameFrom(b, at + 1, left - 1)
  }

  /** The entry in a 64-byte record. */
  function EntryOf(b: seq<Byte>): DirEntry
    requires |b| == DIRENT_SIZE
  {
    DirEntry(U32At(b, 0), NameFrom(b, 4, 60))
  }

  function Record(b: seq<Byte>, i: nat): (r: seq<Byte>)
    requires DIRENT_SIZE * (i + 1) <= |b|
    ensures |r| == DIRENT_SIZE
  {
    b[DIRENT_SIZE * i..DIRENT_SIZE * (i + 1)]
  }

  function EntriesOf(b: seq<Byte>): (r: seq<DirEntry>)
    ensures |r| == |b| / DIRENT_SIZE
  {
    seq(|b| / DIRENT_SIZE, i requires 0 <= i < |b| / DIRENT_SIZE => EntryOf(Record(b, i)))
  }

  /** All bytes of a directory, as far as its size and its zones go. */
  ghost function DirBytes(d: seq<Byte>, ino: Inode): (b: seq<Byte>)
    requires GoodInode(d, ino)
  {
    FileZonesOnDisk(d, ino, 10);
    var c := Content(d, FileZones(d, ino, 10));
    c[..Min(ino.size, |c|)]
  }

  /** The entries that lie in bytes two blocks of memory agree on are the same. */
  lemma {:induction false} SameEntries(a: seq<Byte>, b: seq<Byte>, m: nat)
    requires m <= |a| && m <= |b| && a[..m] == b[..m] && |a| / DIRENT_SIZE * DIRENT_SIZE <= m && |a| <= |b|
    ensures EntriesOf(a) == EntriesOf(b)[..|a| / DIRENT_SIZE]
  {
    hide EntryOf;
    forall i | 0 <= i < |a| / DIRENT_SIZE ensures EntriesOf(a)[i] == EntriesOf(b)[i] {
      SameRecord(a, b, m, i);
    }
  }

  lemma {:induction false} SameRecord(a: seq<Byte>, b: seq<Byte>, m: nat, i: nat)
    requires m <= |a| && m <= |b| && a[..m] == b[..m] && DIRENT_SIZE * (i + 1) <= m
    ensures Record(a, i) == Record(b, i)
  {
    assert Record(a, i) == a[..m][DIRENT_SIZE * i..DIRENT_SIZE * (i + 1)];
    assert Record(b, i) == b[..m][DIRENT_SIZE * i..DIRENT_SIZE * (i + 1)];
  }

  // ---------------------------------------------------------------- records as they are stored

  function Stored16(x: nat): (b: seq<Byte>)
    ensures |b| == 2
  {
    [ByteOf(x, 0), ByteOf(x, 1)]
  }

  function Stored32(x: nat): (b: seq<Byte>)
    ensures |b| == 4
  {
    [ByteOf(x, 0), ByteOf(x, 1), ByteOf(x, 2), ByteOf(x, 3)]
  }

  lemma {:induction false} Stored16Reads(b: seq<Byte>, at: nat, x: nat)
    requires at + 2 <= |b| && x < 0x1_0000 && b[at..at + 2] == Stored16(x)
    ensures U16At(b, at) == x
  {
    assert b[at] == b[at..at + 2][0] && b[at + 1] == b[at..at + 2][1];
    LittleEndianReads(x);
    assert ByteOf(x, 2) == 0 && ByteOf(x, 3) == 0;
  }

  lemma {:induction false} Stored32Reads(b: seq<Byte>, at: nat, x: nat)
    requires at + 4 <= |b| && x < 0x1_0000_0000 && b[at..at + 4] == Stored32(x)
    ensures U32At(b, at) == x
  {
    var c := b[at..at + 4];
    assert b[at] == c[0] && b[at + 1] == c[1] && b[at + 2] == c[2] && b[at + 3] == c[3];
    LittleEndianReads(x);
  }

  /** A slice that lies in the middle part of three. */
  lemma {:induction false} MiddlePart(a: seq<Byte>, m: seq<Byte>, b: seq<Byte>)
    ensures (a + m + b)[|a|..|a| + |m|] == m
  {
  }

  /** An inode with its other fields: mode, nlinks, uid, gid, size, atime, mtime, ctime, zones. */
  function StoredInode(ino: Inode, nlinks: nat, uid: nat, gid: nat, atime: nat, mtime: nat, ctime: nat): seq<Byte>
  {
    Stored16(ino.mode) + Stored16(nlinks) + Stored16(uid) + Stored16(gid) + Stored32(ino.size)
    + Stored32(atime) + Stored32(mtime) + Stored32(ctime) + Stored(ino.zones)
  }

  predicate InodeFits(ino: Inode)
  {
    && ino.mode < 0x1_0000 && ino.size < 0x1_0000_0000 && |ino.zones| == 10
    && forall i :: 0 <= i < 10 ==> ino.zones[i] < 0x1_0000_0000
  }

  /** The 64 bytes that store an inode are read as that inode. */
  lemma {:induction false} InodeReads(ino: Inode, nlinks: nat, uid: nat, gid: nat, atime: nat, mtime: nat, ctime: nat)
    requires InodeFits(ino)
    ensures var b := StoredInode(ino, nlinks, uid, gid, atime, mtime, ctime);
            |b| == INODE_SIZE && InodeOf(b, 0) == ino
  {
    hide Stored16, Stored32, Stored, U16At, U32At;
    var b := StoredInode(ino, nlinks, uid, gid, atime, mtime, ctime);
    var ids, times := Stored16(nlinks) + Stored16(uid) + Stored16(gid), Stored32(atime) + Stored32(mtime) + Stored32(ctime);
    var m, s, z := Stored16(ino.mode), Stored32(ino.size), Stored(ino.zones);
    assert b == [] + m + (ids + s + times + z) && b == m + ids + s + (times + z) && b == m + ids + s + times + z + [];
    MiddlePart([], m, ids + s + times + z);
    MiddlePart(m + ids, s, times + z);
    MiddlePart(m + ids + s + times, z, []);
    Stored16Reads(b, 0, ino.mode);
    Stored32Reads(b, 8, ino.size);
    forall i | 0 <= i < 10 ensures U32At(b, 24 + 4 * i) == ino.zones[i] { ZoneReads(b, ino.zones, i); }
    assert InodeOf(b, 0).zones == ino.zones;
  }

  lemma {:induction false} ZoneReads(b: seq<Byte>, zones: seq<nat>, i: nat)
    requires |zones| == 10 && i < 10 && zones[i] < 0x1_0000_0000 && |b| == 64 && b[24..64] == Stored(zones)
    ensures U32At(b, 24 + 4 * i) == zones[i]
  {
    hide Stored, LittleEndian;
    StoredReads(zones, i);
    var c := b[24..64];
    assert c[4 * i] == b[24 + 4 * i] && c[4 * i + 1] == b[24 + 4 * i + 1];
    assert c[4 * i + 2] == b[24 + 4 * i + 2] && c[4 * i + 3] == b[24 + 4 * i + 3];
  }

  /** A name of bytes, ended by zeros when it is shorter than its 60 places. */
  function StoredName(name: string): (b: seq<Byte>)
    ensures |b| == 60
  {
    seq(60, i requires 0 <= i < 60 => if i < |name| then LowByte(name[i]) else 0)
  }

  function LowByte(c: char): Byte { c as int % 0x100 }

  function StoredEntry(e: DirEntry): (b: seq<Byte>)
    ensures |b| == DIRENT_SIZE
  {
    Stored32(e.inode) + StoredName(e.name)
  }

  /** The 64 bytes that store a directory entry are read as that entry. */
  lemma {:induction false} EntryReads(e: DirEntry)
    requires Storable(e)
    ensures EntryOf(StoredEntry(e)) == e
  {
    hide Stored32, U32At, StoredName;
    var b := StoredEntry(e);
    assert b[0..4] == Stored32(e.inode);
    Stored32Reads(b, 0, e.inode);
    assert b[4..64] == StoredName(e.name);
    NameReads(b, e.name, 0);
    assert e.name[0..] == e.name;
  }

  lemma {:induction false} NameReads(b: seq<Byte>, name: string, i: nat)
    requires |name| <= 60 && Bytes(name) && 0 as char !in name && i <= |name|
    requires |b| == 64 && b[4..64] == StoredName(name)
    ensures NameFrom(b, 4 + i, 60 - i) == name[i..]
    decreases |name| - i
  {
    assert i < 60 ==> b[4 + i] == b[4..64][i];
    if i < |name| {
      assert name[i] in name;
      NameReads(b, name, i + 1);
      assert name[i..] == [name[i]] + name[i + 1..];
    }
  }

  /** Entries one after the other. */
  function StoredEntries(es: seq<DirEntry>): (b: seq<Byte>)
    ensures |b| == DIRENT_SIZE * |es|
  {
    if es == [] then [] else StoredEntries(es[..|es| - 1]) + StoredEntry(es[|es| - 1])
  }

  predicate Storable(e: DirEntry)
  {
    |e.name| <= 60 && Bytes(e.name) && 0 as char !in e.name && e.inode < 0x1_0000_0000
  }

  /** A directory that stores these entries is read as them. */
  lemma {:induction false} EntriesRead(es: seq<DirEntry>)
    requires forall i :: 0 <= i < |es| ==> Storable(es[i])
    ensures EntriesOf(StoredEntries(es)) == es
  {
    hide EntryOf, StoredEntry;
    var b := StoredEntries(es);
    assert |b| / DIRENT_SIZE == |es|;
    forall i | 0 <= i < |es| ensures EntriesOf(b)[i] == es[i] {
      RecordOf(es, i);
      EntryReads(es[i]);
    }
  }

  lemma {:induction false} RecordOf(es: seq<DirEntry>, i: nat)
    requires i < |es|
    ensures Record(StoredEntries(es), i) == StoredEntry(es[i])
  {
    hide StoredEntry;
    var n := |es| - 1;
    if i < n {
      RecordOf(es[..n], i);
      var a, b := StoredEntries(es[..n]), StoredEntries(es);
      assert b[..|a|] == a;
      SameRecord(a, b, |a|, i);
    } else {
      assert es[..n] == es[..i];
    }
  }

  /** Inode n is the one stored in the n-th record of the table. */
  lemma {:induction false} InodeAtReads(d: seq<Byte>, n: nat, ino: Inode, nlinks: nat, uid: nat, gid: nat, atime: nat, mtime: nat, ctime: nat)
    requires HasInode(d, n) && InodeFits(ino)
    requires var at := 1024 * (2 + ImapBlocks(d[1024..1536]) + ZmapBlocks(d[1024..1536])) + 64 * (n - 1);
             d[at..at + 64] == StoredInode(ino, nlinks, uid, gid, atime, mtime, ctime)
    ensures InodeAt(d, n) == ino
  {
    hide InodeOf, StoredInode;
    var b := StoredInode(ino, nlinks, uid, gid, atime, mtime, ctime);
    InodeReads(ino, nlinks, uid, gid, atime, mtime, ctime);
    Shifted(d, b, TableStart(d) + INODE_SIZE * (n - 1), 0);
  }

  /** A superblock up to its magic number, field by field. */
  function StoredSuper(inodes: nat, inodeMap: nat, zoneMap: nat, firstZone: nat, logSize: nat, maxSize: nat, zones: nat, magic: nat): seq<Byte>
  {
    Stored32(inodes) + Stored16(0) + Stored16(inodeMap) + Stored16(zoneMap) + Stored16(firstZone) + Stored16(logSize) + Stored16(0)
    + Stored32(maxSize) + Stored32(zones) + Stored16(magic)
  }

  lemma {:induction false} SuperReads(b: seq<Byte>, inodes: nat, inodeMap: nat, zoneMap: nat, firstZone: nat, logSize: nat, maxSize: nat, zones: nat, magic: nat)
    requires |b| >= 512 && b[..26] == StoredSuper(inodes, inodeMap, zoneMap, firstZone, logSize, maxSize, zones, magic)
    requires inodeMap < 0x1_0000 && zoneMap < 0x1_0000 && magic < 0x1_0000
    ensures ImapBlocks(b) == inodeMap && ZmapBlocks(b) == zoneMap && MagicOf(b) == magic
  {
    hide Stored16, Stored32, U16At;
    var c := b[..26];
    assert b[6..8] == c[6..8] == Stored16(inodeMap);
    assert b[8..10] == c[8..10] == Stored16(zoneMap);
    assert b[24..26] == c[24..26] == Stored16(magic);
    Stored16Reads(b, 6, inodeMap);
    Stored16Reads(b, 8, zoneMap);
    Stored16Reads(b, 24, magic);
  }

  // ---------------------------------------------------------------- get_inode

  method GetInode(dev: Device, n: nat) returns (r: Option<Inode>)
    requires dev.Valid() && HasInode(dev.data[..], n)
    ensures r == if MagicOf(dev.data[1024..1536]) == MAGIC then Some(InodeAt(dev.data[..], n)) else None
  {
    hide Overlay, InodeOf, U16At;
    ghost var d := dev.data[..];
    var buffer := new Byte[BLOCK_SIZE](_ => 0);
    ghost var zeros := buffer[..];
    dev.SycRead(buffer, 512, 1024);
    OverlayPrefix(zeros, d[1024..1024 + 512]);
    var b := buffer[..512];
    if MagicOf(b) == MAGIC {
      var offset := (2 + ImapBlocks(b) + ZmapBlocks(b)) * BLOCK_SIZE + (n - 1) / INODES_PER_BLOCK * BLOCK_SIZE;
      InodeBlockOnDisk(|d|, TableStart(d), n);
      ghost var was := buffer[..];
      dev.SycRead(buffer, BLOCK_SIZE, offset);
      OverlayFull(was, d[offset..offset + BLOCK_SIZE]);
      var k := (n - 1) % INODES_PER_BLOCK;
      SameInode(d, buffer[..], offset, n);
      return Some(InodeOf(buffer[..], INODE_SIZE * k));
    }
    return None;
  }

  lemma {:induction false} OverlayPrefix(was: seq<Byte>, x: seq<Byte>)
    requires |x| <= |was|
    ensures Overlay(was, 0, x)[..|x|] == x
  {
  }

  lemma {:induction false} InodeBlockOnDisk(len: nat, start: nat, n: nat)
    requires len % BLOCK_SIZE == 0 && start % BLOCK_SIZE == 0 && n >= 1 && start + INODE_SIZE * n <= len
    ensures start + (n - 1) / INODES_PER_BLOCK * BLOCK_SIZE + BLOCK_SIZE <= len
  {
    var q := (n - 1) / INODES_PER_BLOCK;
    assert BLOCK_SIZE * q < INODE_SIZE * n <= BLOCK_SIZE * (q + 1);
    assert len / BLOCK_SIZE * BLOCK_SIZE == len && start / BLOCK_SIZE * BLOCK_SIZE == start;
  }

  lemma {:induction false} SameInode(d: seq<Byte>, b: seq<Byte>, offset: nat, n: nat)
    requires HasInode(d, n) && offset == TableStart(d) + (n - 1) / INODES_PER_BLOCK * BLOCK_SIZE
    requires offset + BLOCK_SIZE <= |d| && b == d[offset..offset + BLOCK_SIZE]
    ensures InodeOf(b, INODE_SIZE * ((n - 1) % INODES_PER_BLOCK)) == InodeAt(d, n)
  {
    var k := (n - 1) % INODES_PER_BLOCK;
    var at := TableStart(d) + INODE_SIZE * (n - 1);
    assert at == offset + INODE_SIZE * k;
    Shifted(d, b, offset, INODE_SIZE * k);
  }

  lemma {:induction false} ShiftedU16(d: seq<Byte>, b: seq<Byte>, offset: nat, at: nat)
    requires offset + |b| <= |d| && b == d[offset..offset + |b|] && at + 2 <= |b|
    ensures U16At(b, at) == U16At(d, offset + at)
  {
  }

  lemma {:induction false} ShiftedU32(d: seq<Byte>, b: seq<Byte>, offset: nat, at: nat)
    requires offset + |b| <= |d| && b == d[offset..offset + |b|] && at + 4 <= |b|
    ensures U32At(b, at) == U32At(d, offset + at)
  {
  }

  lemma {:induction false} Shifted(d: seq<Byte>, b: seq<Byte>, offset: nat, at: nat)
    requires offset + |b| <= |d| && b == d[offset..offset + |b|] && at + INODE_SIZE <= |b|
    ensures InodeOf(b, at) == InodeOf(d, offset + at)
  {
    hide U16At, U32At;
    var x, y := InodeOf(b, at), InodeOf(d, offset + at);
    ShiftedU16(d, b, offset, at);
    ShiftedU32(d, b, offset, at + 8);
    forall i | 0 <= i < 10 ensures x.zones[i] == y.zones[i] {
      ShiftedU32(d, b, offset, at + 24 + 4 * i);
    }
    assert x.zones == y.zones;
  }

  // ---------------------------------------------------------------- the directory buffer

  /** (size + 1023) & !1024, the buffer cache_at asks for; rounding up was meant. */
  function AskedBytes(size: nat): nat
  {
    var x := size + 1023;
    if x / 1024 % 2 == 1 then x - 1024 else x
  }

  /** What kmalloc then provides: a multiple of 8. */
  function BufferBytes(size: nat): nat { (AskedBytes(size) + 7) / 8 * 8 }

  /** read writes min(1024, size) bytes into it: they fit exactly when size is 0, above 1024, or not 1 more than a multiple of 8. */
  lemma {:induction false} DirectoryFits(size: nat)
    ensures (if size > 1024 then 1024 else size) <= BufferBytes(size) <==> FitsBuffer(size)
  {
    if 1 <= size <= 1024 {
      assert (size + 1023) / 1024 == 1;
      assert AskedBytes(size) == size - 1;
    } else if size > 1024 {
      assert AskedBytes(size) >= 1024;
    }
  }

  predicate FitsBuffer(size: nat) { size == 0 || size > BLOCK_SIZE || size % 8 != 1 }

  // ---------------------------------------------------------------- directories

  /** A read of at most one block from the start of a file copies from its first zone only. */
  lemma {:induction false} FirstBlockRead(d: seq<Byte>, zs: seq<nat>, limit: nat, buf: seq<Byte>)
    requires AllOnDisk(d, zs) && limit <= |buf| && limit <= BLOCK_SIZE
    ensures var n := Copied(Count(|zs|, 0, limit));
            && n <= |Content(d, zs)| && n <= |buf|
            && VisitAll(d, 0, StartState(0, limit, buf), zs).buf[..n] == Content(d, zs)[..n]
  {
    hide VisitAll, Visit, Content, Block, Copied;
    CopiesAll(limit);
    CopiesAll(0);
    if zs != [] {
      var st := StartState(0, limit, buf);
      var first, rest := zs[..1], zs[1..];
      assert zs == first + rest && first == [zs[0]];
      VisitAllAppend(d, 0, st, first, rest);
      SingleVisit(d, 0, st, zs[0]);
      VisitFirst(d, zs[0], limit, buf);
      VisitAllDone(d, 0, Visit(d, 0, st, zs[0]), rest);
      ContentStarts(d, zs);
      assert Content(d, zs)[..Copied(limit)] == Content(d, zs)[..BLOCK_SIZE][..Copied(limit)];
    }
  }

  /** The first zone satisfies a request of at most one block. */
  lemma {:induction false} VisitFirst(d: seq<Byte>, z: nat, limit: nat, buf: seq<Byte>)
    requires OnDisk(d, z) && limit <= |buf| && limit <= BLOCK_SIZE
    ensures Copied(limit) <= limit
    ensures var r := Visit(d, 0, StartState(0, limit, buf), z);
            r.done && r.buf[..Copied(limit)] == Block(d, z)[..Copied(limit)]
  {
    hide Block, Copied;
    CopiesAll(limit);
  }

  lemma {:induction false} ContentStarts(d: seq<Byte>, zs: seq<nat>)
    requires AllOnDisk(d, zs) && zs != []
    ensures Content(d, zs)[..BLOCK_SIZE] == Block(d, zs[0])
  {
    if |zs| == 1 {
      assert zs[..0] == [];
      assert Content(d, zs) == Block(d, zs[0]);
    } else {
      ContentStarts(d, zs[..|zs| - 1]);
    }
  }

  /** Reads the entries of a directory that lie in its first block. */
  method ReadDirectory(dev: Device, ino: Inode) returns (entries: seq<DirEntry>)
    requires dev.Valid() && GoodInode(dev.data[..], ino) && FitsBuffer(ino.size)
    ensures var all := EntriesOf(DirBytes(dev.data[..], ino));
            entries == all[..Min(PER_BLOCK, |all|)]
  {
    hide Overlay, Content, VisitAll, EntriesOf, FileZones, GoodInode, PiecesFull;
    ghost var d := dev.data[..];
    DirectoryFits(ino.size);
    var buf := new Byte[BufferBytes(ino.size)](_ => 0);
    ghost var was := buf[..];
    var sz := Read(dev, ino, buf, BLOCK_SIZE, 0);
    ghost var zs := FileZones(d, ino, 10);
    FirstBlockRead(d, zs, Limit(ino, BLOCK_SIZE), was);
    entries := EntriesOf(buf[..sz]);
    EntriesSeen(ino.size, |zs|, sz);
    SameEntries(buf[..sz], DirBytes(d, ino), Copied(sz));
  }

  /** Whole records survive what memcpy leaves out, and sixteen of them are a block. */
  lemma {:induction false} EntriesSeen(size: nat, zones: nat, sz: nat)
    requires sz == Count(zones, 0, Min(BLOCK_SIZE, size))
    ensures sz <= Min(size, BLOCK_SIZE * zones) && sz / DIRENT_SIZE * DIRENT_SIZE <= Copied(sz) <= sz
    ensures sz / DIRENT_SIZE == Min(PER_BLOCK, Min(size, BLOCK_SIZE * zones) / DIRENT_SIZE)
  {
    assert sz == Min(BLOCK_SIZE, Min(size, BLOCK_SIZE * zones));
    RecordsCopied(sz);
  }

  lemma {:induction false} RecordsCopied(n: nat)
    ensures n / DIRENT_SIZE * DIRENT_SIZE <= Copied(n) <= n
  {
    var q := n / DIRENT_SIZE;
    assert DIRENT_SIZE * q == 8 * (8 * q) <= n;
    assert 8 * q <= n / 8;
  }

  /** The disk holds exactly what the image says, with all entries of all its directories. */
  ghost predicate Describes(d: seq<Byte>, img: Image)
  {
    && |d| >= 2048 && MagicOf(d[1024..1536]) == MAGIC
    && (forall n :: n in img.inodes ==> HasInode(d, n) && InodeAt(d, n) == img.inodes[n])
    && (forall n :: n in img.dirs ==>
          && n in img.inodes && GoodInode(d, img.inodes[n]) && FitsBuffer(img.inodes[n].size)
          && EntriesOf(DirBytes(d, img.inodes[n])) == img.dirs[n])
  }

  lemma {:induction false} InodeOnDisk(d: seq<Byte>, img: Image, n: nat)
    requires Describes(d, img) && n in img.inodes
    ensures HasInode(d, n) && InodeAt(d, n) == img.inodes[n] && MagicOf(d[1024..1536]) == MAGIC
  {
  }

  lemma {:induction false} DirOnDisk(d: seq<Byte>, img: Image, n: nat)
    requires Describes(d, img) && n in img.dirs
    ensures n in img.inodes && GoodInode(d, img.inodes[n]) && FitsBuffer(img.inodes[n].size)
    ensures EntriesOf(DirBytes(d, img.inodes[n])) == img.dirs[n]
    ensures HasInode(d, n) && InodeAt(d, n) == img.inodes[n] && MagicOf(d[1024..1536]) == MAGIC
  {
  }

  datatype OpenResult = Ok(inode: Inode) | FileNotFound

  lemma {:induction false} InsertIsSum(m: map<string, Inode>, p: string, ino: Inode)
    ensures m[p := ino] == m + map[p := ino]
  {
  }

  class Cache {
    var btm: map<string, Inode>

    /** cache_at: inserts every file below directory n, recursing into subdirectories. */
    method CacheAt(dev: Device, cwd: string, n: nat, ghost img: Image, ghost rank: nat -> nat)
      requires dev.Valid() && Describes(dev.data[..], img) && Tree(img, rank) && n in img.dirs
      modifies this
      ensures btm == old(btm) + Cached(img, rank, cwd, n)
      decreases rank(n)
    {
      hide Tree, Cached, CachedBelow, CachedEntry, InodeAt, HasInode, EntriesOf, DirBytes, GoodInode, Describes, MagicOf, Recode;
      DirOnDisk(dev.data[..], img, n);
      var dir := GetInode(dev, n);
      var entries := ReadDirectory(dev, dir.value);
      CachedNone(img, rank, cwd, n);
      assert |entries| == Seen(img, n);
      for i := 0 to |entries|
        invariant btm == old(btm) + CachedBelow(img, rank, cwd, n, i)
      {
        CachedStep(img, rank, cwd, n, i, old(btm));
        if 2 <= i && entries[i].inode != 0 {
          var e := entries[i];
          InodeOnDisk(dev.data[..], img, e.inode);
          var ino := GetInode(dev, e.inode);
          var path := Recode(cwd);
          if n != ROOT {
            path := path + "/";
          }
          path := path + e.name;
          if IsDir(ino.value) {
            CacheAt(dev, path, e.inode, img, rank);
          } else {
            InsertIsSum(btm, path, ino.value);
            btm := btm[path := ino.value];
          }
        }
      }
    }

    /** init and refresh: the cache of the whole tree, from the root. */
    method Refresh(dev: Device, ghost img: Image, ghost rank: nat -> nat)
      requires dev.Valid() && Describes(dev.data[..], img) && Tree(img, rank)
      modifies this
      ensures btm == Cached(img, rank, "/", ROOT)
    {
      hide Describes;
      btm := map[];
      CacheAt(dev, "/", ROOT, img, rank);
    }

    method Open(path: string) returns (r: OpenResult)
      ensures r == if path in btm then Ok(btm[path]) else FileNotFound
    {
      if path in btm {
        r := Ok(btm[path]);
      } else {
        r := FileNotFound;
      }
    }
  }

  /**
   open after init or refresh. With ASCII directories: the inode at the end of the path when
   every component is found among the entries cache_at sees, and FileNotFound otherwise. When
   also nothing is hidden behind a directory's first block that is, for paths without `.` and
   `..`, what walking finds.
   */
  method RefreshThenOpen(cache: Cache, dev: Device, path: string, ghost img: Image, ghost rank: nat -> nat)
    returns (r: OpenResult)
    requires dev.Valid() && Describes(dev.data[..], img) && Tree(img, rank)
    modifies cache
    ensures !GarblesFile(img, rank) ==>
              && (r.Ok? <==> FileAt(img, path).Reached? && NearPath(img, path))
              && (r.Ok? ==> FileAt(img, path).inode in img.inodes && r.inode == img.inodes[FileAt(img, path).inode])
    ensures !GarblesFile(img, rank) && !HidesFile(img, rank) && PlainPath(path) ==> (r.Ok? <==> FileAt(img, path).Reached?)
    ensures r.Ok? <==> path in Cached(img, rank, "/", ROOT)
  {
    hide Tree, Describes, HidesFile, GarblesFile, AsciiBelow, Cached;
    cache.Refresh(dev, img, rank);
    CacheAgreesIff(img, rank);
    if !GarblesFile(img, rank) { CacheIsWalk(img, rank, path); }
    r := cache.Open(path);
  }
}
