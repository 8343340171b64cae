/**
 MinixFileSystem::write where it does what it is meant to: block-aligned writes of at most one
 block to a direct or singly indirect zone. (write hands the whole buffer to every zone it
 visits, so larger or unaligned writes put the same bytes in several places.)
 */
module MinixWrite {
  import opened Cpu
  import opened Disk
  import opened MinixFile
  import opened MinixRead

  /** The zone of file block k, when it is direct or singly indirect. */
  ghost predicate Reaches(d: seq<Byte>, ino: Inode, k: nat)
  {
    GoodInode(d, ino) && k < |FileZones(d, ino, 8)|
  }

  method Write(dev: Device, ino: Inode, buffer: array<Byte>, size: nat, offset: nat) returns (n: nat)
    requires dev.Valid() && dev.data != buffer && size <= buffer.Length
    requires offset % BLOCK_SIZE == 0 && 1 <= size <= BLOCK_SIZE && Reaches(dev.data[..], ino, offset / BLOCK_SIZE)
    modifies dev.data
    ensures n == size
    ensures var d, z := old(dev.data[..]), FileZones(old(dev.data[..]), ino, 8)[offset / BLOCK_SIZE];
            OnDisk(d, z) && Copied(size) <= size && dev.data[..] == Overlay(d, BLOCK_SIZE * z, buffer[..Copied(size)])
  {
    hide Overlay, Copied, Good, Leaves, Block, U32;
    ghost var d := dev.data[..];
    FileZonesOnDisk(d, ino, 8);
    var blocksSeen, offsetBlock, offsetByte := 0, offset / BLOCK_SIZE, offset % BLOCK_SIZE;
    var bytesLeft, bytesWrite := size, 0;
    for i := 0 to 7
      invariant dev.data[..] == d && blocksSeen == |FileZones(d, ino, i)| <= offsetBlock
      invariant offsetByte == 0 && bytesLeft == size && bytesWrite == 0
    {
      ZonesGrow(d, ino, i, 8);
      if ino.zones[i] != 0 {
        DirectZone(d, ino, i);
        if offsetBlock <= blocksSeen {
          dev.SycWrite(buffer, size, ino.zones[i] * BLOCK_SIZE);
          var w := if BLOCK_SIZE - offsetByte > bytesLeft then bytesLeft else BLOCK_SIZE - offsetByte;
          offsetByte := 0;
          bytesWrite := bytesWrite + w;
          bytesLeft := bytesLeft - w;
          if bytesLeft == 0 {
            return bytesWrite;
          }
        }
        blocksSeen := blocksSeen + 1;
      }
    }
    n := WriteIndirect(dev, ino, buffer, size, offsetBlock, blocksSeen, d);
  }

  /** The singly indirect part. */
  method WriteIndirect(dev: Device, ino: Inode, buffer: array<Byte>, size: nat, offsetBlock: nat, seen: nat, ghost d: seq<Byte>)
    returns (n: nat)
    requires dev.Valid() && dev.data != buffer && size <= buffer.Length && dev.data[..] == d
    requires 1 <= size <= BLOCK_SIZE && Reaches(d, ino, offsetBlock) && seen == |FileZones(d, ino, 7)| <= offsetBlock
    modifies dev.data
    ensures n == size
    ensures var z := FileZones(d, ino, 8)[offsetBlock];
            OnDisk(d, z) && Copied(size) <= size && dev.data[..] == Overlay(d, BLOCK_SIZE * z, buffer[..Copied(size)])
  {
    hide Overlay, Copied, Good, Block, U32, LeavesBelow, FileZones, Leaves, Pointer, LittleEndian, AllOnDisk;
    n := 0;
    FileZonesOnDisk(d, ino, 8);
    var blocksSeen, offsetByte, bytesLeft, bytesWrite := seen, 0, size, 0;
    var z := ino.zones[7];
    IndirectZone(d, ino);
    if z != 0 {
      var indirect := new Byte[BLOCK_SIZE](_ => 0);
      Fill(dev, indirect, z, d);
      for i := 0 to NUM_IPTRS
        invariant dev.data[..] == d && indirect[..] == Block(d, z)
        invariant blocksSeen == seen + |LeavesBelow(d, z, 1, i)| <= offsetBlock
        invariant offsetByte == 0 && bytesLeft == size && bytesWrite == 0
      {
        IndirectPointer(d, ino, i);
        var p := LittleEndian(indirect[4 * i], indirect[4 * i + 1], indirect[4 * i + 2], indirect[4 * i + 3]);
        assert p == Pointer(d, z, i) by { ReadsPointer(indirect[..], d, z, i); }
        if p != 0 {
          if offsetBlock <= blocksSeen {
            dev.SycWrite(buffer, size, BLOCK_SIZE * p);
            var w := if BLOCK_SIZE - offsetByte > bytesLeft then bytesLeft else BLOCK_SIZE - offsetByte;
            offsetByte := 0;
            bytesWrite := bytesWrite + w;
            bytesLeft := bytesLeft - w;
            if bytesLeft == 0 {
              return bytesWrite;
            }
          }
          blocksSeen := blocksSeen + 1;
        }
      }
    }
    assert false;
  }

  lemma {:induction false} ReadsPointer(b: seq<Byte>, d: seq<Byte>, z: nat, i: nat)
    requires OnDisk(d, z) && b == Block(d, z) && i < NUM_IPTRS
    ensures LittleEndian(b[4 * i], b[4 * i + 1], b[4 * i + 2], b[4 * i + 3]) == Pointer(d, z, i)
  {
  }

  /** The zones of an inode only ever extend the list. */
  lemma {:induction false} ZonesGrow(d: seq<Byte>, ino: Inode, i: nat, n: nat)
    requires GoodInode(d, ino) && i <= n <= 10
    ensures FileZones(d, ino, i) <= FileZones(d, ino, n)
    ensures i < n ==> FileZones(d, ino, i + 1) <= FileZones(d, ino, n)
    decreases n
  {
    if i < n {
      ZonesGrow(d, ino, i, n - 1);
    }
  }

  lemma {:induction false} DirectZone(d: seq<Byte>, ino: Inode, i: nat)
    requires GoodInode(d, ino) && i < 7 && ino.zones[i] != 0
    ensures OnDisk(d, ino.zones[i]) && FileZones(d, ino, i + 1) == FileZones(d, ino, i) + [ino.zones[i]]
  {
    assert Good(d, ino.zones[i], 0);
  }

  lemma {:induction false} IndirectZone(d: seq<Byte>, ino: Inode)
    requires GoodInode(d, ino)
    ensures ino.zones[7] == 0 ==> FileZones(d, ino, 8) == FileZones(d, ino, 7)
    ensures ino.zones[7] != 0 ==>
              && OnDisk(d, ino.zones[7]) && Good(d, ino.zones[7], 1)
              && FileZones(d, ino, 8) == FileZones(d, ino, 7) + LeavesBelow(d, ino.zones[7], 1, NUM_IPTRS)
              && LeavesBelow(d, ino.zones[7], 1, 0) == []
  {
    assert ino.zones[7] != 0 ==> Good(d, ino.zones[7], 1);
  }

  /** Pointer i of the indirect block names the next file block, if it is not zero. */
  lemma {:induction false} IndirectPointer(d: seq<Byte>, ino: Inode, i: nat)
    requires GoodInode(d, ino) && ino.zones[7] != 0 && i < NUM_IPTRS
    ensures Good(d, ino.zones[7], 1)
    ensures var z := ino.zones[7];
            var p, k := Pointer(d, z, i), |FileZones(d, ino, 7)| + |LeavesBelow(d, z, 1, i)|;
            && |LeavesBelow(d, z, 1, i + 1)| == |LeavesBelow(d, z, 1, i)| + (if p == 0 then 0 else 1)
            && (p != 0 ==> OnDisk(d, p) && k < |FileZones(d, ino, 8)| && FileZones(d, ino, 8)[k] == p)
  {
    var z := ino.zones[7];
    assert Good(d, z, ZoneLevel(7));
    IndirectZone(d, ino);
    BelowGrows(d, z, i + 1, NUM_IPTRS);
    var p := Pointer(d, z, i);
    if p != 0 {
      assert Good(d, p, 0);
      assert LeavesBelow(d, z, 1, i + 1) == LeavesBelow(d, z, 1, i) + [p];
    }
  }

  lemma {:induction false} BelowGrows(d: seq<Byte>, z: nat, i: nat, n: nat)
    requires Good(d, z, 1) && i <= n <= NUM_IPTRS
    ensures LeavesBelow(d, z, 1, i) <= LeavesBelow(d, z, 1, n)
    decreases n
  {
    hide Pointer, LeavesBelow, Leaves, Good;
    if i < n {
      BelowGrows(d, z, i, n - 1);
      BelowStep(d, z, 1, n);
    }
  }

  // ---------------------------------------------------------------- what a write leaves alone

  /** d' differs from d in block w at most. */
  ghost predicate SameButBlock(d: seq<Byte>, d': seq<Byte>, w: nat)
  {
    |d'| == |d| && forall z: nat :: OnDisk(d, z) && z != w ==> Block(d', z) == Block(d, z)
  }

  /** Block w is none of the pointer blocks under z. */
  ghost predicate Avoids(d: seq<Byte>, z: nat, level: nat, w: nat)
    requires Good(d, z, level)
    decreases level
  {
    level > 0 ==>
      z != w && forall i :: 0 <= i < NUM_IPTRS && Pointer(d, z, i) != 0 ==> Avoids(d, Pointer(d, z, i), level - 1, w)
  }

  ghost predicate InodeAvoids(d: seq<Byte>, ino: Inode, w: nat)
    requires GoodInode(d, ino)
  {
    forall i :: 0 <= i < 10 && ino.zones[i] != 0 ==> Avoids(d, ino.zones[i], ZoneLevel(i), w)
  }

  lemma {:induction false} OverlayBlock(d: seq<Byte>, w: nat, data: seq<Byte>)
    requires OnDisk(d, w) && |data| <= BLOCK_SIZE
    ensures SameButBlock(d, Overlay(d, BLOCK_SIZE * w, data), w)
    ensures Block(Overlay(d, BLOCK_SIZE * w, data), w) == Overlay(Block(d, w), 0, data)
  {
    hide Overlay, Block;
    OverlaidBlock(d, w, data);
    forall z: nat | OnDisk(d, z) && z != w ensures Block(Overlay(d, BLOCK_SIZE * w, data), z) == Block(d, z) {
      OtherBlock(d, w, data, z);
    }
  }

  lemma {:induction false} OverlayAt(dst: seq<Byte>, at: nat, data: seq<Byte>, k: nat)
    requires at + |data| <= |dst| && k < |dst|
    ensures Overlay(dst, at, data)[k] == if at <= k < at + |data| then data[k - at] else dst[k]
  {
  }

  lemma {:induction false} BlockAt(d: seq<Byte>, w: nat, k: nat)
    requires OnDisk(d, w) && k < BLOCK_SIZE
    ensures BLOCK_SIZE * w + k < |d| && Block(d, w)[k] == d[BLOCK_SIZE * w + k]
  {
  }

  lemma {:induction false} OverlaidBlock(d: seq<Byte>, w: nat, data: seq<Byte>)
    requires OnDisk(d, w) && |data| <= BLOCK_SIZE
    ensures Block(Overlay(d, BLOCK_SIZE * w, data), w) == Overlay(Block(d, w), 0, data)
  {
    hide Overlay, Block;
    var at := BLOCK_SIZE * w;
    var x, y := Block(Overlay(d, at, data), w), Overlay(Block(d, w), 0, data);
    forall k | 0 <= k < BLOCK_SIZE ensures x[k] == y[k] {
      BlockAt(Overlay(d, at, data), w, k);
      BlockAt(d, w, k);
      OverlayAt(d, at, data, at + k);
      OverlayAt(Block(d, w), 0, data, k);
    }
  }

  lemma {:induction false} OtherBlock(d: seq<Byte>, w: nat, data: seq<Byte>, z: nat)
    requires OnDisk(d, w) && |data| <= BLOCK_SIZE && OnDisk(d, z) && z != w
    ensures Block(Overlay(d, BLOCK_SIZE * w, data), z) == Block(d, z)
  {
    hide Overlay, Block;
    var at, from := BLOCK_SIZE * w, BLOCK_SIZE * z;
    var x, y := Block(Overlay(d, at, data), z), Block(d, z);
    assert from + BLOCK_SIZE <= at || at + BLOCK_SIZE <= from;
    forall k | 0 <= k < BLOCK_SIZE ensures x[k] == y[k] {
      BlockAt(Overlay(d, at, data), z, k);
      BlockAt(d, z, k);
      OverlayAt(d, at, data, from + k);
    }
  }

  /** A tree whose pointer blocks are untouched still leads to the same leaves. */
  lemma {:induction false} SameLeaves(d: seq<Byte>, d': seq<Byte>, z: nat, level: nat, w: nat)
    requires Good(d, z, level) && Avoids(d, z, level, w) && SameButBlock(d, d', w)
    ensures Good(d', z, level) && Leaves(d', z, level) == Leaves(d, z, level)
    decreases level, NUM_IPTRS + 1
  {
    if level > 0 {
      SamePointers(d, d', z, w);
      forall i | 0 <= i < NUM_IPTRS && Pointer(d', z, i) != 0 ensures Good(d', Pointer(d', z, i), level - 1) {
        SameLeaves(d, d', Pointer(d, z, i), level - 1, w);
      }
      SameLeavesBelow(d, d', z, level, NUM_IPTRS, w);
    }
  }

  lemma {:induction false} SamePointers(d: seq<Byte>, d': seq<Byte>, z: nat, w: nat)
    requires OnDisk(d, z) && z != w && SameButBlock(d, d', w)
    ensures OnDisk(d', z) && forall i :: 0 <= i < NUM_IPTRS ==> Pointer(d', z, i) == Pointer(d, z, i)
  {
  }

  lemma {:induction false} SameLeavesBelow(d: seq<Byte>, d': seq<Byte>, z: nat, level: nat, n: nat, w: nat)
    requires Good(d, z, level) && Avoids(d, z, level, w) && SameButBlock(d, d', w) && level > 0 && n <= NUM_IPTRS
    requires Good(d', z, level)
    ensures LeavesBelow(d', z, level, n) == LeavesBelow(d, z, level, n)
    decreases level, n
  {
    hide Pointer, SameButBlock, Leaves, LeavesBelow, Good, Avoids;
    if n == 0 {
      BelowNone(d, z, level);
      BelowNone(d', z, level);
    } else {
      AvoidsStep(d, z, level, w, n - 1);
      SamePointers(d, d', z, w);
      SameLeavesBelow(d, d', z, level, n - 1, w);
      BelowStep(d, z, level, n);
      BelowStep(d', z, level, n);
      if Pointer(d, z, n - 1) != 0 {
        SameLeaves(d, d', Pointer(d, z, n - 1), level - 1, w);
      }
    }
  }

  lemma {:induction false} AvoidsStep(d: seq<Byte>, z: nat, level: nat, w: nat, i: nat)
    requires Good(d, z, level) && Avoids(d, z, level, w) && level > 0 && i < NUM_IPTRS
    ensures OnDisk(d, z) && z != w
    ensures var p := Pointer(d, z, i); p != 0 ==> Good(d, p, level - 1) && Avoids(d, p, level - 1, w)
  {
    hide Pointer;
  }

  lemma {:induction false} SameFile(d: seq<Byte>, d': seq<Byte>, ino: Inode, w: nat, n: nat)
    requires GoodInode(d, ino) && InodeAvoids(d, ino, w) && SameButBlock(d, d', w) && n <= 10
    ensures GoodInode(d', ino) && FileZones(d', ino, n) == FileZones(d, ino, n)
  {
    forall i | 0 <= i < 10 && ino.zones[i] != 0
      ensures Good(d', ino.zones[i], ZoneLevel(i))
      ensures Leaves(d', ino.zones[i], ZoneLevel(i)) == Leaves(d, ino.zones[i], ZoneLevel(i))
    {
      SameLeaves(d, d', ino.zones[i], ZoneLevel(i), w);
    }
    if n > 0 { SameFile(d, d', ino, w, n - 1); }
  }

  // ---------------------------------------------------------------- write, then read

  /** A read of at most one block at a block boundary is a single piece. */
  lemma {:induction false} OnePiece(n: nat, k: nat, size: nat)
    requires size <= BLOCK_SIZE && Copied(size) == size && k < n
    ensures PiecesFull(n, BLOCK_SIZE * k, size) && Count(n, BLOCK_SIZE * k, size) == size
  {
    forall j | 0 <= j < n ensures Copied(Piece(j, BLOCK_SIZE * k, size)) == Piece(j, BLOCK_SIZE * k, size) {
      assert Piece(j, BLOCK_SIZE * k, size) == if j == k then size else 0;
    }
  }

  /** Block k of the content is the block of the k-th zone. */
  lemma {:induction false} ContentBlock(d: seq<Byte>, zs: seq<nat>, k: nat)
    requires AllOnDisk(d, zs) && k < |zs|
    ensures Content(d, zs)[BLOCK_SIZE * k..BLOCK_SIZE * (k + 1)] == Block(d, zs[k])
  {
    hide Block;
    var n := |zs| - 1;
    var c, last := Content(d, zs[..n]), Block(d, zs[n]);
    assert Content(d, zs) == c + last;
    if k < n {
      ContentBlock(d, zs[..n], k);
      assert (c + last)[BLOCK_SIZE * k..BLOCK_SIZE * (k + 1)] == c[BLOCK_SIZE * k..BLOCK_SIZE * (k + 1)];
    } else {
      assert (c + last)[BLOCK_SIZE * k..BLOCK_SIZE * (k + 1)] == last;
    }
  }

  predicate NoDuplicates(zs: seq<nat>)
  {
    forall i, j :: 0 <= i < j < |zs| ==> zs[i] != zs[j]
  }

  /** The file and its block k after data has been laid over the start of block k. */
  lemma {:induction false} WrittenFile(d: seq<Byte>, ino: Inode, k: nat, data: seq<Byte>)
    requires Reaches(d, ino, k) && NoDuplicates(FileZones(d, ino, 10)) && |data| <= BLOCK_SIZE
    requires InodeAvoids(d, ino, FileZones(d, ino, 8)[k]) && OnDisk(d, FileZones(d, ino, 8)[k])
    ensures var zs, z := FileZones(d, ino, 10), FileZones(d, ino, 8)[k];
            var d' := Overlay(d, BLOCK_SIZE * z, data);
            && GoodInode(d', ino) && FileZones(d', ino, 10) == zs && k < |zs| && zs[k] == z
            && AllOnDisk(d, zs) && AllOnDisk(d', zs)
            && Block(d', zs[k]) == Overlay(Block(d, zs[k]), 0, data)
            && forall j :: 0 <= j < |zs| && j != k ==> Block(d', zs[j]) == Block(d, zs[j])
  {
    var zs, z := FileZones(d, ino, 10), FileZones(d, ino, 8)[k];
    ZonesGrow(d, ino, 8, 10);
    FileZonesOnDisk(d, ino, 10);
    OverlayBlock(d, z, data);
    SameFile(d, Overlay(d, BLOCK_SIZE * z, data), ino, z, 10);
  }

  lemma {:induction false} HeadOfBlock(c: seq<Byte>, b: seq<Byte>, was: seq<Byte>, data: seq<Byte>, k: nat, out: seq<Byte>)
    requires |was| == |b| == BLOCK_SIZE && 0 < |data| <= BLOCK_SIZE && BLOCK_SIZE * (k + 1) <= |c| && |data| <= |out|
    requires c[BLOCK_SIZE * k..BLOCK_SIZE * (k + 1)] == b && b == Overlay(was, 0, data)
    ensures Overlay(out, 0, Slice(c, BLOCK_SIZE * k, |data|)) == Overlay(out, 0, data)
  {
    var s := Slice(c, BLOCK_SIZE * k, |data|);
    forall i | 0 <= i < |data| ensures s[i] == data[i] {
      assert c[BLOCK_SIZE * k..BLOCK_SIZE * (k + 1)][i] == c[BLOCK_SIZE * k + i];
    }
    assert s == data;
  }

  /**
   A write of 1 to 1024 bytes (fewer than 8, or a multiple of 8) to a direct or singly
   indirect block, then a read of the same range: the bytes come back, and every other block
   of the file is as it was.
   */
  method WriteThenRead(dev: Device, ino: Inode, buffer: array<Byte>, out: array<Byte>, size: nat, offset: nat)
    returns (w: nat, r: nat)
    requires dev.Valid() && dev.data != buffer && dev.data != out && buffer != out
    requires size <= buffer.Length && size <= out.Length && size <= ino.size
    requires offset % BLOCK_SIZE == 0 && 1 <= size <= BLOCK_SIZE && (size < 8 || size % 8 == 0)
    requires Reaches(dev.data[..], ino, offset / BLOCK_SIZE) && NoDuplicates(FileZones(dev.data[..], ino, 10))
    requires InodeAvoids(dev.data[..], ino, FileZones(dev.data[..], ino, 8)[offset / BLOCK_SIZE])
    modifies dev.data, out
    ensures w == size && r == size
    ensures out[..] == Overlay(old(out[..]), 0, buffer[..size])
    ensures var d, d' := old(dev.data[..]), dev.data[..];
            var zs := FileZones(d, ino, 10);
            && GoodInode(d', ino) && FileZones(d', ino, 10) == zs && AllOnDisk(d, zs) && AllOnDisk(d', zs)
            && forall j :: 0 <= j < |zs| && j != offset / BLOCK_SIZE ==> Block(d', zs[j]) == Block(d, zs[j])
  {
    hide Overlay, Copied, Good, Leaves, Block, Content, VisitAll, PiecesFull, Count, Slice, NoDuplicates, FileZones;
    ghost var d, k, was := dev.data[..], offset / BLOCK_SIZE, out[..];
    CopiesAll(size);
    w := Write(dev, ino, buffer, size, offset);
    WrittenFile(d, ino, k, buffer[..size]);
    ghost var d', zs := dev.data[..], FileZones(d, ino, 10);
    OnePiece(|zs|, k, size);
    r := Read(dev, ino, out, size, offset);
    ContentBlock(d', zs, k);
    HeadOfBlock(Content(d', zs), Block(d', zs[k]), Block(d, zs[k]), buffer[..size], k, was);
  }
}
