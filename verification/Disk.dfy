/** memcpy of cpu.rs. */
module Cpu {
  type Byte = b: int | 0 <= b < 256

  /** dst with data laid over it from position at. */
  function Overlay(dst: seq<Byte>, at: nat, data: seq<Byte>): (r: seq<Byte>)
    requires at + |data| <= |dst|
    ensures |r| == |dst|
  {
    dst[..at] + data + dst[at + |data|..]
  }

  /** How many of n bytes memcpy really copies: its tail loop only runs when there was no 8-byte part. */
  function Copied(n: nat): nat
  {
    if n < 8 then n else n / 8 * 8
  }

  lemma {:induction false} CopiesAll(n: nat)
    ensures Copied(n) <= n
    ensures Copied(n) == n <==> n < 8 || n % 8 == 0
    ensures n >= 8 ==> Copied(n) % 8 == 0 && n < Copied(n) + 8
  {
  }

  method Memcpy(dest: array<Byte>, d: nat, src: array<Byte>, s: nat, bytes: nat)
    requires dest != src && d + bytes <= dest.Length && s + bytes <= src.Length
    modifies dest
    ensures dest[..] == Overlay(old(dest[..]), d, src[s..s + Copied(bytes)])
  {
    ghost var was := dest[..];
    var bytesAs8 := bytes / 8;
    for i := 0 to bytesAs8
      invariant forall k :: 0 <= k < dest.Length ==> dest[k] == if d <= k < d + 8 * i then src[s + (k - d)] else was[k]
    {
      // One 64-bit store.
      forall k | 0 <= k < 8 {
        dest[d + 8 * i + k] := src[s + 8 * i + k];
      }
    }
    var completed := bytesAs8 * 8;
    var remaining := bytes - completed;
    var i := completed;
    while i < remaining
      invariant completed <= i && (completed < remaining ==> i <= remaining) && (remaining <= completed ==> i == completed)
      invariant forall k :: 0 <= k < dest.Length ==> dest[k] == if d <= k < d + i then src[s + (k - d)] else was[k]
    {
      dest[d + i] := src[s + i];
      i := i + 1;
    }
    assert i == Copied(bytes);
  }
}

/**
 The byte-addressed view that fs.rs builds on a device of 512-byte sectors, by reading whole
 sectors and, for writes, by read-modify-write of 1024-byte blocks.
 */
module Disk {
  import opened Common
  import opened Cpu

  const SECTOR := 512
  const BLOCK_SIZE := 1024

  const TWO_32 := 0x1_0000_0000

  /** The sum of offset, size and a rounding in 32 bits. */
  function Sum32(offset: nat, size: nat, round: nat): nat { (offset + size + round) % TWO_32 }

  /** The end that syc_read computes, in 32 bits, is the range's end rounded up exactly when the sum does not overflow. */
  lemma {:induction false} EndRoundsIff(offset: nat, size: nat)
    ensures Sum32(offset, size, 511) / 512 == (offset + size + 511) / 512 <==> offset + size + 511 < TWO_32
  {
    var x := offset + size + 511;
    var q, r := x / 0x1_0000_0000, x % 0x1_0000_0000;
    QuotientIs(x, 512, 0x80_0000 * q + r / 512, r % 512);
  }

  lemma {:induction false} NoOverflow(offset: nat, size: nat, round: nat)
    requires offset + size + round < TWO_32
    ensures Sum32(offset, size, round) == offset + size + round
  {
  }

  /** Zone 2^22 - 1 is where it does: the last block below 4 GiB seems to end at 0. */
  lemma {:induction false} LastZoneOverflows(zone: nat)
    requires zone < 0x40_0000
    ensures BLOCK_SIZE * zone + BLOCK_SIZE + 511 < TWO_32 <==> zone != 0x3f_ffff
    ensures zone == 0x3f_ffff ==> Sum32(BLOCK_SIZE * zone, BLOCK_SIZE, 511) / 512 == 0
  {
  }

  class Device {
    var data: array<Byte>

    /** Whole blocks, and small enough that 32-bit offsets never overflow when rounded up. */
    ghost predicate Valid()
      reads this
    {
      data.Length % BLOCK_SIZE == 0 && data.Length + BLOCK_SIZE <= TWO_32
    }

    /** syscall_block_read on a working device; the driver rejects a size that is not whole sectors. */
    method BlockRead(buffer: array<Byte>, size: nat, offset: nat)
      requires buffer != data && size <= buffer.Length
      requires size % SECTOR == 0 && offset % SECTOR == 0 && offset + size <= data.Length
      modifies buffer
      ensures buffer[..] == Overlay(old(buffer[..]), 0, data[offset..offset + size])
    {
      var sector := offset / SECTOR;
      forall k | 0 <= k < size {
        buffer[k] := data[sector * SECTOR + k];
      }
    }

    method BlockWrite(buffer: array<Byte>, size: nat, offset: nat)
      requires buffer != data && size <= buffer.Length
      requires size % SECTOR == 0 && offset % SECTOR == 0 && offset + size <= data.Length
      modifies data
      ensures data[..] == Overlay(old(data[..]), offset, buffer[..size])
    {
      var sector := offset / SECTOR;
      forall k | 0 <= k < size {
        data[sector * SECTOR + k] := buffer[k];
      }
    }

    /** syc_read: any range of the disk, through a sector-aligned bounce buffer. */
    method SycRead(buffer: array<Byte>, size: nat, offset: nat)
      requires Valid() && buffer != data && size <= buffer.Length && offset + size <= data.Length
      modifies buffer
      ensures buffer[..] == Overlay(old(buffer[..]), 0, data[offset..offset + size])
    {
      hide Overlay, Sum32;
      NoOverflow(offset, size, SECTOR - 1);
      var blockStart := offset / SECTOR;
      var blockEnd := Sum32(offset, size, SECTOR - 1) / SECTOR;
      var actual := (blockEnd - blockStart) * SECTOR;
      SectorsCover(data.Length, offset, size);
      var temp := new Byte[actual](_ => 0);
      ghost var disk, from, zeros := data[..], blockStart * SECTOR, temp[..];
      BlockRead(temp, actual, blockStart * SECTOR);
      OverlayFull(zeros, disk[from..from + actual]);
      var internal := offset % SECTOR;
      Copy(buffer, temp, internal, size);
      SliceOfSlice(disk, from, actual, internal, size);
    }

    /** syc_write: read-modify-write of the blocks that cover the range. */
    method SycWrite(buffer: array<Byte>, size: nat, offset: nat)
      requires Valid() && buffer != data && size <= buffer.Length && offset + size <= data.Length
      modifies data
      ensures Copied(size) <= size && data[..] == Overlay(old(data[..]), offset, buffer[..Copied(size)])
    {
      hide Overlay, Copied, Sum32;
      NoOverflow(offset, size, BLOCK_SIZE - 1);
      var blockStart := offset / BLOCK_SIZE;
      var blockEnd := Sum32(offset, size, BLOCK_SIZE - 1) / BLOCK_SIZE;
      var actual := (blockEnd - blockStart) * BLOCK_SIZE;
      BlocksCover(data.Length, offset, size);
      CopiesAll(size);
      var temp := new Byte[actual](_ => 0);
      ghost var disk, from, zeros := data[..], blockStart * BLOCK_SIZE, temp[..];
      SycRead(temp, actual, blockStart * BLOCK_SIZE);
      OverlayFull(zeros, disk[from..from + actual]);
      var internal := offset % BLOCK_SIZE;
      assert internal + size <= temp.Length;
      Memcpy(temp, internal, buffer, 0, size);
      BlockWrite(temp, actual, blockStart * BLOCK_SIZE);
      assert temp[..actual] == temp[..] && buffer[0..Copied(size)] == buffer[..Copied(size)];
      OverlayWithin(disk, from, actual, internal, buffer[..Copied(size)]);
    }
  }

  /** copy_nonoverlapping to the start of a buffer. */
  method Copy(dest: array<Byte>, src: array<Byte>, s: nat, n: nat)
    requires dest != src && s + n <= src.Length && n <= dest.Length
    modifies dest
    ensures dest[..] == Overlay(old(dest[..]), 0, src[s..s + n])
  {
    forall k | 0 <= k < n {
      dest[k] := src[s + k];
    }
  }

  lemma {:induction false} OverlayFull(was: seq<Byte>, d: seq<Byte>)
    requires |was| == |d|
    ensures Overlay(was, 0, d) == d
  {
  }

  lemma {:induction false} SliceOfSlice(disk: seq<Byte>, from: nat, n: nat, internal: nat, size: nat)
    requires from + n <= |disk| && internal + size <= n
    ensures disk[from..from + n][internal..internal + size] == disk[from + internal..from + internal + size]
  {
    var a, b := disk[from..from + n][internal..internal + size], disk[from + internal..from + internal + size];
    assert forall k :: 0 <= k < size ==> a[k] == b[k];
  }

  lemma {:induction false} SectorsCover(length: nat, offset: nat, size: nat)
    requires length % BLOCK_SIZE == 0 && offset + size <= length
    ensures var from := offset / SECTOR * SECTOR;
            var to := (offset + size + SECTOR - 1) / SECTOR * SECTOR;
            from + offset % SECTOR == offset && offset + size <= to <= length && from <= to
  {
    var q, t, n := offset / 512, (offset + size + 511) / 512, length / 1024;
    assert offset == 512 * q + offset % 512 && length == 512 * (2 * n);
    assert offset + size + 511 == 512 * t + (offset + size + 511) % 512;
    assert q <= t <= 2 * n;
  }

  lemma {:induction false} BlocksCover(length: nat, offset: nat, size: nat)
    requires length % BLOCK_SIZE == 0 && offset + size <= length
    ensures var from := offset / BLOCK_SIZE * BLOCK_SIZE;
            var to := (offset + size + BLOCK_SIZE - 1) / BLOCK_SIZE * BLOCK_SIZE;
            && from + offset % BLOCK_SIZE == offset && offset + size <= to <= length && from <= to
            && from % SECTOR == 0 && (to - from) % SECTOR == 0
  {
    var q, t, n := offset / 1024, (offset + size + 1023) / 1024, length / 1024;
    assert offset == 1024 * q + offset % 1024 && length == 1024 * n;
    assert offset + size + 1023 == 1024 * t + (offset + size + 1023) % 1024;
    assert q <= t <= n;
    QuotientIs(1024 * q, 512, 2 * q, 0);
    QuotientIs(1024 * t - 1024 * q, 512, 2 * (t - q), 0);
  }

  /** Changing part of a slice and putting the slice back is changing that part of the whole. */
  lemma {:induction false} OverlayWithin(disk: seq<Byte>, from: nat, n: nat, internal: nat, d: seq<Byte>)
    requires from + n <= |disk| && internal + |d| <= n
    ensures Overlay(disk, from, Overlay(disk[from..from + n], internal, d)) == Overlay(disk, from + internal, d)
  {
    var a, b := Overlay(disk, from, Overlay(disk[from..from + n], internal, d)), Overlay(disk, from + internal, d);
    assert forall k :: 0 <= k < |disk| ==> a[k] == b[k];
  }
}
