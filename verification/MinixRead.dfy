/** MinixFileSystem::read: the nested loops of fs.rs over shared pointer buffers. */
module MinixRead {
  import opened Cpu
  import opened Disk
  import opened MinixFile

  /** Brings zone z into a block-sized buffer. */
  method Fill(dev: Device, into: array<Byte>, z: nat, ghost d: seq<Byte>)
    requires dev.Valid() && dev.data[..] == d && dev.data != into && into.Length == BLOCK_SIZE && OnDisk(d, z)
    modifies into
    ensures into[..] == Block(d, z)
  {
    ghost var was := into[..];
    dev.SycRead(into, BLOCK_SIZE, BLOCK_SIZE * z);
    OverlayFull(was, Block(d, z));
  }

  /** The local variables of one call of read. */
  class Reader {
    const dev: Device
    const offsetBlock: nat
    /** The caller's buffer, the block buffer, and one buffer per level of indirection. */
    const buffer: array<Byte>
    const block: array<Byte>
    const indirect: array<Byte>
    const iindirect: array<Byte>
    const iiindirect: array<Byte>
    var blocksSeen: nat
    var offsetByte: nat
    var bytesLeft: nat
    var bytesRead: nat
    /** The call has returned. */
    var done: bool

    ghost function View(): State
      reads this, buffer
    {
      State(blocksSeen, offsetByte, bytesLeft, bytesRead, buffer[..], done)
    }

    ghost predicate Valid(d: seq<Byte>)
      reads this, dev, dev.data, buffer
    {
      && dev.Valid() && dev.data[..] == d && Sane(View())
      && block.Length == indirect.Length == iindirect.Length == iiindirect.Length == BLOCK_SIZE
      && block != indirect && block != iindirect && block != iiindirect
      && indirect != iindirect && indirect != iiindirect && iindirect != iiindirect
      && buffer != block && buffer != indirect && buffer != iindirect && buffer != iiindirect
      && dev.data != buffer && dev.data != block && dev.data != indirect
      && dev.data != iindirect && dev.data != iiindirect
    }

    constructor (dev: Device, buffer: array<Byte>, limit: nat, offset: nat)
      requires dev.Valid() && dev.data != buffer && limit <= buffer.Length
      ensures Valid(dev.data[..]) && View() == StartState(offset, limit, buffer[..])
      ensures this.dev == dev && this.buffer == buffer && offsetBlock == offset / BLOCK_SIZE
      ensures fresh(block) && fresh(indirect) && fresh(iindirect) && fresh(iiindirect)
    {
      this.dev, this.buffer := dev, buffer;
      blocksSeen, offsetBlock, offsetByte := 0, offset / BLOCK_SIZE, offset % BLOCK_SIZE;
      bytesLeft, bytesRead, done := limit, 0, false;
      block := new Byte[BLOCK_SIZE](_ => 0);
      indirect := new Byte[BLOCK_SIZE](_ => 0);
      iindirect := new Byte[BLOCK_SIZE](_ => 0);
      iiindirect := new Byte[BLOCK_SIZE](_ => 0);
    }

    /** The code at a non-zero leaf zone, the same at all four places. */
    method Zone(z: nat, ghost d: seq<Byte>)
      requires Valid(d) && OnDisk(d, z) && !done
      modifies this, buffer, block
      ensures Valid(d) && View() == Visit(d, offsetBlock, old(View()), z)
    {
      hide Overlay, Copied, Block;
      if offsetBlock <= blocksSeen {
        Fill(dev, block, z, d);
        var n := if BLOCK_SIZE - offsetByte > bytesLeft then bytesLeft else BLOCK_SIZE - offsetByte;
        CopiesAll(n);
        Memcpy(buffer, bytesRead, block, offsetByte, n);
        assert block[offsetByte..offsetByte + Copied(n)] == Block(d, z)[offsetByte..offsetByte + Copied(n)];
        bytesRead := bytesRead + n;
        bytesLeft := bytesLeft - n;
        offsetByte := 0;
        if bytesLeft == 0 {
          done := true;
          return;
        }
      }
      blocksSeen := blocksSeen + 1;
    }

    /** Reads pointer i of a pointer buffer. */
    method PointerAt(table: array<Byte>, i: nat) returns (p: nat)
      requires table.Length == BLOCK_SIZE && i < NUM_IPTRS
      ensures p == U32(table[..], i)
    {
      p := LittleEndian(table[4 * i], table[4 * i + 1], table[4 * i + 2], table[4 * i + 3]);
    }

    /** The innermost loop: all leaf zones named by the pointers in `table`. */
    method ScanLeaves(table: array<Byte>, ghost z: nat, ghost d: seq<Byte>)
      requires Valid(d) && !done && Good(d, z, 1) && table.Length == BLOCK_SIZE && table[..] == Block(d, z)
      requires table != buffer && table != block
      modifies this, buffer, block
      ensures Valid(d) && AllOnDisk(d, Leaves(d, z, 1))
      ensures View() == VisitAll(d, offsetBlock, old(View()), Leaves(d, z, 1))
    {
      hide Visit, VisitAll, Good, LeavesBelow, Block, U32, AllOnDisk;
      LeavesOnDisk(d, z, 1);
      StartLeaves(d, z, 1, offsetBlock, View());
      for i := 0 to NUM_IPTRS
        invariant Valid(d) && !done && AllOnDisk(d, LeavesBelow(d, z, 1, i))
        invariant View() == VisitAll(d, offsetBlock, old(View()), LeavesBelow(d, z, 1, i))
      {
        var p := PointerAt(table, i);
        ghost var st := View();
        StepLeaves(d, z, 1, i, offsetBlock, old(View()));
        if p != 0 {
          Zone(p, d);
          SingleVisit(d, offsetBlock, st, p);
          if done {
            RestIsSkipped(d, z, 1, i + 1, offsetBlock, old(View()));
            return;
          }
        }
      }
    }

    /** Two nested loops: `outer` names pointer blocks, each of which is brought into `inner`. */
    method ScanDouble(outer: array<Byte>, inner: array<Byte>, ghost z: nat, ghost d: seq<Byte>)
      requires Valid(d) && !done && Good(d, z, 2)
      requires outer.Length == inner.Length == BLOCK_SIZE && outer[..] == Block(d, z)
      requires outer != inner && outer != buffer && outer != block
      requires inner != buffer && inner != block && inner != dev.data
      modifies this, buffer, block, inner
      ensures Valid(d) && AllOnDisk(d, Leaves(d, z, 2))
      ensures View() == VisitAll(d, offsetBlock, old(View()), Leaves(d, z, 2))
    {
      hide Visit, VisitAll, Good, Leaves, LeavesBelow, Block, U32, AllOnDisk;
      LeavesOnDisk(d, z, 2);
      StartLeaves(d, z, 2, offsetBlock, View());
      for i := 0 to NUM_IPTRS
        invariant Valid(d) && !done && AllOnDisk(d, LeavesBelow(d, z, 2, i))
        invariant View() == VisitAll(d, offsetBlock, old(View()), LeavesBelow(d, z, 2, i))
      {
        var p := PointerAt(outer, i);
        StepLeaves(d, z, 2, i, offsetBlock, old(View()));
        if p != 0 {
          Fill(dev, inner, p, d);
          ScanLeaves(inner, p, d);
          if done {
            RestIsSkipped(d, z, 2, i + 1, offsetBlock, old(View()));
            return;
          }
        }
      }
    }

    /** Three nested loops, over indirect_buffer, iindirect_buffer and iiindirect_buffer. */
    method ScanTriple(ghost z: nat, ghost d: seq<Byte>)
      requires Valid(d) && !done && Good(d, z, 3) && indirect[..] == Block(d, z)
      modifies this, buffer, block, iindirect, iiindirect
      ensures Valid(d) && AllOnDisk(d, Leaves(d, z, 3))
      ensures View() == VisitAll(d, offsetBlock, old(View()), Leaves(d, z, 3))
    {
      hide Visit, VisitAll, Good, Leaves, LeavesBelow, Block, U32, AllOnDisk;
      LeavesOnDisk(d, z, 3);
      StartLeaves(d, z, 3, offsetBlock, View());
      for i := 0 to NUM_IPTRS
        invariant Valid(d) && !done && AllOnDisk(d, LeavesBelow(d, z, 3, i))
        invariant View() == VisitAll(d, offsetBlock, old(View()), LeavesBelow(d, z, 3, i))
      {
        var p := PointerAt(indirect, i);
        StepLeaves(d, z, 3, i, offsetBlock, old(View()));
        if p != 0 {
          Fill(dev, iindirect, p, d);
          ScanDouble(iindirect, iiindirect, p, d);
          if done {
            RestIsSkipped(d, z, 3, i + 1, offsetBlock, old(View()));
            return;
          }
        }
      }
    }

    /** The part of read for inode zone i: a direct zone, or a tree of one to three levels. */
    method ScanZone(i: nat, z: nat, ghost d: seq<Byte>)
      requires Valid(d) && !done && i < 10 && z != 0 && Good(d, z, ZoneLevel(i))
      modifies this, buffer, block, indirect, iindirect, iiindirect
      ensures Valid(d) && AllOnDisk(d, Leaves(d, z, ZoneLevel(i)))
      ensures View() == VisitAll(d, offsetBlock, old(View()), Leaves(d, z, ZoneLevel(i)))
    {
      LeavesOnDisk(d, z, ZoneLevel(i));
      if i < 7 {
        SingleVisit(d, offsetBlock, View(), z);
        Zone(z, d);
      } else {
        Fill(dev, indirect, z, d);
        if i == 7 {
          ScanLeaves(indirect, z, d);
        } else if i == 8 {
          ScanDouble(indirect, iindirect, z, d);
        } else {
          ScanTriple(z, d);
        }
      }
    }
  }

  lemma {:induction false} StartLeaves(d: seq<Byte>, z: nat, level: nat, ob: nat, st: State)
    requires Good(d, z, level) && 0 < level && Sane(st)
    ensures OnDisk(d, z) && LeavesBelow(d, z, level, 0) == [] && AllOnDisk(d, []) && VisitAll(d, ob, st, []) == st
    ensures Leaves(d, z, level) == LeavesBelow(d, z, level, NUM_IPTRS)
    ensures forall i :: 0 <= i < NUM_IPTRS && Pointer(d, z, i) != 0 ==> Good(d, Pointer(d, z, i), level - 1)
    ensures forall p :: Good(d, p, level - 1) ==> OnDisk(d, p)
  {
  }

  /** One more pointer adds the leaves under it, if it is not zero. */
  lemma {:induction false} StepLeaves(d: seq<Byte>, z: nat, level: nat, i: nat, ob: nat, st: State)
    requires Good(d, z, level) && 0 < level && i < NUM_IPTRS && Sane(st)
    ensures AllOnDisk(d, LeavesBelow(d, z, level, i)) && AllOnDisk(d, LeavesBelow(d, z, level, i + 1))
    ensures var p := Pointer(d, z, i);
            if p == 0 then LeavesBelow(d, z, level, i + 1) == LeavesBelow(d, z, level, i)
            else
              && Good(d, p, level - 1) && AllOnDisk(d, Leaves(d, p, level - 1))
              && VisitAll(d, ob, st, LeavesBelow(d, z, level, i + 1))
                 == VisitAll(d, ob, VisitAll(d, ob, st, LeavesBelow(d, z, level, i)), Leaves(d, p, level - 1))
  {
    LeavesBelowOnDisk(d, z, level, i);
    LeavesBelowOnDisk(d, z, level, i + 1);
    var p := Pointer(d, z, i);
    if p != 0 {
      LeavesOnDisk(d, p, level - 1);
      VisitAllAppend(d, ob, st, LeavesBelow(d, z, level, i), Leaves(d, p, level - 1));
    }
  }

  lemma {:induction false} SingleVisit(d: seq<Byte>, ob: nat, st: State, z: nat)
    requires OnDisk(d, z) && Sane(st)
    ensures VisitAll(d, ob, st, [z]) == Visit(d, ob, st, z)
  {
    assert [z][..0] == [];
  }

  /** When the call has returned, the pointers not yet looked at make no difference. */
  lemma {:induction false} RestIsSkipped(d: seq<Byte>, z: nat, level: nat, i: nat, ob: nat, st: State)
    requires Good(d, z, level) && 0 < level && i <= NUM_IPTRS && Sane(st)
    requires AllOnDisk(d, LeavesBelow(d, z, level, i)) && VisitAll(d, ob, st, LeavesBelow(d, z, level, i)).done
    ensures AllOnDisk(d, Leaves(d, z, level))
    ensures VisitAll(d, ob, st, Leaves(d, z, level)) == VisitAll(d, ob, st, LeavesBelow(d, z, level, i))
    decreases NUM_IPTRS - i
  {
    hide Visit, VisitAll, LeavesBelow, Block, U32;
    LeavesOnDisk(d, z, level);
    if i < NUM_IPTRS {
      StepLeaves(d, z, level, i, ob, st);
      var p := Pointer(d, z, i);
      if p != 0 {
        VisitAllDone(d, ob, VisitAll(d, ob, st, LeavesBelow(d, z, level, i)), Leaves(d, p, level - 1));
      }
      RestIsSkipped(d, z, level, i + 1, ob, st);
    }
  }

  // ---------------------------------------------------------------- the whole call

  lemma {:induction false} StepZones(d: seq<Byte>, ino: Inode, i: nat, ob: nat, st: State)
    requires GoodInode(d, ino) && i < 10 && Sane(st)
    ensures AllOnDisk(d, FileZones(d, ino, i)) && AllOnDisk(d, FileZones(d, ino, i + 1))
    ensures var z := ino.zones[i];
            if z == 0 then FileZones(d, ino, i + 1) == FileZones(d, ino, i)
            else
              && Good(d, z, ZoneLevel(i)) && AllOnDisk(d, Leaves(d, z, ZoneLevel(i)))
              && VisitAll(d, ob, st, FileZones(d, ino, i + 1))
                 == VisitAll(d, ob, VisitAll(d, ob, st, FileZones(d, ino, i)), Leaves(d, z, ZoneLevel(i)))
  {
    FileZonesOnDisk(d, ino, i);
    FileZonesOnDisk(d, ino, i + 1);
    var z := ino.zones[i];
    if z != 0 {
      LeavesOnDisk(d, z, ZoneLevel(i));
      VisitAllAppend(d, ob, st, FileZones(d, ino, i), Leaves(d, z, ZoneLevel(i)));
    }
  }

  lemma {:induction false} RestOfZonesIsSkipped(d: seq<Byte>, ino: Inode, i: nat, ob: nat, st: State)
    requires GoodInode(d, ino) && i <= 10 && Sane(st)
    requires AllOnDisk(d, FileZones(d, ino, i)) && VisitAll(d, ob, st, FileZones(d, ino, i)).done
    ensures AllOnDisk(d, FileZones(d, ino, 10))
    ensures VisitAll(d, ob, st, FileZones(d, ino, 10)) == VisitAll(d, ob, st, FileZones(d, ino, i))
    decreases 10 - i
  {
    if i < 10 {
      StepZones(d, ino, i, ob, st);
      if ino.zones[i] != 0 {
        VisitAllDone(d, ob, VisitAll(d, ob, st, FileZones(d, ino, i)), Leaves(d, ino.zones[i], ZoneLevel(i)));
      }
      RestOfZonesIsSkipped(d, ino, i + 1, ob, st);
    }
  }

  lemma {:induction false} NoZones(d: seq<Byte>, ino: Inode, ob: nat, st: State)
    requires GoodInode(d, ino) && Sane(st)
    ensures FileZones(d, ino, 0) == [] && AllOnDisk(d, []) && VisitAll(d, ob, st, []) == st
  {
  }

  function Limit(ino: Inode, size: nat): nat { if size > ino.size then ino.size else size }

  /** read: the number of bytes, and the buffer, for every file, size and offset. */
  method Read(dev: Device, ino: Inode, buffer: array<Byte>, size: nat, offset: nat) returns (n: nat)
    requires dev.Valid() && dev.data != buffer && GoodInode(dev.data[..], ino) && Limit(ino, size) <= buffer.Length
    modifies buffer
    ensures AllOnDisk(dev.data[..], FileZones(dev.data[..], ino, 10))
    ensures n == Count(|FileZones(dev.data[..], ino, 10)|, offset, Limit(ino, size))
    ensures var blocks := |FileZones(dev.data[..], ino, 10)|;
            n == if 1024 * blocks <= offset then 0 else Min(Min(size, ino.size), 1024 * blocks - offset)
    ensures buffer[..] ==
            VisitAll(dev.data[..], offset / BLOCK_SIZE, StartState(offset, Limit(ino, size), old(buffer[..])),
                     FileZones(dev.data[..], ino, 10)).buf
    ensures n > 0 ==> offset + n <= |Content(dev.data[..], FileZones(dev.data[..], ino, 10))|
    ensures PiecesFull(|FileZones(dev.data[..], ino, 10)|, offset, Limit(ino, size)) ==>
              buffer[..] == Overlay(old(buffer[..]), 0, Slice(Content(dev.data[..], FileZones(dev.data[..], ino, 10)), offset, n))
  {
    hide Visit, VisitAll, Leaves, Good, Overlay, Content, Slice, PiecesFull;
    ghost var d, was := dev.data[..], buffer[..];
    ghost var st := StartState(offset, Limit(ino, size), was);
    var r := new Reader(dev, buffer, Limit(ino, size), offset);
    FileZonesOnDisk(d, ino, 10);
    ReadReturns(d, ino, offset, Limit(ino, size), was);
    if PiecesFull(|FileZones(d, ino, 10)|, offset, Limit(ino, size)) {
      ReadBytes(d, FileZones(d, ino, 10), offset, Limit(ino, size), was);
    }
    NoZones(d, ino, r.offsetBlock, st);
    for i := 0 to 10
      invariant r.Valid(d) && !r.done && AllOnDisk(d, FileZones(d, ino, i))
      invariant r.View() == VisitAll(d, r.offsetBlock, st, FileZones(d, ino, i))
    {
      StepZones(d, ino, i, r.offsetBlock, st);
      if ino.zones[i] != 0 {
        r.ScanZone(i, ino.zones[i], d);
        if r.done {
          RestOfZonesIsSkipped(d, ino, i + 1, r.offsetBlock, st);
          return r.bytesRead;
        }
      }
    }
    n := r.bytesRead;
  }
}
