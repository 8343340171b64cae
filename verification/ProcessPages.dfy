/**
 The pages a process holds over its life: trap frame, stack, page tables, brk pages and an
 optional program image (process.rs, elf.rs, the brk arm of do_syscall, Drop for Process).
 Pointers into the page heap are given as frame numbers.
 */
module ProcessPages {
  import opened Common
  import opened PageTableRuns
  import opened PageAllocator
  import opened PageEntry
  import opened PageTree
  import opened Sv39

  const STACK_PAGES: nat := 35
  const USER_READ_WRITE := 0x16

  /** The runs a process holds, by first page. */
  datatype Holding = Holding(frame: nat, stack: nat, tree: Tree, pages: seq<nat>, program: Option<nat>)

  function Elements(s: seq<nat>): set<nat> { set x | x in s }

  function ProgramSet(p: Option<nat>): set<nat> { if p.Some? then {p.value} else {} }

  function Owned(h: Holding): set<nat>
  {
    {h.frame, h.stack, h.tree.root} + Tables(h.tree) + Elements(h.pages) + ProgramSet(h.program)
  }

  /** No page is held twice. */
  predicate Distinct(h: Holding)
  {
    && h.frame != h.stack && h.frame != h.tree.root && h.stack != h.tree.root
    && {h.frame, h.stack} !! Tables(h.tree)
    && Elements(h.pages) !! {h.frame, h.stack, h.tree.root} + Tables(h.tree)
    && (forall i, j :: 0 <= i < j < |h.pages| ==> h.pages[i] != h.pages[j])
    && ProgramSet(h.program) !! {h.frame, h.stack, h.tree.root} + Tables(h.tree) + Elements(h.pages)
  }

  ghost predicate Holds(pg: Pages, h: Holding)
    reads pg, pg.desc, pg.mem
  {
    Mapped(pg, h.tree) && Distinct(h) && Owned(h) <= pg.runs.Keys && pg.runs[h.stack] == STACK_PAGES
  }

  /** Everybody else's allocations. */
  function Rest(runs: Runs, h: Holding): Runs { runs - Owned(h) }

  /** The requests a process starts with: trap frame, stack, root table and perhaps a program image. */
  function Sizes(programPages: nat): (r: seq<nat>)
  {
    [1, STACK_PAGES, 1] + if programPages > 0 then [programPages] else []
  }

  // ---------------------------------------------------------------- program images

  /** A loadable program header: address, place in the image, size in memory, entry flags. */
  datatype Segment = Segment(vaddr: nat, off: nat, memsz: nat, bits: nat)

  const STACK_ADDR: nat := 0x1_0000_0000

  function MemSize(segs: seq<Segment>): nat
  {
    if segs == [] then 0 else MemSize(segs[..|segs| - 1]) + segs[|segs| - 1].memsz
  }

  /** The sum of the segments' sizes. */
  lemma {:induction false} MemSizeAdds(a: seq<Segment>, b: seq<Segment>, g: Segment)
    ensures MemSize(a + b) == MemSize(a) + MemSize(b) && MemSize([g]) == g.memsz
  {
    assert [g][..0] == [];
    if b == [] {
      assert a + b == a;
    } else {
      var n := |b| - 1;
      assert (a + b)[..|a + b| - 1] == a + b[..n];
      MemSizeAdds(a, b[..n], g);
    }
  }

  /** The permissions of stack and brk pages: read, write, user, and no execute. */
  lemma {:induction false} UserMayReadWrite()
    ensures BitOf(USER_READ_WRITE, 1) == 1 && BitOf(USER_READ_WRITE, 2) == 1 && BitOf(USER_READ_WRITE, 3) == 0
    ensures BitOf(USER_READ_WRITE, 4) == 1 && BitOf(USER_READ_WRITE, 5) == 0
  {
    WeightIs(1); WeightIs(2); WeightIs(3); WeightIs(4); WeightIs(5);
  }

  function ImagePages(segs: seq<Segment>): (r: nat)
    ensures r >= 2 && MemSize(segs) + PAGE_SIZE < PAGE_SIZE * r <= MemSize(segs) + 2 * PAGE_SIZE
  {
    (MemSize(segs) + PAGE_SIZE * 2) / PAGE_SIZE
  }

  function SegmentPages(g: Segment): (n: nat)
    ensures n > 0 && PAGE_SIZE * (n - 1) <= g.memsz < PAGE_SIZE * n
  {
    (g.memsz + PAGE_SIZE) / PAGE_SIZE
  }

  /** The calls that map n pages at vaddr to n pages at paddr. */
  function PageCalls(vaddr: nat, paddr: nat, bits: nat, n: nat): seq<MapCall>
  {
    seq(n, i requires 0 <= i < n => MapCall(vaddr + PAGE_SIZE * i, paddr + PAGE_SIZE * i, bits))
  }

  /** The calls for all segments of an image at `image`, in order. */
  function ImageCalls(image: nat, segs: seq<Segment>): seq<MapCall>
  {
    if segs == [] then []
    else
      var g := segs[|segs| - 1];
      ImageCalls(image, segs[..|segs| - 1]) + PageCalls(g.vaddr, image + g.off, g.bits, SegmentPages(g))
  }

  function LoadCalls(image: nat, stack: nat, segs: seq<Segment>): seq<MapCall>
  {
    ImageCalls(image, segs) + PageCalls(STACK_ADDR, stack, USER_READ_WRITE, STACK_PAGES)
  }

  /** Where the break is after loading: a page past the highest page mapped so far, segment by segment. */
  function ImageBrk(segs: seq<Segment>): nat
  {
    if segs == [] then 0
    else
      var g, b := segs[|segs| - 1], ImageBrk(segs[..|segs| - 1]);
      var last := g.vaddr + PAGE_SIZE * (SegmentPages(g) - 1);
      (if last > b then last else b) + PAGE_SIZE
  }

  /** The first address of the last page of a segment. */
  function LastPage(g: Segment): nat { g.vaddr + PAGE_SIZE * (SegmentPages(g) - 1) }

  /** The break is past every page of the image, by a page for each segment from that one on ... */
  lemma {:induction false} ImageBrkPast(segs: seq<Segment>, k: nat)
    requires k < |segs|
    ensures ImageBrk(segs) >= LastPage(segs[k]) + PAGE_SIZE * (|segs| - k)
  {
    hide SegmentPages;
    if k < |segs| - 1 { ImageBrkPast(segs[..|segs| - 1], k); }
  }

  /** ... and exactly that for one of them. */
  lemma {:induction false} ImageBrkReached(segs: seq<Segment>) returns (k: nat)
    requires segs != []
    ensures k < |segs| && ImageBrk(segs) == LastPage(segs[k]) + PAGE_SIZE * (|segs| - k)
  {
    hide SegmentPages;
    var n := |segs| - 1;
    k := n;
    if n > 0 && ImageBrk(segs[..n]) >= LastPage(segs[n]) { k := ImageBrkReached(segs[..n]); }
  }

  /** Every segment has a permission, as map asserts. */
  predicate Loadable(segs: seq<Segment>)
  {
    forall i :: 0 <= i < |segs| ==> LeafBits(segs[i].bits)
  }

  lemma {:induction false} ImagePermitted(image: nat, stack: nat, segs: seq<Segment>)
    requires Loadable(segs)
    ensures Permitted(ImageCalls(image, segs)) && Permitted(LoadCalls(image, stack, segs))
  {
    if segs != [] {
      ImagePermitted(image, stack, segs[..|segs| - 1]);
    }
  }

  /** In t, v stands for the physical page of paddr (in 44 bits) with its own offset, under these permissions. */
  ghost predicate Placed(t: Tree, v: nat, paddr: nat, bits: nat)
  {
    && Translate(t, v) == Some(paddr / 4096 % TWO_44 * 4096 + v % 4096)
    && KeyOf(v) in t.leaves && HasFlags(t.leaves[KeyOf(v)], bits)
  }

  /** The page number of the i-th page from vaddr on. */
  function PageAt(vaddr: nat, i: nat): nat { PageNumber(vaddr + 4096 * i) }

  /** v is on page i of segment k, and on no page mapped after it for the image. */
  ghost predicate LastOnImage(segs: seq<Segment>, k: nat, i: nat, v: nat)
  {
    && k < |segs| && i < SegmentPages(segs[k]) && PageAt(segs[k].vaddr, i) == PageNumber(v)
    && (forall i': nat :: i < i' < SegmentPages(segs[k]) ==> PageAt(segs[k].vaddr, i') != PageNumber(v))
    && (forall k': nat, i': nat :: k < k' < |segs| && i' < SegmentPages(segs[k']) ==>
          PageAt(segs[k'].vaddr, i') != PageNumber(v))
  }

  ghost predicate OffStack(v: nat)
  {
    forall j: nat :: j < STACK_PAGES ==> PageAt(STACK_ADDR, j) != PageNumber(v)
  }

  /** Every page of every segment, unless mapped again later, is at its place in the image. */
  ghost predicate ImageMapped(t: Tree, image: nat, segs: seq<Segment>)
  {
    forall k: nat, i: nat, v: nat :: LastOnImage(segs, k, i, v) && OffStack(v) ==>
      Placed(t, v, image + segs[k].off + 4096 * i, segs[k].bits)
  }

  /** The stack's addresses are those of its pages, in order. */
  ghost predicate StackMapped(t: Tree, stack: nat)
  {
    forall v: nat :: STACK_ADDR <= v < STACK_ADDR + 4096 * STACK_PAGES ==>
      Translate(t, v) == Some(stack + (v - STACK_ADDR)) && Placed(t, v, stack + (v - STACK_ADDR), USER_READ_WRITE)
  }

  /** The leaf of v is the entry for paddr. */
  predicate LeafFor(leaves: map<Key3, nat>, v: nat, paddr: nat, bits: nat)
  {
    KeyOf(v) in leaves && leaves[KeyOf(v)] == LeafEntry(paddr, bits)
  }

  lemma {:induction false} LeafIsPlaced(t: Tree, v: nat, paddr: nat, bits: nat)
    requires LeafBits(bits) && LeafFor(t.leaves, v, paddr, bits)
    ensures Placed(t, v, paddr, bits)
  {
    hide LeafEntry, KeyOf, HasFlags, LeafLookup;
    LookupOfLast(t.leaves, MapCall(v, paddr, bits), v);
    LeafHasFlags(paddr, bits);
  }

  lemma {:induction false} RunMaps(leaves: map<Key3, nat>, vaddr: nat, paddr: nat, bits: nat, n: nat, i: nat, v: nat)
    requires i < n && PageAt(vaddr, i) == PageNumber(v)
    requires forall i': nat :: i < i' < n ==> PageAt(vaddr, i') != PageNumber(v)
    ensures LeafFor(WithLeaves(leaves, PageCalls(vaddr, paddr, bits, n)), v, paddr + 4096 * i, bits)
  {
    hide LeafEntry, KeyOf, PageNumber, WithLeaves;
    var calls := PageCalls(vaddr, paddr, bits, n);
    assert forall k :: 0 <= k < n ==> PageNumber(calls[k].vaddr) == PageAt(vaddr, k);
    LastCallWins(leaves, calls, v, i);
  }

  lemma {:induction false} RunAvoids(leaves: map<Key3, nat>, vaddr: nat, paddr: nat, bits: nat, n: nat, v: nat, p: nat, b: nat)
    requires LeafFor(leaves, v, p, b) && forall i: nat :: i < n ==> PageAt(vaddr, i) != PageNumber(v)
    ensures LeafFor(WithLeaves(leaves, PageCalls(vaddr, paddr, bits, n)), v, p, b)
  {
    hide LeafEntry, KeyOf, PageNumber, WithLeaves;
    var calls := PageCalls(vaddr, paddr, bits, n);
    assert forall k :: 0 <= k < n ==> PageNumber(calls[k].vaddr) == PageAt(vaddr, k);
    AvoidedKeeps(leaves, calls, v);
  }

  lemma {:induction false} ImageMaps(leaves: map<Key3, nat>, image: nat, segs: seq<Segment>, k: nat, i: nat, v: nat)
    requires LastOnImage(segs, k, i, v)
    ensures LeafFor(WithLeaves(leaves, ImageCalls(image, segs)), v, image + segs[k].off + 4096 * i, segs[k].bits)
    decreases |segs|
  {
    hide LeafEntry, KeyOf, PageNumber, WithLeaves, PageCalls, SegmentPages, LeafFor;
    var n := |segs| - 1;
    var g, init := segs[n], segs[..n];
    var calls := PageCalls(g.vaddr, image + g.off, g.bits, SegmentPages(g));
    WithLeavesJoin(leaves, ImageCalls(image, init), calls);
    if k == n {
      RunMaps(WithLeaves(leaves, ImageCalls(image, init)), g.vaddr, image + g.off, g.bits, SegmentPages(g), i, v);
    } else {
      assert LastOnImage(init, k, i, v);
      ImageMaps(leaves, image, init, k, i, v);
      RunAvoids(WithLeaves(leaves, ImageCalls(image, init)), g.vaddr, image + g.off, g.bits, SegmentPages(g), v,
                image + segs[k].off + 4096 * i, segs[k].bits);
    }
  }

  lemma {:induction false} StackPage(x: nat)
    requires x < 4096 * STACK_PAGES
    ensures PageNumber(STACK_ADDR + x) == 0x10_0000 + x / 4096
  {
    QuotientIs(STACK_ADDR + x, 0x1000, 0x10_0000 + x / 4096, x % 4096);
  }

  /** What load_proc maps is where it should be. */
  lemma {:induction false} LoadMaps(t: Tree, image: nat, stack: nat, segs: seq<Segment>)
    requires Loadable(segs) && t.leaves == WithLeaves(map[], LoadCalls(image, stack, segs))
    requires stack % 4096 == 0 && stack + 4096 * STACK_PAGES <= PHYS_LIMIT
    ensures ImageMapped(t, image, segs) && StackMapped(t, stack)
  {
    hide LeafEntry, KeyOf, PageNumber, WithLeaves, PageCalls, SegmentPages, LeafFor, Placed, Translate, LastOnImage;
    var mid := WithLeaves(map[], ImageCalls(image, segs));
    WithLeavesJoin(map[], ImageCalls(image, segs), PageCalls(STACK_ADDR, stack, USER_READ_WRITE, STACK_PAGES));
    forall k: nat, i: nat, v: nat | LastOnImage(segs, k, i, v) && OffStack(v)
      ensures k < |segs| && Placed(t, v, image + segs[k].off + 4096 * i, segs[k].bits)
    {
      LastIsOn(segs, k, i, v);
      ImageMaps(map[], image, segs, k, i, v);
      RunAvoids(mid, STACK_ADDR, stack, USER_READ_WRITE, STACK_PAGES, v, image + segs[k].off + 4096 * i, segs[k].bits);
      LeafIsPlaced(t, v, image + segs[k].off + 4096 * i, segs[k].bits);
    }
    forall v: nat | STACK_ADDR <= v < STACK_ADDR + 4096 * STACK_PAGES
      ensures Translate(t, v) == Some(stack + (v - STACK_ADDR)) && Placed(t, v, stack + (v - STACK_ADDR), USER_READ_WRITE)
    {
      StackWordMaps(t, mid, stack, v - STACK_ADDR);
    }
  }

  lemma {:induction false} LastIsOn(segs: seq<Segment>, k: nat, i: nat, v: nat)
    requires LastOnImage(segs, k, i, v)
    ensures k < |segs|
  {
  }

  lemma {:induction false} StackWordMaps(t: Tree, mid: map<Key3, nat>, stack: nat, x: nat)
    requires x < 4096 * STACK_PAGES && stack % 4096 == 0 && stack + 4096 * STACK_PAGES <= PHYS_LIMIT
    requires t.leaves == WithLeaves(mid, PageCalls(STACK_ADDR, stack, USER_READ_WRITE, STACK_PAGES))
    ensures Translate(t, STACK_ADDR + x) == Some(stack + x) && Placed(t, STACK_ADDR + x, stack + x, USER_READ_WRITE)
  {
    hide LeafEntry, KeyOf, PageNumber, WithLeaves, PageCalls, LeafFor, LeafLookup, HasFlags;
    var v, i := STACK_ADDR + x, x / 4096;
    StackPage(x);
    StackPage(4096 * i);
    forall j: nat | i < j < STACK_PAGES ensures PageAt(STACK_ADDR, j) != PageNumber(v) {
      StackPage(4096 * j);
    }
    RunMaps(mid, STACK_ADDR, stack, USER_READ_WRITE, STACK_PAGES, i, v);
    LeafIsPlaced(t, v, stack + 4096 * i, USER_READ_WRITE);
    PlainPhys(stack, x);
  }

  lemma {:induction false} PlainPhys(stack: nat, x: nat)
    requires stack % 4096 == 0 && x < 4096 * STACK_PAGES && stack + 4096 * STACK_PAGES <= PHYS_LIMIT
    ensures (stack + 4096 * (x / 4096)) / 4096 % TWO_44 == stack / 4096 + x / 4096
    ensures (stack + x) / 4096 % TWO_44 == stack / 4096 + x / 4096
    ensures (stack / 4096 + x / 4096) * 4096 + (STACK_ADDR + x) % 4096 == stack + x
  {
    var q, i := stack / 4096, x / 4096;
    QuotientIs(stack + 4096 * i, 4096, q + i, 0);
    QuotientIs(stack + x, 4096, q + i, x % 4096);
    QuotientIs(STACK_ADDR + x, 4096, 0x10_0000 + i, x % 4096);
    QuotientIs(q + i, 0x1000_0000_0000, 0, q + i);
  }

  /** Which addresses are mapped does not depend on where the image and the stack lie. */
  function LoadAddresses(segs: seq<Segment>): seq<nat>
  {
    Addresses(LoadCalls(0, 0, segs))
  }

  lemma {:induction false} ImageAddresses(image: nat, segs: seq<Segment>)
    ensures Addresses(ImageCalls(image, segs)) == Addresses(ImageCalls(0, segs))
  {
    if segs != [] {
      ImageAddresses(image, segs[..|segs| - 1]);
      var g := segs[|segs| - 1];
      var n := SegmentPages(g);
      AddressesJoin(ImageCalls(image, segs[..|segs| - 1]), PageCalls(g.vaddr, image + g.off, g.bits, n));
      AddressesJoin(ImageCalls(0, segs[..|segs| - 1]), PageCalls(g.vaddr, g.off, g.bits, n));
      assert Addresses(PageCalls(g.vaddr, image + g.off, g.bits, n)) == Addresses(PageCalls(g.vaddr, g.off, g.bits, n));
    }
  }

  lemma {:induction false} AddressesJoin(a: seq<MapCall>, b: seq<MapCall>)
    ensures Addresses(a + b) == Addresses(a) + Addresses(b)
  {
  }

  lemma {:induction false} LoadAddressesAre(image: nat, stack: nat, segs: seq<Segment>)
    ensures Addresses(LoadCalls(image, stack, segs)) == LoadAddresses(segs)
  {
    ImageAddresses(image, segs);
    AddressesJoin(ImageCalls(image, segs), PageCalls(STACK_ADDR, stack, USER_READ_WRITE, STACK_PAGES));
    AddressesJoin(ImageCalls(0, segs), PageCalls(STACK_ADDR, 0, USER_READ_WRITE, STACK_PAGES));
    assert Addresses(PageCalls(STACK_ADDR, stack, USER_READ_WRITE, STACK_PAGES))
        == Addresses(PageCalls(STACK_ADDR, 0, USER_READ_WRITE, STACK_PAGES));
  }

  // ---------------------------------------------------------------- brk

  /** How many pages a brk to addr adds. */
  function BrkPages(brk: nat, addr: nat, mmuOn: bool): nat
  {
    if addr > brk && mmuOn then (addr + PAGE_SIZE - brk) / PAGE_SIZE else 0
  }

  function BrkAddresses(brk: nat, n: nat): seq<nat>
  {
    seq(n, i requires 0 <= i < n => brk + PAGE_SIZE * i)
  }

  /** The map calls a brk from `brk` makes for new pages, frames counted from base. */
  function BrkCalls(base: nat, brk: nat, pages: seq<nat>): seq<MapCall>
  {
    seq(|pages|, i requires 0 <= i < |pages| => MapCall(brk + PAGE_SIZE * i, base + PAGE_SIZE * pages[i], USER_READ_WRITE))
  }

  lemma {:induction false} BrkCallsNone(base: nat, brk: nat, leaves: map<Key3, nat>)
    ensures WithLeaves(leaves, BrkCalls(base, brk, [])) == leaves
  {
  }

  lemma {:induction false} BrkCallsPush(base: nat, brk: nat, pages: seq<nat>, p: nat, leaves: map<Key3, nat>)
    ensures var c := MapCall(brk + PAGE_SIZE * |pages|, base + PAGE_SIZE * p, USER_READ_WRITE);
            && BrkCalls(base, brk, pages + [p]) == BrkCalls(base, brk, pages) + [c]
            && WithLeaves(leaves, BrkCalls(base, brk, pages + [p]))
               == WithLeaves(leaves, BrkCalls(base, brk, pages))[KeyOf(c.vaddr) := LeafEntry(c.paddr, c.bits)]
  {
    var calls := BrkCalls(base, brk, pages + [p]);
    assert calls == BrkCalls(base, brk, pages) + [calls[|pages|]];
    assert calls[..|calls| - 1] == BrkCalls(base, brk, pages);
  }

  /** t' has tables for exactly the addresses vs beyond those t has. */
  predicate Tabled(t: Tree, t': Tree, vs: seq<nat>)
  {
    t'.l1.Keys == t.l1.Keys + Mids(vs) && t'.l0.Keys == t.l0.Keys + Lows(vs)
  }

  lemma {:induction false} TabledNone(t: Tree)
    ensures Tabled(t, t, [])
  {
    NewTablesNone(t);
  }

  lemma {:induction false} TabledMore(t: Tree, u: Tree, t': Tree, vs: seq<nat>, ws: seq<nat>)
    requires Tabled(t, u, vs) && Tabled(u, t', ws)
    ensures Tabled(t, t', vs + ws) && NewTables(t, vs + ws) == NewTables(t, vs) + NewTables(u, ws)
  {
    hide Mids, Lows;
    KeysJoin(vs, ws);
    LackingMore(Mids(vs), Mids(ws), t.l1.Keys);
    LackingMore(Lows(vs), Lows(ws), t.l0.Keys);
    UnionsNest(t.l1.Keys, Mids(vs), Mids(ws));
    UnionsNest(t.l0.Keys, Lows(vs), Lows(ws));
  }

  lemma {:induction false} UnionsNest<T>(a: set<T>, b: set<T>, c: set<T>)
    ensures a + b + c == a + (b + c)
  {
  }

  lemma {:induction false} KeysJoin(vs: seq<nat>, ws: seq<nat>)
    ensures Mids(vs + ws) == Mids(vs) + Mids(ws) && Lows(vs + ws) == Lows(vs) + Lows(ws)
  {
    hide Vpn2, Vpn1;
    assert forall x :: x in vs + ws <==> x in vs || x in ws;
  }

  class Process {
    var frame: nat
    var stack: nat
    var table: nat
    var pages: seq<nat>
    var program: Option<nat>
    var brk: nat
    ghost var tree: Tree

    ghost function View(): Holding
      reads this`frame, this`stack, this`tree, this`pages, this`program
    {
      Holding(frame, stack, tree, pages, program)
    }

    ghost predicate Valid(pg: Pages)
      reads this`frame, this`stack, this`table, this`tree, this`pages, this`program, pg, pg.desc, pg.mem
    {
      Holds(pg, View()) && table == tree.root
    }

    /**
     The allocations of add_kernel_process, and of load_proc when an image of programPages
     pages is asked for: trap frame, stack, root table, program. The original does not look
     at null results; here ok tells that there was none, which is so exactly when first fit
     finds room for each in turn.
     */
    method Create(pg: Pages, programPages: nat) returns (ok: bool)
      requires pg.Valid() && STACK_PAGES < pg.desc.Length && programPages <= pg.desc.Length
      modifies this, pg`runs, pg.desc, pg.mem
      ensures ok <==> Fits(old(pg.desc[..]), Sizes(programPages))
      ensures ok <==> Fits(old(pg.desc[..]), if programPages > 0 then [1, 35, 1, programPages] else [1, 35, 1])
      ensures ok ==> Spare(pg.desc[..]) == Spare(old(pg.desc[..])) - Sum(Sizes(programPages))
      ensures ok ==> Valid(pg) && Rest(pg.runs, View()) == old(pg.runs) && Owned(View()) !! old(pg.runs).Keys
      ensures ok ==> tree == EmptyTree(table) && pages == [] && brk == 0 && (program.Some? <==> programPages > 0)
      ensures ok && programPages > 0 ==> pg.runs[program.value] == programPages
      ensures pg.Valid() && Kept(old(pg.runs), old(pg.mem[..]), pg.runs, pg.mem[..])
      ensures ok ==> ZeroRun(pg.mem[..], frame, 1) && ZeroRun(pg.mem[..], stack, STACK_PAGES)
      ensures ok && program.Some? ==> ZeroRun(pg.mem[..], program.value, programPages)
    {
      hide Kept, ZeroRun, Pages.Valid, Mapped, Distinct, Owned, Rest, WithCore, Fits, TakeAll, Spare, FindRun, Took, Sizes, Sum;
      ghost var runs, mem := pg.runs, pg.mem[..];
      SizesAre(pg.desc[..], programPages);
      pages, brk, program := [], 0, None;
      ok, frame, stack, table := TakeCore(pg);
      if !ok { return; }
      tree := EmptyTree(table);
      if programPages > 0 {
        var p;
        ghost var mem1, runs1 := pg.mem[..], pg.runs;
        ok, p := TakeBeside(pg, programPages, tree);
        KeptNext(runs, mem, runs1, mem1, pg.runs, pg.mem[..]);
        if !ok { return; }
        CoreRuns(runs, frame, stack, table);
        ZeroKept(runs1, mem1, pg.runs, pg.mem[..], frame, 1);
        ZeroKept(runs1, mem1, pg.runs, pg.mem[..], stack, STACK_PAGES);
        program := Some(p);
      }
      CreatedHolding(runs, pg.runs, View(), programPages);
    }

    /**
     load_proc: the allocations, then the maps of the image and the stack. born: there was
     room for the allocations; ok: there was also a page for every table.
     */
    method Load(pg: Pages, segs: seq<Segment>) returns (born: bool, ok: bool)
      requires pg.Valid() && STACK_PAGES < pg.desc.Length && ImagePages(segs) <= pg.desc.Length && Loadable(segs)
      modifies this, pg`runs, pg.desc, pg.mem
      ensures born <==> Fits(old(pg.desc[..]), Sizes(ImagePages(segs)))
      ensures ok <==> born && LoadDemand(segs) <= Spare(old(pg.desc[..]))
      ensures born ==> Valid(pg) && Rest(pg.runs, View()) == old(pg.runs) && program.Some? && pages == []
      ensures ok ==>
                && brk == ImageBrk(segs) && Spare(pg.desc[..]) == Spare(old(pg.desc[..])) - LoadDemand(segs)
                && ImageMapped(tree, pg.Addr(program.value), segs) && StackMapped(tree, pg.Addr(stack))
                && Tabled(EmptyTree(table), tree, LoadAddresses(segs))
      ensures pg.Valid() && Kept(old(pg.runs), old(pg.mem[..]), pg.runs, pg.mem[..])
    {
      hide Kept, Data, Pages.Valid, ImageMapped, StackMapped, Holds, Rest, Fits, Spare, Sizes, Sum, NewTables, WithLeaves, Tabled, LoadAddresses, Mids, Lows;
      ghost var runs, mem := pg.runs, pg.mem[..];
      born := Create(pg, ImagePages(segs));
      ok := born;
      if born {
        ghost var h := View();
        var calls := MapImage(pg.Addr(program.value), segs);
        calls := calls + PageCalls(STACK_ADDR, pg.Addr(stack), USER_READ_WRITE, STACK_PAGES);
        ImagePermitted(pg.Addr(program.value), pg.Addr(stack), segs);
        LoadAddressesAre(pg.Addr(program.value), pg.Addr(stack), segs);
        SpaceIsRootAndTables(table, LoadAddresses(segs));
        ghost var t;
        ghost var mem1, runs1 := pg.mem[..], pg.runs;
        ok, t := MapFor(pg, table, calls, h);
        RestKept(runs, mem, runs1, mem1, h, pg.runs, pg.mem[..]);
        tree := t;
        assert View() == h.(tree := t);
        if ok {
          StackInside(pg, View());
          LoadMaps(tree, pg.Addr(program.value), pg.Addr(stack), segs);
        }
      }
    }

    /** The loop of load_proc over the segments: which calls to map it makes, and where the break ends up. */
    method MapImage(image: nat, segs: seq<Segment>) returns (calls: seq<MapCall>)
      requires brk == 0
      modifies this`brk
      ensures calls == ImageCalls(image, segs) && brk == ImageBrk(segs)
    {
      calls := [];
      for k := 0 to |segs|
        invariant calls == ImageCalls(image, segs[..k]) && brk == ImageBrk(segs[..k])
      {
        assert segs[..k + 1][..k] == segs[..k];
        var g, b := segs[k], brk;
        for i := 0 to SegmentPages(g)
          invariant calls == ImageCalls(image, segs[..k]) + PageCalls(g.vaddr, image + g.off, g.bits, i)
          invariant brk == if i > 0 && g.vaddr + PAGE_SIZE * (i - 1) > b then g.vaddr + PAGE_SIZE * (i - 1) else b
        {
          var vaddr := g.vaddr + PAGE_SIZE * i;
          calls := calls + [MapCall(vaddr, image + g.off + PAGE_SIZE * i, g.bits)];
          if vaddr > brk {
            brk := vaddr;
          }
        }
        brk := brk + PAGE_SIZE;
      }
      assert segs[..|segs|] == segs;
    }

    /**
     The brk system call: with the MMU on, maps enough fresh pages from the old break on; ok
     is false when memory ran out (the original goes on with address 0), which is so exactly
     when there are fewer free pages than new pages and tables lacking for them.
     */
    method Brk(pg: Pages, addr: nat, mmuOn: bool) returns (ok: bool)
      requires Valid(pg)
      modifies this`pages, this`tree, this`brk, pg`runs, pg.desc, pg.mem
      ensures Valid(pg) && Rest(pg.runs, View()) == Rest(old(pg.runs), old(View()))
      ensures Kept(Data(old(pg.runs), old(tree)), old(pg.mem[..]), pg.runs, pg.mem[..])
      ensures Within(Data(old(pg.runs), old(tree)), Data(pg.runs, tree))
      ensures old(pages) <= pages
      ensures var n := BrkPages(old(brk), addr, mmuOn);
              var demand := n + NewTables(old(tree), BrkAddresses(old(brk), n));
              && (ok <==> demand <= Spare(old(pg.desc[..])))
              && (ok ==>
                    && brk == (if addr > old(brk) then addr else old(brk))
                    && |pages| == |old(pages)| + n && Spare(pg.desc[..]) == Spare(old(pg.desc[..])) - demand
                    && Tabled(old(tree), tree, BrkAddresses(old(brk), n))
                    && BrkMapped(old(tree), tree, pg.allocStart, old(brk), pages[|old(pages)|..])
                    && ZeroPages(Data(pg.runs, tree), pg.mem[..], pages[|old(pages)|..]))
    {
      hide Kept, ZeroPages, ZeroRun, Data, Within, Valid, Rest, WithLeaves, BrkCalls, BrkMapped, Tabled, NewTables, Spare, BrkAddresses, Mids, Lows;
      ok := true;
      ghost var n0, base, leaves := |pages|, pg.allocStart, tree.leaves;
      ghost var vs := BrkAddresses(brk, BrkPages(brk, addr, mmuOn));
      ghost var data, mem := Data(pg.runs, tree), pg.mem[..];
      NothingMapped(pg.runs, tree, mem);
      WithinSelf(data);
      NoZeroPages(data, mem);
      assert pages[n0..] == [];
      BrkCallsNone(base, brk, leaves);
      BrkAddressesNone(brk, tree);
      if addr > brk {
        if mmuOn {
          var diff := (addr + PAGE_SIZE - brk) / PAGE_SIZE;
          for i := 0 to diff
            modifies this`pages, this`tree, pg`runs, pg.desc, pg.mem
            invariant Valid(pg) && Rest(pg.runs, View()) == Rest(old(pg.runs), old(View()))
            invariant old(pages) <= pages && |pages| == n0 + i
            invariant Kept(data, mem, pg.runs, pg.mem[..]) && Within(data, Data(pg.runs, tree))
            invariant ZeroPages(Data(pg.runs, tree), pg.mem[..], pages[n0..])
            invariant tree.leaves == WithLeaves(leaves, BrkCalls(base, brk, pages[n0..]))
            invariant Tabled(old(tree), tree, BrkAddresses(brk, i))
            invariant Spare(pg.desc[..]) == Spare(old(pg.desc[..])) - i - NewTables(old(tree), BrkAddresses(brk, i))
          {
            ghost var before, u := pages, tree;
            BrkAddressesNext(brk, i, diff, old(tree), tree);
            ghost var data1, mem1, runs1 := Data(pg.runs, tree), pg.mem[..], pg.runs;
            ok := BrkPage(pg, brk + PAGE_SIZE * i);
            KeptOn(data, mem, runs1, mem1, data1, pg.runs, pg.mem[..], Data(pg.runs, tree));
            if !ok { return; }
            assert pages[n0..] == before[n0..] + [pages[n0 + i]];
            ZeroPagesMore(data1, mem1, before[n0..], pg.runs, pg.mem[..], Data(pg.runs, tree), pages[n0 + i]);
            BrkCallsPush(base, brk, before[n0..], pages[n0 + i], leaves);
            BrkAddressesTabled(brk, i, old(tree), u, tree);
          }
        }
        brk := addr;
      }
      BrkMaps(old(tree), tree, base, old(brk), pages[n0..]);
    }

    /** One turn of the loop of brk: a zeroed page, remembered and mapped at vaddr. */
    method BrkPage(pg: Pages, vaddr: nat) returns (ok: bool)
      requires Valid(pg)
      modifies this`pages, this`tree, pg`runs, pg.desc, pg.mem
      ensures Valid(pg) && Rest(pg.runs, View()) == Rest(old(pg.runs), old(View()))
      ensures Kept(Data(old(pg.runs), old(tree)), old(pg.mem[..]), pg.runs, pg.mem[..])
      ensures Within(Data(old(pg.runs), old(tree)), Data(pg.runs, tree))
      ensures old(pages) <= pages
      ensures ok <==> 1 + NewTables(old(tree), [vaddr]) <= Spare(old(pg.desc[..]))
      ensures ok ==> Spare(pg.desc[..]) == Spare(old(pg.desc[..])) - 1 - NewTables(old(tree), [vaddr])
      ensures ok ==> |pages| == |old(pages)| + 1 && Tabled(old(tree), tree, [vaddr])
      ensures ok ==>
                var p := pages[|old(pages)|];
                ZeroRun(pg.mem[..], p, 1) && p in Data(pg.runs, tree) && Data(pg.runs, tree)[p] == 1
      ensures ok ==> tree.leaves == old(tree.leaves)[KeyOf(vaddr) := LeafEntry(pg.Addr(pages[|old(pages)|]), USER_READ_WRITE)]
    {
      hide Kept, ZeroRun, Data, Within, Holds, Rest, Spare, NewTables, Tabled, Mids, Lows;
      ghost var h := View();
      ghost var data, mem, runs := Data(pg.runs, tree), pg.mem[..], pg.runs;
      var page;
      ok, page := TakePage(pg, h);
      ghost var mem1, runs1 := pg.mem[..], pg.runs;
      PageKeepsData(runs, mem, runs1, mem1, h.tree);
      if ok {
        pages := pages + [page];
        h := h.(pages := h.pages + [page]);
        ghost var t;
        var c := MapCall(vaddr, pg.Addr(page), USER_READ_WRITE);
        assert Addresses([c]) == [vaddr];
        OneCall(h.tree.leaves, c);
        ok, t := MapFor(pg, table, [c], h);
        if ok { FreshPageStays(runs1, mem1, h.tree, page, pg.runs, pg.mem[..], t); }
        KeptOn(data, mem, runs1, mem1, Data(runs1, h.tree), pg.runs, pg.mem[..], Data(pg.runs, t));
        tree := t;
        assert View() == h.(tree := t);
      }
    }

    /** Drop: stack, tables, root table, trap frame, brk pages, program, in this order. */
    method Drop(pg: Pages)
      requires Valid(pg)
      modifies pg`runs, pg.desc
      ensures pg.Valid() && pg.runs == Rest(old(pg.runs), old(View()))
    {
      ghost var runs := pg.runs;
      OwnedParts(runs, View());
      FreeCore(pg, stack, table, frame, View());
      FreeEach(pg, pages);
      if program.Some? {
        pg.Dealloc(pg.Addr(program.value), program.value);
      }
    }
  }

  /** The pages load_proc takes, tables included. */
  function LoadDemand(segs: seq<Segment>): nat
  {
    Sum(Sizes(ImagePages(segs))) + |Mids(LoadAddresses(segs))| + |Lows(LoadAddresses(segs))|
  }

  lemma {:induction false} OneCall(leaves: map<Key3, nat>, c: MapCall)
    ensures WithLeaves(leaves, [c]) == leaves[KeyOf(c.vaddr) := LeafEntry(c.paddr, c.bits)]
  {
    assert [c][..0] == [];
    assert WithLeaves(leaves, []) == leaves;
  }

  lemma {:induction false} BrkAddressesNone(brk: nat, t: Tree)
    ensures NewTables(t, BrkAddresses(brk, 0)) == 0 && Tabled(t, t, BrkAddresses(brk, 0))
  {
    NewTablesNone(t);
  }

  /** Some pages into a brk, with tree u: what the next page adds to the tables, and that the whole needs no fewer. */
  lemma {:induction false} BrkAddressesNext(brk: nat, i: nat, n: nat, t: Tree, u: Tree)
    requires i < n && Tabled(t, u, BrkAddresses(brk, i))
    ensures NewTables(t, BrkAddresses(brk, i + 1)) == NewTables(t, BrkAddresses(brk, i)) + NewTables(u, [brk + PAGE_SIZE * i])
    ensures NewTables(t, BrkAddresses(brk, i + 1)) <= NewTables(t, BrkAddresses(brk, n))
  {
    hide NewTables, Mids, Lows;
    assert BrkAddresses(brk, i + 1) == BrkAddresses(brk, i) + [brk + PAGE_SIZE * i];
    NewTablesPush(t, u, BrkAddresses(brk, i), brk + PAGE_SIZE * i);
    assert BrkAddresses(brk, i + 1) == BrkAddresses(brk, n)[..i + 1];
    NewTablesPrefix(t, BrkAddresses(brk, n), i + 1);
  }

  lemma {:induction false} BrkAddressesTabled(brk: nat, i: nat, t: Tree, u: Tree, t': Tree)
    requires Tabled(t, u, BrkAddresses(brk, i)) && Tabled(u, t', [brk + PAGE_SIZE * i])
    ensures Tabled(t, t', BrkAddresses(brk, i + 1))
  {
    hide Tabled, NewTables;
    assert BrkAddresses(brk, i + 1) == BrkAddresses(brk, i) + [brk + PAGE_SIZE * i];
    TabledMore(t, u, t', BrkAddresses(brk, i), [brk + PAGE_SIZE * i]);
  }

  const CORE: seq<nat> := [1, STACK_PAGES, 1]

  lemma {:induction false} SizesAre(d: seq<bv8>, programPages: nat)
    ensures Sum(Sizes(programPages)) == STACK_PAGES + 2 + programPages
    ensures Fits(d, Sizes(programPages)) <==>
              Fits(d, CORE) && (programPages > 0 ==> FindRun(TakeAll(d, CORE), programPages, 0) < |d|)
    ensures Sizes(programPages) == if programPages > 0 then [1, 35, 1, programPages] else [1, 35, 1]
  {
    hide Fits, TakeAll, FindRun;
    SumOfSizes(programPages);
    if programPages > 0 {
      assert Sizes(programPages) == CORE + [programPages];
      if Fits(d, CORE) {
        FitsNext(d, CORE, programPages);
      } else if Fits(d, CORE + [programPages]) {
        FitsMeansAll(d, CORE, programPages);
      }
    } else {
      assert Sizes(programPages) == CORE;
    }
  }

  lemma {:induction false} SumOfSizes(p: nat)
    ensures Sum(Sizes(p)) == STACK_PAGES + 2 + p
  {
    var tail: seq<nat> := if p > 0 then [p] else [];
    assert Sizes(p) == [1, STACK_PAGES, 1] + tail;
    assert Sizes(p)[1..] == [STACK_PAGES, 1] + tail;
    assert ([STACK_PAGES, 1] + tail)[1..] == [1] + tail;
    assert ([1] + tail)[1..] == tail;
    assert tail[|tail|..] == [] && Sum(tail) == p;
    assert Sum([1] + tail) == 1 + p;
    assert Sum([STACK_PAGES, 1] + tail) == STACK_PAGES + 1 + p;
  }

  /** The three allocations of CORE, one after another. */
  lemma {:induction false} CoreSteps(d: seq<bv8>)
    requires 0 < |d|
    ensures Fits(d, [1]) <==> FindRun(d, 1, 0) < |d|
    ensures Fits(d, [1]) ==> TakeAll(d, [1]) == MarkedTable(d, FindRun(d, 1, 0), 1)
    ensures Fits(d, [1]) ==> (Fits(d, [1, STACK_PAGES]) <==> FindRun(TakeAll(d, [1]), STACK_PAGES, 0) < |d|)
    ensures Fits(d, [1, STACK_PAGES]) ==>
              Fits(d, [1]) &&
              var e := TakeAll(d, [1]);
              TakeAll(d, [1, STACK_PAGES]) == MarkedTable(e, FindRun(e, STACK_PAGES, 0), STACK_PAGES)
    ensures Fits(d, [1, STACK_PAGES]) ==> (Fits(d, CORE) <==> 0 < Spare(TakeAll(d, [1, STACK_PAGES])))
    ensures Fits(d, CORE) ==>
              Fits(d, [1, STACK_PAGES]) &&
              var e := TakeAll(d, [1, STACK_PAGES]);
              TakeAll(d, CORE) == MarkedTable(e, FindRun(e, 1, 0), 1)
  {
    hide Fits, TakeAll, FindRun, MarkedTable, Spare;
    FitsNone(d);
    assert [] + [1] == [1] && [1] + [STACK_PAGES] == [1, STACK_PAGES] && [1, STACK_PAGES] + [1] == CORE;
    FitsNext(d, [], 1);
    if Fits(d, [1, STACK_PAGES]) { FitsMeansAll(d, [1], STACK_PAGES); }
    if Fits(d, [1]) { FitsNext(d, [1], STACK_PAGES); }
    if Fits(d, CORE) { FitsMeansAll(d, [1, STACK_PAGES], 1); }
    if Fits(d, [1, STACK_PAGES]) {
      FitsNext(d, [1, STACK_PAGES], 1);
      PageIsFound(TakeAll(d, [1, STACK_PAGES]));
    }
  }

  lemma {:induction false} FitsNone(d: seq<bv8>)
    ensures Fits(d, []) && TakeAll(d, []) == d
  {
  }

  /** Frames f .. f+n-1 hold zeros. */
  predicate ZeroRun(mem: seq<Frame>, f: nat, n: nat)
  {
    f + n <= |mem| && forall g, w :: f <= g < f + n && 0 <= w < 512 ==> mem[g][w] == 0
  }

  lemma {:induction false} ZeroKept(runs: Runs, mem: seq<Frame>, runs': Runs, mem': seq<Frame>, f: nat, n: nat)
    requires Kept(runs, mem, runs', mem') && f in runs && runs[f] == n && ZeroRun(mem, f, n)
    ensures ZeroRun(mem', f, n)
  {
    forall g | f <= g < f + n ensures mem'[g] == mem[g] { assert InRun(runs, f, g); }
  }

  lemma {:induction false} WithinSelf(a: Runs)
    ensures Within(a, a)
  {
  }

  /** Two steps, each of which keeps all there is when it begins. */
  lemma {:induction false} KeptNext(runs: Runs, mem: seq<Frame>, runs1: Runs, mem1: seq<Frame>, runs': Runs, mem': seq<Frame>)
    requires Kept(runs, mem, runs1, mem1) && Kept(runs1, mem1, runs', mem')
    ensures Kept(runs, mem, runs', mem')
  {
    KeptLess(runs, runs1, mem1, runs', mem');
  }

  /** A step that keeps data1, of which data is a part. */
  lemma {:induction false} KeptOn(data: Runs, mem: seq<Frame>, runs1: Runs, mem1: seq<Frame>, data1: Runs, runs': Runs, mem': seq<Frame>, data': Runs)
    requires Kept(data, mem, runs1, mem1) && Within(data, data1) && Kept(data1, mem1, runs', mem') && Within(data1, data')
    ensures Kept(data, mem, runs', mem') && Within(data, data')
  {
    KeptLess(data, data1, mem1, runs', mem');
  }

  lemma {:induction false} PageIsData(runs: Runs, t: Tree, page: nat)
    requires Owns(runs, t) && page !in runs
    ensures page in Data(runs[page := 1], t)
  {
  }

  /** Single pages of data that hold zeros. */
  ghost predicate ZeroPages(data: Runs, mem: seq<Frame>, ps: seq<nat>)
  {
    forall i :: 0 <= i < |ps| ==> ps[i] in data && data[ps[i]] == 1 && ZeroRun(mem, ps[i], 1)
  }

  lemma {:induction false} NoZeroPages(data: Runs, mem: seq<Frame>)
    ensures ZeroPages(data, mem, [])
  {
  }

  lemma {:induction false} ZeroPagesMore(data: Runs, mem: seq<Frame>, ps: seq<nat>, runs': Runs, mem': seq<Frame>, data': Runs, p: nat)
    requires ZeroPages(data, mem, ps) && Kept(data, mem, runs', mem') && Within(data, data')
    requires p in data' && data'[p] == 1 && ZeroRun(mem', p, 1)
    ensures ZeroPages(data', mem', ps + [p])
  {
    hide Kept, ZeroRun;
    forall i | 0 <= i < |ps| ensures ZeroRun(mem', ps[i], 1) { ZeroKept(data, mem, runs', mem', ps[i], 1); }
  }

  /** A page just taken is none of the tables, and map leaves its contents alone. */
  lemma {:induction false} FreshPageStays(runs1: Runs, mem1: seq<Frame>, t: Tree, page: nat, runs': Runs, mem': seq<Frame>, t': Tree)
    requires page in Data(runs1, t) && runs1[page] == 1 && ZeroRun(mem1, page, 1)
    requires Kept(Data(runs1, t), mem1, runs', mem') && Data(runs', t') == Data(runs1, t)
    ensures ZeroRun(mem', page, 1) && page in Data(runs', t') && Data(runs', t')[page] == 1
  {
    ZeroKept(Data(runs1, t), mem1, runs', mem', page, 1);
  }

  lemma {:induction false} PageKeepsData(runs: Runs, mem: seq<Frame>, runs1: Runs, mem1: seq<Frame>, t: Tree)
    requires Kept(runs, mem, runs1, mem1)
    ensures Kept(Data(runs, t), mem, runs1, mem1) && Within(Data(runs, t), Data(runs1, t))
    ensures Within(Data(runs1, t), Data(runs1, t))
  {
    KeptLess(Data(runs, t), runs, mem, runs1, mem1);
  }

  /** Others' allocations are no tables of h, so a step that keeps all but those keeps them. */
  lemma {:induction false} RestKept(runs: Runs, mem: seq<Frame>, runs1: Runs, mem1: seq<Frame>, h: Holding, runs': Runs, mem': seq<Frame>)
    requires Kept(runs, mem, runs1, mem1) && Rest(runs1, h) == runs && Kept(Data(runs1, h.tree), mem1, runs', mem')
    ensures Kept(runs, mem, runs', mem')
  {
    assert Within(runs, Data(runs1, h.tree)) by {
      forall s | s in runs ensures s in Data(runs1, h.tree) && Data(runs1, h.tree)[s] == runs[s] {
        assert s in Rest(runs1, h);
      }
    }
    KeptLess(runs, Data(runs1, h.tree), mem1, runs', mem');
  }

  /** The stack lies at a page boundary of physical memory. */
  lemma {:induction false} StackInside(pg: Pages, h: Holding)
    requires Holds(pg, h)
    ensures pg.Addr(h.stack) % 4096 == 0 && pg.Addr(h.stack) + 4096 * STACK_PAGES <= PHYS_LIMIT
  {
    hide Represents, Distinct;
    assert h.stack in Owned(h);
    assert h.stack + STACK_PAGES <= pg.desc.Length;
    QuotientIs(pg.Addr(h.stack), 4096, pg.allocStart / 4096 + h.stack, 0);
  }

  // ---------------------------------------------------------------- what brk maps

  /** v is on the i-th of n pages from brk on, and on none after it. */
  ghost predicate LastOnBrk(brk: nat, n: nat, i: nat, v: nat)
  {
    i < n && PageAt(brk, i) == PageNumber(v) && forall j: nat :: i < j < n ==> PageAt(brk, j) != PageNumber(v)
  }

  /** The new pages, at base, are mapped one after the other from brk on; other addresses stand for what they did. */
  ghost predicate BrkMapped(t: Tree, t': Tree, base: nat, brk: nat, pages: seq<nat>)
  {
    && (forall i: nat, v: nat :: LastOnBrk(brk, |pages|, i, v) ==> Placed(t', v, base + 4096 * pages[i], USER_READ_WRITE))
    && (forall v: nat :: (forall i: nat :: i < |pages| ==> PageAt(brk, i) != PageNumber(v)) ==> Translate(t', v) == Translate(t, v))
  }

  lemma {:induction false} BrkMaps(t: Tree, t': Tree, base: nat, brk: nat, pages: seq<nat>)
    requires t'.leaves == WithLeaves(t.leaves, BrkCalls(base, brk, pages))
    ensures BrkMapped(t, t', base, brk, pages)
  {
    hide LeafEntry, KeyOf, PageNumber, WithLeaves, Placed, HasFlags;
    var calls := BrkCalls(base, brk, pages);
    assert forall k :: 0 <= k < |pages| ==> PageNumber(calls[k].vaddr) == PageAt(brk, k);
    forall i: nat, v: nat | LastOnBrk(brk, |pages|, i, v) ensures i < |pages| && Placed(t', v, base + 4096 * pages[i], USER_READ_WRITE) {
      LastCallWins(t.leaves, calls, v, i);
      LeafIsPlaced(t', v, base + 4096 * pages[i], USER_READ_WRITE);
    }
    forall v: nat | forall i: nat :: i < |pages| ==> PageAt(brk, i) != PageNumber(v) ensures Translate(t', v) == Translate(t, v) {
      AvoidedKeeps(t.leaves, calls, v);
    }
  }

  /**
   The pages added for a break from brk to addr cover all addresses in between exactly when
   the part of a page before brk and the part of a page asked for beyond whole pages fit in one.
   */
  lemma {:induction false} BrkCoversIff(brk: nat, addr: nat)
    requires brk < addr
    ensures (forall v :: brk <= v < addr ==> v / 4096 < brk / 4096 + BrkPages(brk, addr, true))
            <==> brk % 4096 + (addr - brk) % 4096 <= 4096
  {
    var size := addr - brk;
    var q, r, n, e := brk / 4096, brk % 4096, size / 4096, size % 4096;
    QuotientIs(addr + PAGE_SIZE - brk, 4096, n + 1, e);
    assert addr - 1 == 4096 * (q + n) + (r + e - 1);
    if r + e <= 4096 {
      forall v | brk <= v < addr ensures v / 4096 < q + n + 1 {
        assert v < 4096 * (q + n + 1);
      }
    } else {
      QuotientIs(addr - 1, 4096, q + n + 1, r + e - 1 - 4096);
      assert brk <= addr - 1 < addr;
    }
  }

  /** Then every address from the old break up to the new one is mapped. */
  lemma {:induction false} BrkAllMapped(t: Tree, t': Tree, base: nat, brk: nat, addr: nat, pages: seq<nat>, v: nat)
    requires BrkMapped(t, t', base, brk, pages) && |pages| == BrkPages(brk, addr, true)
    requires brk <= v < addr && brk % 4096 + (addr - brk) % 4096 <= 4096
    ensures Translate(t', v).Some?
  {
    hide Translate, HasFlags, BrkPages, PageNumber;
    BrkCoversIff(brk, addr);
    var i := v / 4096 - brk / 4096;
    OnPage(brk, v);
    var j := LastPageFor(brk, |pages|, i, v);
    assert Placed(t', v, base + 4096 * pages[j], USER_READ_WRITE);
  }

  lemma {:induction false} OnPage(brk: nat, v: nat)
    requires brk <= v
    ensures brk / 4096 <= v / 4096 && PageAt(brk, v / 4096 - brk / 4096) == PageNumber(v)
  {
    var i := v / 4096 - brk / 4096;
    QuotientIs(brk + 4096 * i, 4096, brk / 4096 + i, brk % 4096);
  }

  lemma {:induction false} LastPageFor(brk: nat, n: nat, i: nat, v: nat) returns (j: nat)
    requires i < n && PageAt(brk, i) == PageNumber(v)
    ensures LastOnBrk(brk, n, j, v)
    decreases n - i
  {
    if k: nat :| i < k < n && PageAt(brk, k) == PageNumber(v) {
      j := LastPageFor(brk, n, k, v);
    } else {
      j := i;
    }
  }

  /** For instance a break moved from 4095 to 4098 gets one page, and addresses 4096 and 4097 none. */
  lemma {:induction false} BrkMissesPage()
    ensures BrkPages(4095, 4098, true) == 1 && 4095 / 4096 == 0 && 4096 / 4096 == 1
  {
  }

  function WithCore(runs: Runs, frame: nat, stack: nat, root: nat): Runs
  {
    runs[frame := 1][stack := STACK_PAGES][root := 1]
  }

  lemma {:induction false} CoreRuns(runs: Runs, frame: nat, stack: nat, root: nat)
    requires frame != stack && frame != root && stack != root
    ensures var core := WithCore(runs, frame, stack, root);
            frame in core && core[frame] == 1 && stack in core && core[stack] == STACK_PAGES
  {
  }

  lemma {:induction false} CreatedHolding(runs: Runs, runs': Runs, h: Holding, programPages: nat)
    requires h.tree == EmptyTree(h.tree.root) && h.pages == []
    requires h.frame !in runs && h.stack !in runs && h.tree.root !in runs
    requires h.frame != h.stack && h.frame != h.tree.root && h.stack != h.tree.root
    requires var core := WithCore(runs, h.frame, h.stack, h.tree.root);
             if h.program.None? then runs' == core
             else h.program.value !in core && runs' == core[h.program.value := programPages]
    ensures Distinct(h) && Owned(h) <= runs'.Keys && runs'[h.stack] == STACK_PAGES
    ensures Rest(runs', h) == runs && Owned(h) !! runs.Keys
  {
    assert Tables(h.tree) == {};
    assert Elements(h.pages) == {};
  }

  /** A zeroed page for the process that holds h. */
  method TakePage(pg: Pages, ghost h: Holding) returns (ok: bool, page: nat)
    requires Holds(pg, h)
    modifies pg`runs, pg.desc, pg.mem
    ensures ok <==> 0 < Spare(old(pg.desc[..]))
    ensures ok ==> Spare(pg.desc[..]) == Spare(old(pg.desc[..])) - 1
    ensures ok ==> Holds(pg, h.(pages := h.pages + [page]))
    ensures ok ==> Rest(pg.runs, h.(pages := h.pages + [page])) == Rest(old(pg.runs), h)
    ensures !ok ==> Holds(pg, h) && pg.runs == old(pg.runs)
    ensures ok ==> page < pg.desc.Length
    ensures Kept(old(pg.runs), old(pg.mem[..]), pg.runs, pg.mem[..])
    ensures ok ==> ZeroRun(pg.mem[..], page, 1) && page in Data(pg.runs, h.tree) && pg.runs[page] == 1
  {
    hide Kept, ZeroRun, Spare, FindRun, Took;
    ghost var runs := pg.runs;
    PageIsFound(pg.desc[..]);
    ok, page := TakeBeside(pg, 1, h.tree);
    if ok {
      PushKeeps(runs, h, page);
      PageIsData(runs, h.tree, page);
    }
  }

  /** User mappings in the address space of the process that holds h. */
  method MapFor(pg: Pages, table: nat, calls: seq<MapCall>, ghost h: Holding) returns (ok: bool, ghost t: Tree)
    requires Holds(pg, h) && table == h.tree.root && Permitted(calls)
    modifies pg`runs, pg.desc, pg.mem
    ensures Holds(pg, h.(tree := t)) && t.root == table
    ensures Rest(pg.runs, h.(tree := t)) == Rest(old(pg.runs), h)
    ensures ok <==> NewTables(h.tree, Addresses(calls)) <= Spare(old(pg.desc[..]))
    ensures ok ==> Spare(pg.desc[..]) == Spare(old(pg.desc[..])) - NewTables(h.tree, Addresses(calls))
    ensures ok ==> t.leaves == WithLeaves(h.tree.leaves, calls) && Tabled(h.tree, t, Addresses(calls))
    ensures pg.Valid() && Kept(Data(old(pg.runs), h.tree), old(pg.mem[..]), pg.runs, pg.mem[..]) && Data(pg.runs, t) == Data(old(pg.runs), h.tree)
  {
    hide Kept, Data, KeepsRest, Spare, NewTables, Addresses, WithLeaves, Mids, Lows;
    ghost var runs := pg.runs;
    ok, t := MapAll(pg, table, calls, h.tree);
    GrowKeeps(runs, h, pg.runs, t);
  }

  /** Recording a fresh one-page run. */
  lemma {:induction false} PushKeeps(runs: Runs, h: Holding, page: nat)
    requires Distinct(h) && Owned(h) <= runs.Keys && page !in runs
    ensures var h' := h.(pages := h.pages + [page]);
            && Distinct(h') && Owned(h') <= runs[page := 1].Keys
            && Owned(h') == Owned(h) + {page} && Rest(runs[page := 1], h') == Rest(runs, h)
  {
    assert Elements(h.pages + [page]) == Elements(h.pages) + {page};
    assert forall i :: 0 <= i < |h.pages| ==> h.pages[i] in Elements(h.pages);
  }

  /** A larger tree over the same other allocations. */
  lemma {:induction false} GrowKeeps(runs: Runs, h: Holding, runs': Runs, t: Tree)
    requires Distinct(h) && Owned(h) <= runs.Keys && t.root == h.tree.root
    requires Others(runs', t) == Others(runs, h.tree) && Owns(runs', t) && t.root !in Tables(t)
    ensures var h' := h.(tree := t);
            && Distinct(h') && Owned(h') <= runs'.Keys && Rest(runs', h') == Rest(runs, h)
    ensures h.stack in runs' && runs'[h.stack] == runs[h.stack]
  {
    var h' := h.(tree := t);
    var beside := Owned(h) - Tables(h.tree);
    forall x | x in beside ensures x in runs' && x !in Tables(t) {
      assert x in Others(runs, h.tree);
    }
    assert h.stack in Others(runs, h.tree);
    assert Owned(h') == beside + Tables(t);
    forall x | x in Rest(runs', h') ensures x in Rest(runs, h) && runs[x] == runs'[x] {
      assert x in Others(runs', t);
    }
    forall x | x in Rest(runs, h) ensures x in Rest(runs', h') {
      assert x in Others(runs, h.tree);
    }
  }

  /** The three allocations every process starts with. */
  method TakeCore(pg: Pages) returns (ok: bool, frame: nat, stack: nat, table: nat)
    requires pg.Valid() && STACK_PAGES < pg.desc.Length
    modifies pg`runs, pg.desc, pg.mem
    ensures ok <==> Fits(old(pg.desc[..]), CORE)
    ensures ok ==> pg.desc[..] == TakeAll(old(pg.desc[..]), CORE)
    ensures ok ==> Spare(pg.desc[..]) == Spare(old(pg.desc[..])) - STACK_PAGES - 2
    ensures ok ==> Mapped(pg, EmptyTree(table)) && pg.runs == WithCore(old(pg.runs), frame, stack, table)
    ensures ok ==> frame !in old(pg.runs) && stack !in old(pg.runs) && table !in old(pg.runs)
    ensures ok ==> frame != stack && frame != table && stack != table
    ensures pg.Valid() && Kept(old(pg.runs), old(pg.mem[..]), pg.runs, pg.mem[..])
    ensures ok ==> ZeroRun(pg.mem[..], frame, 1) && ZeroRun(pg.mem[..], stack, STACK_PAGES)
  {
    hide Kept, ZeroRun, Fits, TakeAll, FindRun, MarkedTable, Spare, Mapped, Denotes;
    CoreSteps(pg.desc[..]);
    frame, stack, table := 0, 0, 0;
    ghost var runs, mem := pg.runs, pg.mem[..];
    ok, frame := TakeRun(pg, 1);
    if !ok { return; }
    ghost var runs1, mem1 := pg.runs, pg.mem[..];
    ok, stack := TakeRun(pg, STACK_PAGES);
    KeptNext(runs, mem, runs1, mem1, pg.runs, pg.mem[..]);
    if !ok { return; }
    ZeroKept(runs1, mem1, pg.runs, pg.mem[..], frame, 1);
    ghost var runs2, mem2 := pg.runs, pg.mem[..];
    var page;
    page, table := NewRoot(pg);
    KeptNext(runs, mem, runs2, mem2, pg.runs, pg.mem[..]);
    ZeroKept(runs2, mem2, pg.runs, pg.mem[..], frame, 1);
    ZeroKept(runs2, mem2, pg.runs, pg.mem[..], stack, STACK_PAGES);
    ok := page != 0;
  }

  /** zalloc of some pages, as a frame number. */
  method TakeRun(pg: Pages, pages: nat) returns (ok: bool, f: nat)
    requires pg.Valid() && 0 < pages <= pg.desc.Length
    modifies pg`runs, pg.desc, pg.mem
    ensures pg.Valid()
    ensures ok <==> FindRun(old(pg.desc[..]), pages, 0) < pg.desc.Length
    ensures ok ==> Took(old(pg.desc[..]), pg.desc[..], f, pages) && Spare(pg.desc[..]) == Spare(old(pg.desc[..])) - pages
    ensures ok ==> f !in old(pg.runs) && pg.runs == old(pg.runs)[f := pages] && f + pages <= pg.mem.Length
    ensures ok ==> FreeRun(old(pg.desc[..]), f, pages)
    ensures ok ==> forall g :: 0 <= g < pg.mem.Length && !(f <= g < f + pages) ==> pg.mem[g] == old(pg.mem[g])
    ensures !ok ==> pg.runs == old(pg.runs) && pg.mem[..] == old(pg.mem[..]) && pg.desc[..] == old(pg.desc[..])
    ensures Kept(old(pg.runs), old(pg.mem[..]), pg.runs, pg.mem[..])
    ensures ok ==> ZeroRun(pg.mem[..], f, pages)
  {
    hide Kept, FindRun, Spare, MarkedTable, Marked, FreeRun, Denotes;
    var addr; ghost var i;
    ghost var d, runs, mem := pg.desc[..], pg.runs, pg.mem[..];
    addr, i := pg.Zalloc(pages);
    ok, f := addr != 0, 0;
    if ok {
      f := (addr - pg.allocStart) / PAGE_SIZE;
      LowestIsFound(d, pg.desc[..], i, pages);
      FreshKept(d, runs, i, pages, mem, pg.mem[..]);
    } else {
      NoneIsFound(d, pages);
      KeptSame(runs, mem);
    }
  }

  /** The same beside an address space, whose tables it cannot touch. */
  method TakeBeside(pg: Pages, pages: nat, ghost t: Tree) returns (ok: bool, f: nat)
    requires Mapped(pg, t) && 0 < pages <= pg.desc.Length
    modifies pg`runs, pg.desc, pg.mem
    ensures Mapped(pg, t)
    ensures ok <==> FindRun(old(pg.desc[..]), pages, 0) < pg.desc.Length
    ensures ok ==> Took(old(pg.desc[..]), pg.desc[..], f, pages) && Spare(pg.desc[..]) == Spare(old(pg.desc[..])) - pages
    ensures ok ==> f !in old(pg.runs) && pg.runs == old(pg.runs)[f := pages] && f + pages <= pg.desc.Length
    ensures !ok ==> pg.runs == old(pg.runs)
    ensures pg.Valid() && Kept(old(pg.runs), old(pg.mem[..]), pg.runs, pg.mem[..])
    ensures ok ==> ZeroRun(pg.mem[..], f, pages)
  {
    hide Kept, ZeroRun, FindRun, Spare, Took, FreeRun, Denotes, Represents;
    ghost var mem, desc, runs := pg.mem[..], pg.desc[..], pg.runs;
    ok, f := TakeRun(pg, pages);
    if ok {
      forall g | g in Tables(t) + {t.root} ensures g >= |mem| || pg.mem[g] == mem[g] {
        FreeRunIsApart(desc, runs, f, pages, g);
      }
    }
    RepresentsKept(mem, pg.mem[..], pg.allocStart, t);
  }

  lemma {:induction false} RepresentsKept(mem: seq<Frame>, mem': seq<Frame>, base: nat, t: Tree)
    requires Represents(mem, base, t) && |mem'| == |mem|
    requires forall g :: g in Tables(t) + {t.root} ==> g >= |mem| || mem'[g] == mem[g]
    ensures Represents(mem', base, t)
  {
    assert forall a :: a in t.l1 ==> t.l1[a] in Tables(t);
    assert forall k :: k in t.l0 ==> t.l0[k] in Tables(t);
    assert MidHolds(mem', base, t);
    assert LowHolds(mem', t);
  }

  function Core(h: Holding): set<nat> { {h.frame, h.stack, h.tree.root} + Tables(h.tree) }

  lemma {:induction false} OwnedParts(runs: Runs, h: Holding)
    requires Distinct(h) && Owned(h) <= runs.Keys
    ensures Rest(runs, h) == runs - Core(h) - Elements(h.pages) - ProgramSet(h.program)
    ensures Elements(h.pages) <= (runs - Core(h)).Keys
    ensures ProgramSet(h.program) <= (runs - Core(h) - Elements(h.pages)).Keys
    ensures h.program.Some? ==> h.program.value in ProgramSet(h.program)
  {
  }

  method FreeCore(pg: Pages, stack: nat, table: nat, frame: nat, ghost h: Holding)
    requires Mapped(pg, h.tree) && Distinct(h) && {h.stack, h.frame} <= pg.runs.Keys
    requires stack == h.stack && table == h.tree.root && frame == h.frame
    modifies pg`runs, pg.desc
    ensures pg.Valid() && pg.runs == old(pg.runs) - Core(h)
  {
    hide Represents, Pages.Valid;
    FreeBeside(pg, stack, h.tree);
    FreeSpace(pg, pg.Addr(table), table, h.tree);
    pg.Dealloc(pg.Addr(frame), frame);
  }

  /** Frees a run that is none of t's tables. */
  method FreeBeside(pg: Pages, f: nat, ghost t: Tree)
    requires Mapped(pg, t) && f in pg.runs && f != t.root && f !in Tables(t)
    modifies pg`runs, pg.desc
    ensures Mapped(pg, t) && pg.runs == old(pg.runs) - {f}
  {
    ghost var mem := pg.mem[..];
    pg.Dealloc(pg.Addr(f), f);
    assert pg.mem[..] == mem;
  }

  method FreeEach(pg: Pages, pages: seq<nat>)
    requires pg.Valid() && Elements(pages) <= pg.runs.Keys
    requires forall i, j :: 0 <= i < j < |pages| ==> pages[i] != pages[j]
    modifies pg`runs, pg.desc
    ensures pg.Valid() && pg.runs == old(pg.runs) - Elements(pages)
  {
    for i := 0 to |pages|
      invariant pg.Valid() && pg.runs == old(pg.runs) - Elements(pages[..i])
    {
      assert pages[i] in Elements(pages);
      assert pages[i] !in Elements(pages[..i]);
      assert Elements(pages[..i + 1]) == Elements(pages[..i]) + {pages[i]};
      pg.Dealloc(pg.Addr(pages[i]), pages[i]);
    }
    assert pages[..|pages|] == pages;
  }

  // ---------------------------------------------------------------- a whole life

  /** A kernel process has no image; a loaded one runs with the MMU on. */
  function ProgramPages(image: Option<seq<Segment>>): nat
  {
    if image.Some? then ImagePages(image.value) else 0
  }

  function StartAddresses(image: Option<seq<Segment>>): seq<nat>
  {
    if image.Some? then LoadAddresses(image.value) else []
  }

  function StartBrk(image: Option<seq<Segment>>): nat
  {
    if image.Some? then ImageBrk(image.value) else 0
  }

  /** The break after some brk calls. */
  function BreakEnd(brk: nat, breaks: seq<nat>): nat
  {
    if breaks == [] then brk
    else
      var b, addr := BreakEnd(brk, breaks[..|breaks| - 1]), breaks[|breaks| - 1];
      if addr > b then addr else b
  }

  /** The addresses at which they add pages. */
  function BreakAddresses(brk: nat, breaks: seq<nat>, mmuOn: bool): seq<nat>
  {
    if breaks == [] then []
    else
      var init, addr := breaks[..|breaks| - 1], breaks[|breaks| - 1];
      var b := BreakEnd(brk, init);
      BreakAddresses(brk, init, mmuOn) + BrkAddresses(b, BrkPages(b, addr, mmuOn))
  }

  /** The pages and tables taken for mapping vs, n of them at fresh pages, by a process with its allocations made. */
  function Demand(image: Option<seq<Segment>>, vs: seq<nat>, n: nat): nat
  {
    Sum(Sizes(ProgramPages(image))) + n + |Mids(vs)| + |Lows(vs)|
  }

  lemma {:induction false} DemandIs(image: Option<seq<Segment>>, vs: seq<nat>, n: nat, root: nat)
    ensures Demand(image, vs, n) == Sum(Sizes(ProgramPages(image))) + n + NewTables(EmptyTree(root), vs)
  {
    hide Sum, Sizes, Mids, Lows;
    SpaceIsRootAndTables(root, vs);
  }

  /** Creation with or without an image. */
  method Start(pg: Pages, image: Option<seq<Segment>>) returns (p: Process, born: bool, ok: bool)
    requires pg.Valid() && STACK_PAGES < pg.desc.Length && ProgramPages(image) <= pg.desc.Length
    requires image.Some? ==> Loadable(image.value)
    modifies pg`runs, pg.desc, pg.mem
    ensures fresh(p) && (born <==> Fits(old(pg.desc[..]), Sizes(ProgramPages(image))))
    ensures born ==> p.Valid(pg) && Rest(pg.runs, p.View()) == old(pg.runs)
    ensures ok <==> born && Demand(image, StartAddresses(image), 0) <= Spare(old(pg.desc[..]))
    ensures ok ==>
              && p.brk == StartBrk(image) && Tabled(EmptyTree(p.table), p.tree, StartAddresses(image))
              && Spare(pg.desc[..]) == Spare(old(pg.desc[..])) - Demand(image, StartAddresses(image), 0)
    ensures pg.Valid() && Kept(old(pg.runs), old(pg.mem[..]), pg.runs, pg.mem[..])
  {
    hide Kept, Holds, Rest, Fits, Spare, Sizes, Sum, WithLeaves, Tabled, LoadAddresses, Mids, Lows;
    p := new Process;
    if image.Some? {
      born, ok := p.Load(pg, image.value);
    } else {
      born := p.Create(pg, 0);
      ok := born;
      NewTablesNone(p.tree);
      TabledNone(p.tree);
    }
  }

  /** Any brk calls one after another, until one fails. */
  method GrowAll(p: Process, pg: Pages, breaks: seq<nat>, mmuOn: bool) returns (ok: bool)
    requires p.Valid(pg)
    modifies p`pages, p`tree, p`brk, pg`runs, pg.desc, pg.mem
    ensures p.Valid(pg) && Rest(pg.runs, p.View()) == Rest(old(pg.runs), old(p.View()))
    ensures var vs := BreakAddresses(old(p.brk), breaks, mmuOn);
            && (ok <==> |vs| + NewTables(old(p.tree), vs) <= Spare(old(pg.desc[..])))
            && (ok ==>
                  && p.brk == BreakEnd(old(p.brk), breaks) && Tabled(old(p.tree), p.tree, vs)
                  && Spare(pg.desc[..]) == Spare(old(pg.desc[..])) - |vs| - NewTables(old(p.tree), vs))
    ensures Kept(Data(old(pg.runs), old(p.tree)), old(pg.mem[..]), pg.runs, pg.mem[..])
    ensures Within(Data(old(pg.runs), old(p.tree)), Data(pg.runs, p.tree))
    decreases |breaks|
  {
    hide Kept, Data, Within, Process.Valid, Rest, WithLeaves, BrkCalls, Tabled, NewTables, Spare, Mids, Lows;
    ok := true;
    ghost var data, mem := Data(pg.runs, p.tree), pg.mem[..];
    if breaks == [] {
      NewTablesNone(p.tree);
      TabledNone(p.tree);
      NothingMapped(pg.runs, p.tree, mem);
      WithinSelf(data);
    } else {
      var n := |breaks| - 1;
      ghost var t := p.tree;
      ghost var vs := BreakAddresses(p.brk, breaks[..n], mmuOn);
      ghost var b := BreakEnd(p.brk, breaks[..n]);
      ghost var ws := BrkAddresses(b, BrkPages(b, breaks[n], mmuOn));
      ok := GrowAll(p, pg, breaks[..n], mmuOn);
      if ok {
        ghost var u := p.tree;
        ghost var data1, mem1, runs1 := Data(pg.runs, u), pg.mem[..], pg.runs;
        ok := p.Brk(pg, breaks[n], mmuOn);
        KeptOn(data, mem, runs1, mem1, data1, pg.runs, pg.mem[..], Data(pg.runs, p.tree));
        NewTablesJoin(t, u, vs, ws);
        if ok { TabledMore(t, u, p.tree, vs, ws); }
      } else {
        assert (vs + ws)[..|vs|] == vs;
        NewTablesPrefix(t, vs + ws, |vs|);
      }
    }
  }

  lemma {:induction false} NewTablesJoin(t: Tree, u: Tree, vs: seq<nat>, ws: seq<nat>)
    requires Tabled(t, u, vs)
    ensures NewTables(t, vs + ws) == NewTables(t, vs) + NewTables(u, ws)
  {
    hide Mids, Lows;
    KeysJoin(vs, ws);
    LackingMore(Mids(vs), Mids(ws), t.l1.Keys);
    LackingMore(Lows(vs), Lows(ws), t.l0.Keys);
  }

  /**
   A whole life: creation, any growth of the break, and Drop. The process is born exactly when
   first fit finds room for its allocations, everything it asks for is served exactly when
   there are enough free pages, and, once it is born, dropping it leaves the descriptor table
   exactly as it was found, even if memory ran out in between.
   */
  method Lifetime(pg: Pages, image: Option<seq<Segment>>, breaks: seq<nat>) returns (born: bool, served: bool)
    requires pg.Valid() && STACK_PAGES < pg.desc.Length && ProgramPages(image) <= pg.desc.Length
    requires image.Some? ==> Loadable(image.value)
    modifies pg`runs, pg.desc, pg.mem
    ensures born <==> Fits(old(pg.desc[..]), Sizes(ProgramPages(image)))
    ensures var more := BreakAddresses(StartBrk(image), breaks, image.Some?);
            served <==> born && Demand(image, StartAddresses(image) + more, |more|) <= Spare(old(pg.desc[..]))
    ensures born ==> pg.runs == old(pg.runs) && pg.desc[..] == old(pg.desc[..])
    ensures pg.Valid() && Kept(old(pg.runs), old(pg.mem[..]), pg.runs, pg.mem[..])
  {
    hide Kept, Data, Within, Holds, Rest, Fits, Spare, Sizes, Sum, Tabled, NewTables, StartAddresses, StartBrk, BreakAddresses, Demand;
    ghost var desc, runs, mem := pg.desc[..], pg.runs, pg.mem[..];
    ghost var vs, ws := StartAddresses(image), BreakAddresses(StartBrk(image), breaks, image.Some?);
    var p;
    p, born, served := Start(pg, image);
    ghost var root := p.table;
    DemandIs(image, vs, 0, root);
    DemandIs(image, vs + ws, |ws|, root);
    assert (vs + ws)[..|vs|] == vs;
    NewTablesPrefix(EmptyTree(root), vs + ws, |vs|);
    if born {
      if served {
        NewTablesJoin(EmptyTree(root), p.tree, vs, ws);
        ghost var h, runs1, mem1 := p.View(), pg.runs, pg.mem[..];
        served := GrowAll(p, pg, breaks, image.Some?);
        RestKept(runs, mem, runs1, mem1, h, pg.runs, pg.mem[..]);
      }
      ghost var runs2 := pg.runs;
      p.Drop(pg);
      KeptBack(runs, mem, runs2, pg.mem[..]);
      RunsDetermineTable(desc, pg.desc[..], runs);
    }
  }
}
