/**
 page.rs, allocation half: one byte-sized descriptor per page, with a taken bit and a bit
 that marks the last page of an allocation. The descriptor table is read as a set of
 disjoint runs, each given by its first page and its length.
 */
module PageTableRuns {
  const TAKEN: bv8 := 1
  const LAST: bv8 := 2

  predicate IsTaken(f: bv8) { f & TAKEN != 0 }

  predicate IsFree(f: bv8) { !IsTaken(f) }

  predicate IsLast(f: bv8) { f & LAST != 0 }

  function SetFlag(f: bv8, flag: bv8): bv8 { f | flag }

  type Runs = map<nat, nat>

  predicate InRun(r: Runs, s: nat, k: nat)
  {
    s in r && s <= k < s + r[s]
  }

  /** The descriptor of page k of the run that starts at s. */
  function RunFlag(r: Runs, s: nat, k: nat): bv8
    requires InRun(r, s, k)
  {
    if k == s + r[s] - 1 then TAKEN | LAST else TAKEN
  }

  /** Every run of a is one of b. */
  predicate Within(a: Runs, b: Runs)
  {
    forall s :: s in a ==> s in b && b[s] == a[s]
  }

  predicate Disjoint(r: Runs)
  {
    forall s, t :: s in r && t in r && s < t ==> s + r[s] <= t
  }

  /** Table d denotes exactly the runs r: every run ends in one Last page, nothing else is set. */
  ghost predicate Denotes(d: seq<bv8>, r: Runs)
  {
    && (forall s :: s in r ==> 0 < r[s] && s + r[s] <= |d|)
    && Disjoint(r)
    && (forall s: nat, k: nat :: InRun(r, s, k) ==> k < |d| && d[k] == RunFlag(r, s, k))
    && (forall k :: 0 <= k < |d| && d[k] != 0 ==> exists s: nat :: InRun(r, s, k))
  }

  predicate FreeRun(d: seq<bv8>, i: nat, pages: nat)
  {
    i + pages <= |d| && forall k :: i <= k < i + pages ==> IsFree(d[k])
  }

  /** d with pages i .. i+pages-1 marked as one allocation. */
  predicate Marked(d: seq<bv8>, d': seq<bv8>, i: nat, pages: nat)
  {
    && |d'| == |d| && 0 < pages && i + pages <= |d|
    && (forall k :: i <= k < i + pages ==> d'[k] == if k == i + pages - 1 then TAKEN | LAST else TAKEN)
    && (forall k :: 0 <= k < |d| && !(i <= k < i + pages) ==> d'[k] == d[k])
  }

  predicate Cleared(d: seq<bv8>, d': seq<bv8>, i: nat, pages: nat)
  {
    && |d'| == |d| && i + pages <= |d|
    && (forall k :: i <= k < i + pages ==> d'[k] == 0)
    && (forall k :: 0 <= k < |d| && !(i <= k < i + pages) ==> d'[k] == d[k])
  }

  /** The first of the runs of some pages, from i on, that alloc would find; |d| when there is none. */
  function FindRun(d: seq<bv8>, pages: nat, i: nat): (r: nat)
    ensures r == |d| || (i <= r < |d| - pages && FreeRun(d, r, pages))
    ensures forall j :: i <= j < r && j < |d| - pages ==> !FreeRun(d, j, pages)
    decreases |d| - i
  {
    if i >= |d| - pages then |d|
    else if FreeRun(d, i, pages) then i
    else FindRun(d, pages, i + 1)
  }

  /** The table with pages i .. i+pages-1 marked. */
  function MarkedTable(d: seq<bv8>, i: nat, pages: nat): (d': seq<bv8>)
    ensures |d'| == |d|
  {
    seq(|d|, k requires 0 <= k < |d| => if i <= k < i + pages then (if k == i + pages - 1 then TAKEN | LAST else TAKEN) else d[k])
  }

  /** Whether allocations of these sizes, made in this order, all succeed. */
  predicate Fits(d: seq<bv8>, sizes: seq<nat>)
    decreases |sizes|
  {
    sizes == [] ||
    var i := FindRun(d, sizes[0], 0);
    i < |d| && Fits(MarkedTable(d, i, sizes[0]), sizes[1..])
  }

  /** The table after them. */
  function TakeAll(d: seq<bv8>, sizes: seq<nat>): (d': seq<bv8>)
    requires Fits(d, sizes)
    ensures |d'| == |d|
    decreases |sizes|
  {
    if sizes == [] then d
    else TakeAll(MarkedTable(d, FindRun(d, sizes[0], 0), sizes[0]), sizes[1..])
  }

  function Sum(sizes: seq<nat>): nat
  {
    if sizes == [] then 0 else sizes[0] + Sum(sizes[1..])
  }

  /** What an allocation of some pages at i does to the table, when it succeeds. */
  predicate Took(d: seq<bv8>, d': seq<bv8>, i: nat, pages: nat)
  {
    i == FindRun(d, pages, 0) && i < |d| && d' == MarkedTable(d, i, pages)
  }

  lemma {:induction false} FitsNext(d: seq<bv8>, sizes: seq<nat>, pages: nat)
    requires Fits(d, sizes)
    ensures Fits(d, sizes + [pages]) <==> FindRun(TakeAll(d, sizes), pages, 0) < |d|
    ensures Fits(d, sizes + [pages]) ==>
              var e := TakeAll(d, sizes);
              TakeAll(d, sizes + [pages]) == MarkedTable(e, FindRun(e, pages, 0), pages)
    decreases |sizes|
  {
    hide FindRun, MarkedTable;
    if sizes == [] {
      assert [pages][1..] == [];
      assert sizes + [pages] == [pages];
      assert Fits(MarkedTable(d, FindRun(d, pages, 0), pages), []);
    } else {
      assert (sizes + [pages])[1..] == sizes[1..] + [pages];
      FitsNext(MarkedTable(d, FindRun(d, sizes[0], 0), sizes[0]), sizes[1..], pages);
    }
  }

  lemma {:induction false} FitsMeansAll(d: seq<bv8>, sizes: seq<nat>, pages: nat)
    requires Fits(d, sizes + [pages])
    ensures Fits(d, sizes)
    decreases |sizes|
  {
    hide FindRun, MarkedTable;
    if sizes != [] {
      assert (sizes + [pages])[1..] == sizes[1..] + [pages];
      FitsMeansAll(MarkedTable(d, FindRun(d, sizes[0], 0), sizes[0]), sizes[1..], pages);
    }
  }

  /** The pages that a request for one page can be given: the last descriptor is never used. */
  function FreePages(d: seq<bv8>): set<nat>
  {
    set k: nat | k < |d| - 1 && IsFree(d[k])
  }

  /** How many of them there are. */
  function Spare(d: seq<bv8>): nat { |FreePages(d)| }

  lemma {:induction false} NoSpare(d: seq<bv8>)
    ensures Spare(d) == 0 <==> forall j :: 0 <= j < |d| - 1 ==> !FreeRun(d, j, 1)
  {
    forall j: nat | j < |d| - 1 ensures FreeRun(d, j, 1) <==> j in FreePages(d) {
      assert FreeRun(d, j, 1) ==> IsFree(d[j]);
    }
    if Spare(d) != 0 {
      var k :| k in FreePages(d);
      assert FreeRun(d, k, 1);
    } else {
      assert FreePages(d) == {};
    }
  }

  /** The page numbers i .. i+pages-1. */
  function Interval(i: nat, pages: nat): (r: set<nat>)
    ensures |r| == pages && forall k :: k in r <==> i <= k < i + pages
  {
    if pages == 0 then {} else Interval(i, pages - 1) + {i + pages - 1}
  }

  /** An allocation uses up exactly as many of the free pages as it is long. */
  lemma {:induction false} MarkTakesPages(d: seq<bv8>, d': seq<bv8>, i: nat, pages: nat)
    requires FreeRun(d, i, pages) && Marked(d, d', i, pages) && i < |d| - pages
    ensures Spare(d') == Spare(d) - pages
  {
    var run := Interval(i, pages);
    assert run <= FreePages(d);
    assert FreePages(d') == FreePages(d) - run;
  }

  lemma {:induction false} LowestIsFound(d: seq<bv8>, d': seq<bv8>, i: nat, pages: nat)
    requires i < |d| - pages && FreeRun(d, i, pages) && Marked(d, d', i, pages)
    requires forall j :: 0 <= j < i ==> !FreeRun(d, j, pages)
    ensures Took(d, d', i, pages) && Spare(d') == Spare(d) - pages
  {
    hide FreeRun;
    MarkTakesPages(d, d', i, pages);
    assert FindRun(d, pages, 0) == i;
  }

  lemma {:induction false} NoneIsFound(d: seq<bv8>, pages: nat)
    requires forall j :: 0 <= j < |d| - pages ==> !FreeRun(d, j, pages)
    ensures FindRun(d, pages, 0) == |d|
  {
  }

  /** One page can be had exactly when one is free. */
  lemma {:induction false} PageIsFound(d: seq<bv8>)
    requires 0 < |d|
    ensures FindRun(d, 1, 0) < |d| <==> 0 < Spare(d)
  {
    NoSpare(d);
  }

  lemma {:induction false} FreeMeansUncovered(d: seq<bv8>, r: Runs, s: nat, k: nat)
    requires Denotes(d, r) && k < |d| && IsFree(d[k])
    ensures !InRun(r, s, k) && d[k] == 0
  {
    assert InRun(r, s, k) ==> d[k] == RunFlag(r, s, k);
  }

  /** A free run of the table meets no existing run. */
  lemma {:induction false} FreeRunIsApart(d: seq<bv8>, r: Runs, i: nat, pages: nat, s: nat)
    requires Denotes(d, r) && FreeRun(d, i, pages) && 0 < pages && s in r
    ensures s + r[s] <= i || i + pages <= s
  {
    if i <= s < i + pages { FreeMeansUncovered(d, r, s, s); }
    FreeMeansUncovered(d, r, s, i);
  }

  lemma {:induction false} MarkAddsRun(d: seq<bv8>, d': seq<bv8>, r: Runs, i: nat, pages: nat)
    requires Denotes(d, r) && FreeRun(d, i, pages) && Marked(d, d', i, pages)
    ensures i !in r && Denotes(d', r[i := pages])
  {
    forall s | s in r ensures s + r[s] <= i || i + pages <= s {
      FreeRunIsApart(d, r, i, pages, s);
    }
    var r' := r[i := pages];
    forall s: nat, k: nat | InRun(r', s, k) ensures k < |d'| && d'[k] == RunFlag(r', s, k) {
      if s != i { assert InRun(r, s, k) && d[k] == RunFlag(r, s, k); }
    }
    forall k | 0 <= k < |d'| && d'[k] != 0 ensures exists s: nat :: InRun(r', s, k) {
      if i <= k < i + pages {
        assert InRun(r', i, k);
      } else {
        var s: nat :| InRun(r, s, k);
        assert InRun(r', s, k);
      }
    }
  }

  lemma {:induction false} ClearRemovesRun(d: seq<bv8>, d': seq<bv8>, r: Runs, i: nat)
    requires Denotes(d, r) && i in r && Cleared(d, d', i, r[i])
    ensures Denotes(d', r - {i})
  {
    var r' := r - {i};
    forall s: nat, k: nat | InRun(r', s, k) ensures k < |d'| && d'[k] == RunFlag(r', s, k) {
      assert InRun(r, s, k) && d[k] == RunFlag(r, s, k);
    }
    forall k | 0 <= k < |d'| && d'[k] != 0 ensures exists s: nat :: InRun(r', s, k) {
      var s: nat :| InRun(r, s, k);
      assert InRun(r', s, k);
    }
  }

  /** The table is determined by its runs ... */
  lemma {:induction false} RunsDetermineTable(d: seq<bv8>, e: seq<bv8>, r: Runs)
    requires Denotes(d, r) && Denotes(e, r) && |d| == |e|
    ensures d == e
  {
    forall k | 0 <= k < |d| ensures d[k] == e[k] {
      if d[k] != 0 || e[k] != 0 {
        var s: nat :| InRun(r, s, k);
        assert d[k] == RunFlag(r, s, k) == e[k];
      }
    }
  }

  /** ... and its runs by the table. */
  lemma {:induction false} TableDeterminesRuns(d: seq<bv8>, q: Runs, r: Runs)
    requires Denotes(d, q) && Denotes(d, r)
    ensures q == r
  {
    forall s | s in q ensures s in r && r[s] == q[s] { SameRun(d, q, r, s); }
    forall s | s in r ensures s in q && r[s] == q[s] { SameRun(d, r, q, s); }
  }

  /** The page before a run is free or ends another run. */
  lemma {:induction false} RunStartsAfterLast(d: seq<bv8>, q: Runs, s: nat)
    requires Denotes(d, q) && s in q && 0 < s
    ensures d[s - 1] == 0 || IsLast(d[s - 1])
  {
    if d[s - 1] != 0 {
      var u: nat :| InRun(q, u, s - 1);
      assert d[s - 1] == RunFlag(q, u, s - 1);
    }
  }

  lemma {:induction false} SameRun(d: seq<bv8>, q: Runs, r: Runs, s: nat)
    requires Denotes(d, q) && Denotes(d, r) && s in q
    ensures s in r && r[s] == q[s]
  {
    assert InRun(q, s, s) && d[s] == RunFlag(q, s, s);
    var t: nat :| InRun(r, t, s);
    if 0 < s { RunStartsAfterLast(d, q, s); }
    assert t < s ==> InRun(r, t, s - 1) && d[s - 1] == RunFlag(r, t, s - 1);
    assert t == s;
    var a, b := s + q[s] - 1, s + r[s] - 1;
    assert InRun(q, s, a) && d[a] == RunFlag(q, s, a);
    assert InRun(r, s, b) && d[b] == RunFlag(r, s, b);
    assert a < b ==> InRun(r, s, a) && d[a] == RunFlag(r, s, a);
    assert b < a ==> InRun(q, s, b) && d[b] == RunFlag(q, s, b);
  }
}

/** The allocator over its descriptors, with the frames of physical memory it hands out. */
module PageAllocator {
  import opened Common
  import opened PageTableRuns

  const PAGE_SIZE := 4096
  const FRAME_WORDS := 512
  /** Physical addresses have 56 bits. */
  const PHYS_LIMIT := 0x100_0000_0000_0000

  type Frame = f: seq<Word> | |f| == FRAME_WORDS witness seq(512, _ => 0)

  const ZeroFrame: Frame := seq(512, _ => 0)

  /** All allocations in runs are still there, each of the same length and with the same contents. */
  ghost predicate Kept(runs: Runs, mem: seq<Frame>, runs': Runs, mem': seq<Frame>)
  {
    && |mem'| == |mem| && Within(runs, runs')
    && forall s: nat, g: nat :: InRun(runs, s, g) && g < |mem| ==> mem'[g] == mem[g]
  }

  lemma {:induction false} KeptSame(runs: Runs, mem: seq<Frame>)
    ensures Kept(runs, mem, runs, mem)
  {
  }

  lemma {:induction false} KeptLess(less: Runs, runs: Runs, mem: seq<Frame>, runs': Runs, mem': seq<Frame>)
    requires Within(less, runs) && Kept(runs, mem, runs', mem')
    ensures Kept(less, mem, runs', mem')
  {
    forall s: nat, g: nat | InRun(less, s, g) && g < |mem| ensures mem'[g] == mem[g] {
      assert InRun(runs, s, g);
    }
  }

  /** What each of two steps keeps, both keep. */
  lemma {:induction false} KeptTrans(runs: Runs, mem: seq<Frame>, runs1: Runs, mem1: seq<Frame>, runs': Runs, mem': seq<Frame>)
    requires Kept(runs, mem, runs1, mem1) && Kept(runs, mem1, runs', mem')
    ensures Kept(runs, mem, runs', mem')
  {
  }

  /** Writing the frames of a free stretch keeps everything there is. */
  lemma {:induction false} FreshKept(d: seq<bv8>, r: Runs, i: nat, pages: nat, mem: seq<Frame>, mem': seq<Frame>)
    requires Denotes(d, r) && FreeRun(d, i, pages) && 0 < pages && i !in r && |mem'| == |mem|
    requires forall g :: 0 <= g < |mem| && !(i <= g < i + pages) ==> mem'[g] == mem[g]
    ensures Kept(r, mem, r[i := pages], mem')
  {
    forall s: nat, g: nat | InRun(r, s, g) && g < |mem| ensures mem'[g] == mem[g] {
      FreeRunIsApart(d, r, i, pages, s);
    }
  }

  class Pages {
    const heapStart: nat
    const allocStart: nat
    /** One descriptor per PAGE_SIZE bytes of the heap. */
    var desc: array<bv8>
    /** The contents of the frames, indexed like the descriptors. */
    var mem: array<Frame>
    ghost var runs: Runs

    ghost predicate Valid()
      reads this, desc
    {
      && mem.Length == desc.Length && mem as object != desc
      && 0 < heapStart && heapStart + desc.Length <= allocStart && allocStart % PAGE_SIZE == 0
      && allocStart + PAGE_SIZE * desc.Length <= PHYS_LIMIT
      && Denotes(desc[..], runs)
    }

    function Addr(frame: nat): nat
      reads this
    {
      allocStart + PAGE_SIZE * frame
    }

    /** init: all descriptors empty; usable memory starts at the next page boundary after them. */
    constructor (start: nat, size: nat)
      requires 0 < start && AllocStart(start, size) + size <= PHYS_LIMIT
      ensures Valid() && fresh(desc) && fresh(mem)
      ensures desc.Length == size / PAGE_SIZE && runs == map[]
      ensures heapStart == start && allocStart == AllocStart(start, size)
    {
      var numPages := size / PAGE_SIZE;
      heapStart := start;
      allocStart := AllocStart(start, size);
      var d := new bv8[numPages];
      for i := 0 to numPages
        invariant forall k :: 0 <= k < i ==> d[k] == 0
      {
        d[i] := 0;
      }
      desc := d;
      mem := new Frame[numPages](_ => ZeroFrame);
      runs := map[];
    }

    /** Whether pages i .. i+pages-1 are all free. */
    method AllFree(i: nat, pages: nat) returns (found: bool)
      requires i + pages <= desc.Length && 0 < pages
      ensures found <==> FreeRun(desc[..], i, pages)
    {
      found := false;
      if IsFree(desc[i]) {
        found := true;
        for j := i to i + pages
          invariant forall k :: i <= k < j ==> IsFree(desc[k])
        {
          if IsTaken(desc[j]) {
            return false;
          }
        }
      }
    }

    /** The address of the lowest free run that starts below num_pages - pages, or 0. */
    method Alloc(pages: nat) returns (addr: nat, ghost i: nat)
      requires Valid() && 0 < pages <= desc.Length
      modifies this`runs, desc
      ensures Valid()
      ensures addr != 0 ==>
                && i < desc.Length - pages && addr == Addr(i)
                && FreeRun(old(desc[..]), i, pages)
                && (forall j :: 0 <= j < i ==> !FreeRun(old(desc[..]), j, pages))
                && i !in old(runs) && runs == old(runs)[i := pages]
                && Marked(old(desc[..]), desc[..], i, pages)
      ensures addr == 0 ==>
                && runs == old(runs) && desc[..] == old(desc[..])
                && forall j :: 0 <= j < desc.Length - pages ==> !FreeRun(old(desc[..]), j, pages)
    {
      for n := 0 to desc.Length - pages
        invariant runs == old(runs) && desc[..] == old(desc[..])
        invariant forall j :: 0 <= j < n ==> !FreeRun(old(desc[..]), j, pages)
      {
        var found := AllFree(n, pages);
        if found {
          Mark(n, pages);
          return Addr(n), n;
        }
      }
      return 0, 0;
    }

    method Mark(i: nat, pages: nat)
      requires Valid() && 0 < pages && FreeRun(desc[..], i, pages)
      modifies this`runs, desc
      ensures Valid() && i !in old(runs) && runs == old(runs)[i := pages]
      ensures Marked(old(desc[..]), desc[..], i, pages)
    {
      ghost var d := desc[..];
      assert forall k :: i <= k < i + pages ==> d[k] == 0 by {
        forall k | i <= k < i + pages ensures d[k] == 0 { FreeMeansUncovered(d, runs, 0, k); }
      }
      for k := i to i + pages - 1
        modifies desc
        invariant forall j :: i <= j < k ==> desc[j] == TAKEN
        invariant forall j :: 0 <= j < desc.Length && !(i <= j < k) ==> desc[j] == d[j]
      {
        desc[k] := SetFlag(desc[k], TAKEN);
      }
      desc[i + pages - 1] := SetFlag(desc[i + pages - 1], TAKEN);
      desc[i + pages - 1] := SetFlag(desc[i + pages - 1], LAST);
      MarkAddsRun(d, desc[..], runs, i, pages);
      runs := runs[i := pages];
    }

    /** Alloc, with the frames of a successful allocation set to zero. */
    method Zalloc(pages: nat) returns (addr: nat, ghost i: nat)
      requires Valid() && 0 < pages <= desc.Length
      modifies this`runs, desc, mem
      ensures Valid()
      ensures addr != 0 ==>
                && i < desc.Length - pages && addr == Addr(i)
                && FreeRun(old(desc[..]), i, pages)
                && (forall j :: 0 <= j < i ==> !FreeRun(old(desc[..]), j, pages))
                && i !in old(runs) && runs == old(runs)[i := pages]
                && Marked(old(desc[..]), desc[..], i, pages)
                && (forall f :: 0 <= f < mem.Length ==>
                      mem[f] == if i <= f < i + pages then ZeroFrame else old(mem[f]))
      ensures addr == 0 ==>
                && runs == old(runs) && desc[..] == old(desc[..]) && mem[..] == old(mem[..])
                && forall j :: 0 <= j < desc.Length - pages ==> !FreeRun(old(desc[..]), j, pages)
    {
      addr, i := Alloc(pages);
      if addr != 0 {
        var first := (addr - allocStart) / PAGE_SIZE;
        for n := 0 to pages
          modifies mem
          invariant forall f :: 0 <= f < mem.Length ==>
                      mem[f] == if i <= f < i + n then ZeroFrame else old(mem[f])
        {
          mem[first + n] := ZeroFrame;
        }
      }
    }

    /** Frees the run whose first page is at addr; no assertion of the original can fire. */
    method Dealloc(addr: nat, ghost i: nat)
      requires Valid() && i in runs && addr == Addr(i)
      modifies this`runs, desc
      ensures Valid() && runs == old(runs) - {i}
    {
      assert addr != 0;
      var p := (addr - allocStart) / PAGE_SIZE;
      assert heapStart + p < allocStart;
      ghost var d, len := desc[..], runs[i];
      assert InRun(runs, i, i) && d[i] == RunFlag(runs, i, i);
      assert IsTaken(desc[p]);
      while IsTaken(desc[p]) && !IsLast(desc[p])
        modifies desc
        invariant i <= p < i + len
        invariant forall k :: i <= k < p ==> desc[k] == 0
        invariant forall k :: 0 <= k < desc.Length && !(i <= k < p) ==> desc[k] == d[k]
        invariant d[p] == RunFlag(runs, i, p)
        decreases desc.Length - p
      {
        desc[p] := 0;
        p := p + 1;
        assert InRun(runs, i, p);
      }
      assert IsLast(desc[p]);
      desc[p] := 0;
      ClearRemovesRun(d, desc[..], runs, i);
      runs := runs - {i};
    }
  }

  /** Where usable memory begins for a heap of `size` bytes at `start`. */
  function AllocStart(start: nat, size: nat): (r: nat)
    ensures r % PAGE_SIZE == 0 && start + size / PAGE_SIZE <= r < start + size / PAGE_SIZE + PAGE_SIZE
  {
    AlignUp(start + size / PAGE_SIZE, PAGE_SIZE)
  }

  /** A run of pages at i ends inside a heap of `size` bytes at `start`. */
  predicate Inside(start: nat, size: nat, i: nat, pages: nat)
  {
    AllocStart(start, size) + PAGE_SIZE * (i + pages) <= start + size
  }

  /**
   The descriptors count pages of the whole heap, although the descriptor area is taken out
   of it. Every run that Alloc can return lies inside the heap exactly when the descriptor
   area and its alignment cost no more than the one page that Alloc never hands out.
   */
  lemma {:induction false} RunsInsideHeap(start: nat, size: nat)
    requires 2 * PAGE_SIZE <= size
    ensures (forall i: nat, pages: nat | 0 < pages && i < size / PAGE_SIZE - pages :: Inside(start, size, i, pages))
            <==> AllocStart(start, size) + PAGE_SIZE * (size / PAGE_SIZE - 1) <= start + size
  {
    var n := size / PAGE_SIZE;
    if forall i: nat, pages: nat | 0 < pages && i < n - pages :: Inside(start, size, i, pages) {
      assert Inside(start, size, 0, n - 1);
    }
  }

  /** No heap of more than 8192 pages (32 MiB) is such a heap, wherever it starts. */
  lemma {:induction false} LargeHeapOverruns(start: nat, size: nat)
    requires size / PAGE_SIZE > 8192
    ensures !Inside(start, size, size / PAGE_SIZE - 2, 1)
  {
    var n := size / PAGE_SIZE;
    assert AllocStart(start, size) >= start + n;
    assert size < PAGE_SIZE * n + PAGE_SIZE;
  }
}
