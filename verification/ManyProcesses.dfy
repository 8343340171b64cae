/**
 Any number of processes side by side: creation, loading, brk and Drop in any order. Each
 process keeps what it holds, whatever the others do, and what belongs to no process is never
 touched.
 */
module ManyProcesses {
  import opened Common
  import opened PageTableRuns
  import opened PageAllocator
  import opened PageTree
  import opened Sv39
  import opened ProcessPages

  /** Process i of those alive grows or exits; a position nobody has is ignored. */
  datatype Op = Create(image: Option<seq<Segment>>) | Grow(i: nat, addr: nat) | Exit(i: nat)

  /** What the page allocator and map ask of a creation. */
  predicate Possible(op: Op, numPages: nat)
  {
    op.Create? ==> ProgramPages(op.image) <= numPages && (op.image.Some? ==> Loadable(op.image.value))
  }

  // ---------------------------------------------------------------- holdings side by side

  /** Holds, of runs and memory as values. */
  ghost predicate HoldsIn(runs: Runs, mem: seq<Frame>, base: nat, h: Holding)
  {
    && Represents(mem, base, h.tree) && Owns(runs, h.tree)
    && Distinct(h) && Owned(h) <= runs.Keys && runs[h.stack] == STACK_PAGES
  }

  lemma {:induction false} HoldsIs(pg: Pages, h: Holding)
    ensures Holds(pg, h) <==> pg.Valid() && HoldsIn(pg.runs, pg.mem[..], pg.allocStart, h)
  {
  }

  predicate Apart(hs: seq<Holding>)
  {
    forall i, j :: 0 <= i < |hs| && 0 <= j < |hs| && i != j ==> Owned(hs[i]) !! Owned(hs[j])
  }

  ghost predicate Settled(runs: Runs, mem: seq<Frame>, base: nat, hs: seq<Holding>)
  {
    Apart(hs) && forall i :: 0 <= i < |hs| ==> HoldsIn(runs, mem, base, hs[i])
  }

  predicate Nobodys(hs: seq<Holding>, x: nat) { forall i :: 0 <= i < |hs| ==> x !in Owned(hs[i]) }

  /** The allocations that belong to none of them. */
  ghost function Floor(runs: Runs, hs: seq<Holding>): Runs
  {
    map x | x in runs && Nobodys(hs, x) :: runs[x]
  }

  /** Who holds nothing but kept allocations still holds them. */
  lemma {:induction false} HoldsKept(kept: Runs, runs: Runs, mem: seq<Frame>, runs': Runs, mem': seq<Frame>, base: nat, h: Holding)
    requires HoldsIn(runs, mem, base, h) && Within(kept, runs) && Owned(h) <= kept.Keys && Kept(kept, mem, runs', mem')
    ensures HoldsIn(runs', mem', base, h)
  {
    hide Represents, Distinct;
    forall f | f in Tables(h.tree) + {h.tree.root} ensures f in runs' && runs'[f] == 1 && (f >= |mem| || mem'[f] == mem[f]) {
      assert f in Owned(h) && f in kept && kept[f] == 1;
      assert InRun(kept, f, f);
    }
    RepresentsKept(mem, mem', base, h.tree);
    assert h.stack in Owned(h);
  }

  /** One process has changed what it holds; the others' allocations were kept. */
  lemma {:induction false} OneChanges(runs: Runs, mem: seq<Frame>, runs': Runs, mem': seq<Frame>, base: nat, hs: seq<Holding>, i: nat, h: Holding)
    requires Settled(runs, mem, base, hs) && i < |hs|
    requires Rest(runs', h) == Rest(runs, hs[i]) && Kept(Rest(runs, hs[i]), mem, runs', mem') && HoldsIn(runs', mem', base, h)
    ensures Settled(runs', mem', base, hs[i := h]) && Floor(runs', hs[i := h]) == Floor(runs, hs)
  {
    hide HoldsIn, Kept, Owned;
    var hs' := hs[i := h];
    forall j | 0 <= j < |hs| && j != i ensures HoldsIn(runs', mem', base, hs[j]) && Owned(hs[j]) <= Rest(runs', h).Keys {
      OwnedIsThere(runs, mem, base, hs[j]);
      assert Owned(hs[j]) <= Rest(runs, hs[i]).Keys;
      HoldsKept(Rest(runs, hs[i]), runs, mem, runs', mem', base, hs[j]);
    }
    forall j | 0 <= j < |hs| && j != i ensures Owned(hs[j]) !! Owned(h) { }
    forall x ensures x in Floor(runs', hs') <==> x in Floor(runs, hs) {
      FloorSplits(runs, hs, i, x);
      FloorSplits(runs', hs', i, x);
      assert forall j :: 0 <= j < |hs| && j != i ==> hs'[j] == hs[j];
    }
    assert forall x :: x in Floor(runs', hs') ==> x in Rest(runs', h);
  }

  lemma {:induction false} OwnedIsThere(runs: Runs, mem: seq<Frame>, base: nat, h: Holding)
    requires HoldsIn(runs, mem, base, h)
    ensures Owned(h) <= runs.Keys
  {
  }

  /** An allocation is nobody's when it is not hs[i]'s and none of the others'. */
  lemma {:induction false} FloorSplits(runs: Runs, hs: seq<Holding>, i: nat, x: nat)
    requires i < |hs|
    ensures x in Floor(runs, hs) <==>
              x in Rest(runs, hs[i]) && forall j :: 0 <= j < |hs| && j != i ==> x !in Owned(hs[j])
  {
    hide Owned;
  }

  /** One process has given everything back. */
  lemma {:induction false} OneLeaves(runs: Runs, mem: seq<Frame>, runs': Runs, base: nat, hs: seq<Holding>, i: nat)
    requires Settled(runs, mem, base, hs) && i < |hs| && runs' == Rest(runs, hs[i])
    ensures Settled(runs', mem, base, hs[..i] + hs[i + 1..]) && Floor(runs', hs[..i] + hs[i + 1..]) == Floor(runs, hs)
  {
    hide HoldsIn, Kept, Owned;
    var hs' := hs[..i] + hs[i + 1..];
    KeptSame(runs', mem);
    forall j | 0 <= j < |hs'| ensures HoldsIn(runs', mem, base, hs'[j]) {
      var k := if j < i then j else j + 1;
      assert hs'[j] == hs[k];
      OwnedIsThere(runs, mem, base, hs[k]);
      assert Owned(hs[k]) !! Owned(hs[i]);
      HoldsKept(runs', runs, mem, runs', mem, base, hs[k]);
    }
    forall x ensures x in Floor(runs', hs') <==> x in Floor(runs, hs) {
      FloorSplits(runs, hs, i, x);
      WithoutOne(hs, i, x);
    }
  }

  lemma {:induction false} WithoutOne(hs: seq<Holding>, i: nat, x: nat)
    requires i < |hs|
    ensures Nobodys(hs[..i] + hs[i + 1..], x) <==> forall j :: 0 <= j < |hs| && j != i ==> x !in Owned(hs[j])
  {
    hide Owned;
    var hs' := hs[..i] + hs[i + 1..];
    if Nobodys(hs', x) {
      forall j | 0 <= j < |hs| && j != i ensures x !in Owned(hs[j]) {
        assert hs[j] == hs'[if j < i then j else j - 1];
      }
    }
  }

  /** A newcomer has taken only what was free. */
  lemma {:induction false} OneJoins(runs: Runs, mem: seq<Frame>, runs': Runs, mem': seq<Frame>, base: nat, hs: seq<Holding>, h: Holding)
    requires Settled(runs, mem, base, hs) && Rest(runs', h) == runs && Kept(runs, mem, runs', mem') && HoldsIn(runs', mem', base, h)
    ensures Settled(runs', mem', base, hs + [h]) && Floor(runs', hs + [h]) == Floor(runs, hs)
  {
    hide HoldsIn, Kept, Owned;
    var hs' := hs + [h];
    forall j | 0 <= j < |hs| ensures HoldsIn(runs', mem', base, hs[j]) && Owned(hs[j]) !! Owned(h) {
      OwnedIsThere(runs, mem, base, hs[j]);
      assert Owned(hs[j]) <= Rest(runs', h).Keys;
      HoldsKept(runs, runs, mem, runs', mem', base, hs[j]);
    }
    forall x ensures x in Floor(runs', hs') <==> x in Floor(runs, hs) {
      FloorSplits(runs', hs', |hs|, x);
      assert forall j :: 0 <= j < |hs| ==> hs'[j] == hs[j];
    }
    assert forall x :: x in Floor(runs', hs') ==> x in Rest(runs', h);
  }

  /** A creation that failed half-way has kept what there was. */
  lemma {:induction false} NobodyJoins(runs: Runs, mem: seq<Frame>, runs': Runs, mem': seq<Frame>, base: nat, hs: seq<Holding>)
    requires Settled(runs, mem, base, hs) && Kept(runs, mem, runs', mem')
    ensures Settled(runs', mem', base, hs) && Within(Floor(runs, hs), Floor(runs', hs))
  {
    hide HoldsIn, Owned;
    forall j | 0 <= j < |hs| ensures HoldsIn(runs', mem', base, hs[j]) {
      OwnedIsThere(runs, mem, base, hs[j]);
      HoldsKept(runs, runs, mem, runs', mem', base, hs[j]);
    }
  }

  lemma {:induction false} FloorIsRest(runs: Runs, hs: seq<Holding>, i: nat)
    requires i < |hs|
    ensures Within(Floor(runs, hs), Rest(runs, hs[i])) && Within(Floor(runs, hs), runs)
  {
    hide Owned;
  }

  lemma {:induction false} FloorOfNone(runs: Runs)
    ensures Floor(runs, []) == runs
  {
  }

  // ---------------------------------------------------------------- any interleaving

  class System {
    const pg: Pages
    var procs: seq<Process>

    ghost function Views(): (hs: seq<Holding>)
      reads this, procs
      ensures |hs| == |procs| && forall i :: 0 <= i < |procs| ==> hs[i] == procs[i].View()
    {
      seq(|procs|, i requires 0 <= i < |procs| reads this, procs => procs[i].View())
    }

    ghost predicate Valid()
      reads this, procs, pg, pg.desc, pg.mem
    {
      && pg.Valid() && STACK_PAGES < pg.desc.Length
      && (forall i, j :: 0 <= i < j < |procs| ==> procs[i] != procs[j])
      && (forall i :: 0 <= i < |procs| ==> procs[i].table == procs[i].tree.root)
      && Settled(pg.runs, pg.mem[..], pg.allocStart, Views())
    }

    /** What belongs to no process. */
    ghost function Unowned(): Runs
      reads this, procs, pg
    {
      Floor(pg.runs, Views())
    }

    constructor (pg: Pages)
      requires pg.Valid() && STACK_PAGES < pg.desc.Length
      ensures Valid() && this.pg == pg && procs == [] && Unowned() == pg.runs
    {
      this.pg, procs := pg, [];
      new;
      FloorOfNone(pg.runs);
    }

    /** Every process alive holds what it should. */
    lemma {:induction false} EachValid(i: nat)
      requires Valid() && i < |procs|
      ensures procs[i].Valid(pg)
    {
      HoldsIs(pg, procs[i].View());
      assert HoldsIn(pg.runs, pg.mem[..], pg.allocStart, Views()[i]);
    }

    /** A creation, with or without an image; it fails exactly when first fit finds no room. */
    method Add(image: Option<seq<Segment>>) returns (ok: bool)
      requires Valid() && Possible(Create(image), pg.desc.Length)
      modifies this`procs, pg`runs, pg.desc, pg.mem
      ensures Valid() && (ok <==> Fits(old(pg.desc[..]), Sizes(ProgramPages(image))))
      ensures ok ==> |procs| == |old(procs)| + 1 && fresh(procs[|old(procs)|]) && procs[..|old(procs)|] == old(procs)
      ensures !ok ==> procs == old(procs)
      ensures Kept(old(pg.runs), old(pg.mem[..]), pg.runs, pg.mem[..])
      ensures if ok then Unowned() == old(Unowned()) else Within(old(Unowned()), Unowned())
    {
      hide Settled, Floor, Kept, Rest, Fits, HoldsIn, Holds, Spare, Tabled;
      ghost var runs, mem, hs := pg.runs, pg.mem[..], Views();
      var p, served;
      p, ok, served := Start(pg, image);
      assert Views() == hs;
      if ok {
        ghost var h := p.View();
        HoldsIs(pg, h);
        OneJoins(runs, mem, pg.runs, pg.mem[..], pg.allocStart, hs, h);
        procs := procs + [p];
        assert Views() == hs + [h];
      } else {
        NobodyJoins(runs, mem, pg.runs, pg.mem[..], pg.allocStart, hs);
      }
    }

    /** A brk system call of process i. */
    method GrowOne(i: nat, addr: nat) returns (ok: bool)
      requires Valid() && i < |procs|
      modifies procs[i], pg`runs, pg.desc, pg.mem
      ensures Valid() && Unowned() == old(Unowned())
      ensures Kept(old(Unowned()), old(pg.mem[..]), pg.runs, pg.mem[..])
      ensures forall j :: 0 <= j < |procs| && j != i ==> procs[j].View() == old(procs[j].View())
      ensures Kept(Rest(old(pg.runs), old(procs[i].View())), old(pg.mem[..]), pg.runs, pg.mem[..])
    {
      hide Settled, Floor, Kept, Rest, HoldsIn, Holds, Spare, Tabled, NewTables, WithLeaves, BrkPages, BrkAddresses, BrkCalls;
      ghost var runs, mem, hs := pg.runs, pg.mem[..], Views();
      EachValid(i);
      ok := procs[i].Brk(pg, addr, procs[i].program.Some?);
      ghost var h := procs[i].View();
      HoldsIs(pg, h);
      RestIsData(runs, hs[i]);
      KeptLess(Rest(runs, hs[i]), Data(runs, hs[i].tree), mem, pg.runs, pg.mem[..]);
      OneChanges(runs, mem, pg.runs, pg.mem[..], pg.allocStart, hs, i, h);
      assert Views() == hs[i := h];
      FloorIsRest(runs, hs, i);
      KeptLess(Floor(runs, hs), Rest(runs, hs[i]), mem, pg.runs, pg.mem[..]);
    }

    /** Process i leaves the list and is dropped. */
    method Remove(i: nat)
      requires Valid() && i < |procs|
      modifies this`procs, pg`runs, pg.desc
      ensures Valid() && Unowned() == old(Unowned()) && procs == old(procs[..i] + procs[i + 1..])
      ensures pg.runs == Rest(old(pg.runs), old(procs[i].View())) && pg.mem[..] == old(pg.mem[..])
    {
      hide Settled, Floor, Rest, HoldsIn, Holds;
      ghost var runs, hs := pg.runs, Views();
      EachValid(i);
      procs[i].Drop(pg);
      OneLeaves(runs, pg.mem[..], pg.runs, pg.allocStart, hs, i);
      procs := procs[..i] + procs[i + 1..];
      assert Views() == hs[..i] + hs[i + 1..];
    }

    method Step(op: Op) returns (ok: bool)
      requires Valid() && Possible(op, pg.desc.Length)
      modifies this`procs, (set p | p in procs), pg`runs, pg.desc, pg.mem
      ensures Valid() && forall p :: p in procs ==> p in old(procs) || fresh(p)
      ensures ok <==> (op.Create? ==> Fits(old(pg.desc[..]), Sizes(ProgramPages(op.image))))
      ensures if ok then Unowned() == old(Unowned()) else Within(old(Unowned()), Unowned())
      ensures Kept(old(Unowned()), old(pg.mem[..]), pg.runs, pg.mem[..])
    {
      hide Valid, Unowned, Kept, Fits, Sizes, Rest;
      ghost var mem, runs := pg.mem[..], pg.runs;
      UnownedThere(mem);
      ok := true;
      match op
      case Create(image) =>
        ok := Add(image);
        KeptLess(old(Unowned()), runs, mem, pg.runs, pg.mem[..]);
      case Grow(i, addr) =>
        if i < |procs| { var enough := GrowOne(i, addr); }
      case Exit(i) =>
        if i < |procs| {
          Remove(i);
          UnownedThere(mem);
        }
    }

    lemma {:induction false} UnownedThere(mem: seq<Frame>)
      ensures Within(Unowned(), pg.runs) && Kept(Unowned(), mem, pg.runs, mem)
    {
    }

    /**
     Any interleaving. What belonged to no process at the beginning still belongs to none and
     has the same contents; and if no creation failed, nothing else belongs to none, so that
     the table is as at the beginning once all processes that were created have gone.
     */
    method Run(ops: seq<Op>) returns (clean: bool)
      requires Valid() && forall k :: 0 <= k < |ops| ==> Possible(ops[k], pg.desc.Length)
      modifies this`procs, (set p | p in procs), pg`runs, pg.desc, pg.mem
      ensures Valid() && forall p :: p in procs ==> p in old(procs) || fresh(p)
      ensures forall i :: 0 <= i < |procs| ==> procs[i].Valid(pg)
      ensures Within(old(Unowned()), Unowned()) && Kept(old(Unowned()), old(pg.mem[..]), pg.runs, pg.mem[..])
      ensures clean ==> Unowned() == old(Unowned())
      ensures clean && procs == [] && old(procs) == [] ==> pg.runs == old(pg.runs) && pg.desc[..] == old(pg.desc[..])
    {
      hide Valid, Process.Valid, Unowned, Kept, Fits, Possible, Within;
      ghost var mem, runs, desc, none := pg.mem[..], pg.runs, pg.desc[..], Unowned();
      DescFits();
      UnownedThere(mem);
      WithinSelf(none);
      clean := true;
      for k := 0 to |ops|
        invariant Valid() && forall p :: p in procs ==> p in old(procs) || fresh(p)
        invariant Within(none, Unowned()) && Kept(none, mem, pg.runs, pg.mem[..])
        invariant clean ==> Unowned() == none
        invariant pg.desc == old(pg.desc) && pg.mem == old(pg.mem)
      {
        ghost var runs1, mem1, none1 := pg.runs, pg.mem[..], Unowned();
        var ok := Step(ops[k]);
        clean := clean && ok;
        if ok { WithinSelf(none1); }
        KeptOn(none, mem, runs1, mem1, none1, pg.runs, pg.mem[..], Unowned());
      }
      DescFits();
      forall i | 0 <= i < |procs| ensures procs[i].Valid(pg) { EachValid(i); }
      if procs == [] && old(procs) == [] && clean {
        RunsDetermineTable(desc, pg.desc[..], runs);
      }
    }

    lemma {:induction false} DescFits()
      requires Valid()
      ensures Denotes(pg.desc[..], pg.runs) && (procs == [] ==> Unowned() == pg.runs)
    {
      if procs == [] { FloorOfNone(pg.runs); assert Views() == []; }
    }
  }

  lemma {:induction false} RestIsData(runs: Runs, h: Holding)
    ensures Within(Rest(runs, h), Data(runs, h.tree))
  {
  }
}
