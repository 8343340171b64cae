/**
 The kernel heap of kmem.rs seen as the list of chunks its in-band headers describe.
 Sizes are in 8-byte words and include the one-word header. Everything here is about the
 chunk list alone; KernelHeap ties it to the words of memory.
 */
module HeapChunks {

  datatype Chunk = Chunk(words: nat, taken: bool)

  function Total(cs: seq<Chunk>): nat
  {
    if cs == [] then 0 else cs[0].words + Total(cs[1..])
  }

  /** The word index at which chunk i begins. */
  function Start(cs: seq<Chunk>, i: nat): nat
    requires i <= |cs|
  {
    Total(cs[..i])
  }

  predicate Positive(cs: seq<Chunk>)
  {
    forall i :: 0 <= i < |cs| ==> cs[i].words > 0
  }

  lemma {:induction false} TotalAppend(a: seq<Chunk>, b: seq<Chunk>)
    ensures Total(a + b) == Total(a) + Total(b)
  {
    if a == [] {
      assert a + b == b;
    } else {
      assert (a + b)[1..] == a[1..] + b;
      TotalAppend(a[1..], b);
    }
  }

  lemma {:induction false} TotalOne(c: Chunk)
    ensures Total([c]) == c.words
  {
    assert [c][1..] == [];
  }

  lemma {:induction false} StartNext(cs: seq<Chunk>, i: nat)
    requires i < |cs|
    ensures Start(cs, i + 1) == Start(cs, i) + cs[i].words
  {
    assert cs[..i + 1] == cs[..i] + [cs[i]];
    TotalAppend(cs[..i], [cs[i]]);
    TotalOne(cs[i]);
  }

  lemma {:induction false} StartMonotone(cs: seq<Chunk>, i: nat, j: nat)
    requires i <= j <= |cs|
    ensures Start(cs, i) <= Start(cs, j)
    decreases j - i
  {
    if i < j {
      StartNext(cs, i);
      StartMonotone(cs, i + 1, j);
    }
  }

  // ---------------------------------------------------------------- first fit and split

  predicate Fits(c: Chunk, need: nat)
  {
    !c.taken && need <= c.words
  }

  /** The first chunk that is free and large enough, or |cs| when there is none. */
  function FirstFit(cs: seq<Chunk>, need: nat): (i: nat)
    ensures i <= |cs|
    ensures i < |cs| ==> Fits(cs[i], need)
    ensures forall j :: 0 <= j < i ==> !Fits(cs[j], need)
  {
    if cs == [] then 0
    else if Fits(cs[0], need) then 0
    else 1 + FirstFit(cs[1..], need)
  }

  /** A request takes the whole chunk unless more than one header would be left over. */
  function Carve(c: Chunk, need: nat): (r: seq<Chunk>)
    requires Fits(c, need)
  {
    if c.words - need > 1 then [Chunk(need, true), Chunk(c.words - need, false)]
    else [Chunk(c.words, true)]
  }

  function AllocAt(cs: seq<Chunk>, i: nat, need: nat): seq<Chunk>
    requires i < |cs| && Fits(cs[i], need)
  {
    cs[..i] + Carve(cs[i], need) + cs[i + 1..]
  }

  function Alloc(cs: seq<Chunk>, need: nat): seq<Chunk>
  {
    var i := FirstFit(cs, need);
    if i < |cs| then AllocAt(cs, i, need) else cs
  }

  // ---------------------------------------------------------------- free and coalesce

  predicate BothFree(a: Chunk, b: Chunk) { !a.taken && !b.taken }

  function Merge(a: Chunk, b: Chunk): Chunk { Chunk(a.words + b.words, false) }

  /** One pass of coalesce: a merged chunk is stepped over, never merged again. */
  function Coalesce(cs: seq<Chunk>): (r: seq<Chunk>)
    ensures |r| <= |cs|
    ensures cs != [] ==> r != [] && r[0].taken == cs[0].taken
  {
    if |cs| < 2 then cs
    else if BothFree(cs[0], cs[1]) then [Merge(cs[0], cs[1])] + Coalesce(cs[2..])
    else [cs[0]] + Coalesce(cs[1..])
  }

  function SetFree(cs: seq<Chunk>, i: nat): seq<Chunk>
    requires i < |cs|
  {
    cs[i := cs[i].(taken := false)]
  }

  function Release(cs: seq<Chunk>, i: nat): seq<Chunk>
    requires i < |cs|
  {
    Coalesce(SetFree(cs, i))
  }

  // ---------------------------------------------------------------- tiling

  lemma {:induction false} CoalesceKeepsTotal(cs: seq<Chunk>)
    ensures Total(Coalesce(cs)) == Total(cs)
  {
    if |cs| >= 2 {
      if BothFree(cs[0], cs[1]) {
        CoalesceKeepsTotal(cs[2..]);
        assert cs[1..][1..] == cs[2..];
        assert Coalesce(cs)[1..] == Coalesce(cs[2..]);
      } else {
        CoalesceKeepsTotal(cs[1..]);
        assert Coalesce(cs)[1..] == Coalesce(cs[1..]);
      }
    }
  }

  lemma {:induction false} CoalescePositive(cs: seq<Chunk>)
    requires Positive(cs)
    ensures Positive(Coalesce(cs))
  {
    if |cs| >= 2 {
      if BothFree(cs[0], cs[1]) {
        CoalescePositive(cs[2..]);
      } else {
        CoalescePositive(cs[1..]);
      }
    }
  }

  // ---------------------------------------------------------------- what coalesce keeps

  /** The taken chunks, each under the word index of its header. */
  function TakenAt(cs: seq<Chunk>, base: nat): map<nat, nat>
  {
    if cs == [] then map[]
    else
      var rest := TakenAt(cs[1..], base + cs[0].words);
      if cs[0].taken then rest[base := cs[0].words] else rest
  }

  function FreeWords(cs: seq<Chunk>): nat
  {
    if cs == [] then 0
    else (if cs[0].taken then 0 else cs[0].words) + FreeWords(cs[1..])
  }

  lemma {:induction false} CoalesceKeepsTaken(cs: seq<Chunk>, base: nat)
    ensures TakenAt(Coalesce(cs), base) == TakenAt(cs, base)
    ensures FreeWords(Coalesce(cs)) == FreeWords(cs)
  {
    if |cs| >= 2 {
      if BothFree(cs[0], cs[1]) {
        CoalesceKeepsTaken(cs[2..], base + cs[0].words + cs[1].words);
        assert cs[1..][1..] == cs[2..];
        assert Coalesce(cs)[1..] == Coalesce(cs[2..]);
      } else {
        CoalesceKeepsTaken(cs[1..], base + cs[0].words);
        assert Coalesce(cs)[1..] == Coalesce(cs[1..]);
      }
    }
  }

  lemma {:induction false} TakenAtAppend(a: seq<Chunk>, b: seq<Chunk>, base: nat)
    requires Positive(a + b)
    ensures TakenAt(a + b, base) == TakenAt(a, base) + TakenAt(b, base + Total(a))
    ensures TakenAt(a, base).Keys !! TakenAt(b, base + Total(a)).Keys
  {
    TakenAtBounds(a, base);
    TakenAtBounds(b, base + Total(a));
    if a == [] {
      assert a + b == b;
    } else {
      assert (a + b)[1..] == a[1..] + b;
      assert Positive(a[1..] + b) by { assert forall i :: 0 <= i < |a[1..] + b| ==> (a[1..] + b)[i] == (a + b)[i + 1]; }
      TakenAtAppend(a[1..], b, base + a[0].words);
    }
  }

  lemma {:induction false} TakenAtBounds(cs: seq<Chunk>, base: nat)
    ensures forall p :: p in TakenAt(cs, base) ==> base <= p && p + TakenAt(cs, base)[p] <= base + Total(cs)
    ensures Positive(cs) ==> forall p :: p in TakenAt(cs, base) ==> TakenAt(cs, base)[p] > 0
  {
    if cs != [] {
      TakenAtBounds(cs[1..], base + cs[0].words);
      assert Positive(cs) ==> Positive(cs[1..]);
    }
  }
}
