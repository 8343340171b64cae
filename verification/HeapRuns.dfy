/**
 What one-pass coalescing guarantees: how far a run of free chunks shrinks, and the
 invariant that every heap reachable from init keeps.
 */
module HeapRuns {
  import opened Common
  import opened HeapChunks

  // ---------------------------------------------------------------- adjacent free chunks

  /** The number of adjacent pairs of free chunks. */
  function Pairs(cs: seq<Chunk>): nat
  {
    if |cs| < 2 then 0
    else (if BothFree(cs[0], cs[1]) then 1 else 0) + Pairs(cs[1..])
  }

  predicate Touch(a: seq<Chunk>, b: seq<Chunk>)
  {
    a != [] && b != [] && BothFree(a[|a| - 1], b[0])
  }

  lemma {:induction false} PairsAppend(a: seq<Chunk>, b: seq<Chunk>)
    ensures Pairs(a + b) == Pairs(a) + Pairs(b) + (if Touch(a, b) then 1 else 0)
  {
    if a == [] {
      assert a + b == b;
    } else if |a| == 1 {
      assert (a + b)[1..] == b;
    } else {
      assert (a + b)[1..] == a[1..] + b;
      PairsAppend(a[1..], b);
    }
  }

  lemma {:induction false} PairsAtMostOneIsUnique(cs: seq<Chunk>, i: nat, j: nat)
    requires Pairs(cs) <= 1
    requires i + 1 < |cs| && BothFree(cs[i], cs[i + 1])
    requires j + 1 < |cs| && BothFree(cs[j], cs[j + 1])
    ensures i == j
  {
    if i < j { PairsCountTwo(cs, i, j); }
    if j < i { PairsCountTwo(cs, j, i); }
  }

  lemma {:induction false} PairsCountTwo(cs: seq<Chunk>, i: nat, j: nat)
    requires i < j && j + 1 < |cs|
    requires BothFree(cs[i], cs[i + 1]) && BothFree(cs[j], cs[j + 1])
    ensures Pairs(cs) >= 2
  {
    assert cs == cs[..i + 1] + cs[i + 1..];
    PairsAppend(cs[..i + 1], cs[i + 1..]);
    var d := cs[i + 1..];
    assert d == d[..j - i] + d[j - i..];
    PairsAppend(d[..j - i], d[j - i..]);
  }

  /** One pass at least halves the number of adjacent free pairs. */
  lemma {:induction false} CoalesceHalvesPairs(cs: seq<Chunk>)
    ensures 2 * Pairs(Coalesce(cs)) <= Pairs(cs)
  {
    if |cs| >= 2 {
      if BothFree(cs[0], cs[1]) {
        CoalesceHalvesPairs(cs[2..]);
        assert Coalesce(cs)[1..] == Coalesce(cs[2..]);
        assert cs[1..][1..] == cs[2..];
      } else {
        CoalesceHalvesPairs(cs[1..]);
        assert Coalesce(cs)[1..] == Coalesce(cs[1..]);
      }
    }
  }

  lemma {:induction false} CoalesceFixesPairFree(cs: seq<Chunk>)
    requires Pairs(cs) == 0
    ensures Coalesce(cs) == cs
  {
    if |cs| >= 2 {
      CoalesceFixesPairFree(cs[1..]);
    }
  }

  // ---------------------------------------------------------------- runs of free chunks

  predicate AllFree(cs: seq<Chunk>)
  {
    forall i :: 0 <= i < |cs| ==> !cs[i].taken
  }

  /** Where two neighbouring parts do not touch, a pass works on each on its own. */
  lemma {:induction false} CoalesceAppend(a: seq<Chunk>, b: seq<Chunk>)
    requires !Touch(a, b)
    ensures Coalesce(a + b) == Coalesce(a) + Coalesce(b)
    ensures !Touch(Coalesce(a), Coalesce(b))
  {
    hide Coalesce;
    CoalesceLast(a);
    CoalesceUnfolds(a);
    CoalesceUnfolds(a + b);
    if a == [] {
      assert a + b == b && [] + Coalesce(b) == Coalesce(b);
    } else if |a| == 1 {
      assert (a + b)[1..] == b;
      CoalesceUnfolds(b);
    } else if BothFree(a[0], a[1]) {
      assert (a + b)[2..] == a[2..] + b;
      CoalesceAppend(a[2..], b);
    } else {
      assert (a + b)[1..] == a[1..] + b;
      CoalesceAppend(a[1..], b);
    }
  }

  lemma {:induction false} CoalesceUnfolds(cs: seq<Chunk>)
    ensures |cs| < 2 ==> Coalesce(cs) == cs
    ensures |cs| >= 2 && BothFree(cs[0], cs[1]) ==> Coalesce(cs) == [Merge(cs[0], cs[1])] + Coalesce(cs[2..])
    ensures |cs| >= 2 && !BothFree(cs[0], cs[1]) ==> Coalesce(cs) == [cs[0]] + Coalesce(cs[1..])
  {
  }

  /** The last chunk stays free or taken. */
  lemma {:induction false} CoalesceLast(cs: seq<Chunk>)
    ensures |Coalesce(cs)| == 0 <==> |cs| == 0
    ensures cs != [] ==> Coalesce(cs)[|Coalesce(cs)| - 1].taken == cs[|cs| - 1].taken
  {
    hide Coalesce;
    CoalesceUnfolds(cs);
    if |cs| >= 2 {
      if BothFree(cs[0], cs[1]) {
        CoalesceLast(cs[2..]);
      } else {
        CoalesceLast(cs[1..]);
      }
    }
  }

  function CeilHalf(k: nat): nat { (k + 1) / 2 }

  lemma {:induction false} CoalesceRun(f: seq<Chunk>)
    requires AllFree(f)
    ensures AllFree(Coalesce(f))
    ensures |Coalesce(f)| == CeilHalf(|f|)
  {
    if |f| >= 2 {
      CoalesceRun(f[2..]);
    }
  }

  /** Three parts in a row, of which no two neighbours touch. */
  predicate Apart(a: seq<Chunk>, f: seq<Chunk>, b: seq<Chunk>)
  {
    !Touch(a, f) && !Touch(f, b) && !Touch(a, b)
  }

  lemma {:induction false} CoalesceApart(a: seq<Chunk>, f: seq<Chunk>, b: seq<Chunk>)
    requires Apart(a, f, b)
    ensures Coalesce(a + f + b) == Coalesce(a) + Coalesce(f) + Coalesce(b)
  {
    assert !Touch(a + f, b);
    CoalesceAppend(a + f, b);
    CoalesceAppend(a, f);
  }

  lemma {:induction false} CoalesceStaysApart(a: seq<Chunk>, f: seq<Chunk>, b: seq<Chunk>)
    requires Apart(a, f, b)
    ensures Apart(Coalesce(a), Coalesce(f), Coalesce(b))
  {
    CoalesceAppend(a, b);
    CoalesceAppend(a, f);
    CoalesceAppend(f, b);
  }

  /**
   The effect of one pass on a maximal run of k free chunks, wherever it stands: it becomes
   ceil(k/2) free chunks over the same words, and the rest of the heap is coalesced apart.
   */
  lemma {:induction false} CoalesceMaximalRun(a: seq<Chunk>, f: seq<Chunk>, b: seq<Chunk>)
    requires AllFree(f) && Apart(a, f, b)
    ensures Coalesce(a + f + b) == Coalesce(a) + Coalesce(f) + Coalesce(b)
    ensures AllFree(Coalesce(f)) && |Coalesce(f)| == CeilHalf(|f|)
    ensures Total(Coalesce(f)) == Total(f) && Total(Coalesce(a)) == Total(a)
  {
    CoalesceApart(a, f, b);
    CoalesceRun(f);
    CoalesceKeepsTotal(f);
    CoalesceKeepsTotal(a);
  }

  function Passes(cs: seq<Chunk>, n: nat): seq<Chunk>
    decreases n
  {
    if n == 0 then cs else Passes(Coalesce(cs), n - 1)
  }

  function Pow2(n: nat): (p: nat)
    ensures p > 0
  {
    if n == 0 then 1 else 2 * Pow2(n - 1)
  }

  function CeilDiv(k: nat, d: nat): nat
    requires d > 0
  {
    (k + d - 1) / d
  }

  lemma {:induction false} CeilDivBounds(k: nat, d: nat)
    requires d > 0
    ensures var q := CeilDiv(k, d); k <= d * q < k + d
  {
    var x := k + d - 1;
    assert x == d * (x / d) + x % d;
  }

  /** A multiple of d in [h, h + d) settles the rounded-up quotient. */
  lemma {:induction false} CeilDivUnique(h: nat, d: nat, q: nat)
    requires d > 0
    requires h <= d * q < h + d
    ensures CeilDiv(h, d) == q
  {
    CeilDivBounds(h, d);
    var p := CeilDiv(h, d);
    var gap := p - q;
    assert d * p - d * q == d * gap;
    assert 0 - d < d * gap < d;
    assert gap < 1 by { if gap >= 1 { ProductAtLeast(d, gap); } }
    assert d * -gap == -(d * gap);
    assert gap > -1 by { if gap <= -1 { ProductAtLeast(d, -gap); } }
  }

  lemma {:induction false} CeilHalfThenDiv(k: nat, d: nat)
    requires d > 0
    ensures CeilDiv(CeilHalf(k), d) == CeilDiv(k, 2 * d)
  {
    // With q = CeilDiv(k, 2d):  k <= 2dq < k + 2d, hence ceil(k/2) <= dq < ceil(k/2) + d.
    var q := CeilDiv(k, 2 * d);
    CeilDivBounds(k, 2 * d);
    assert 2 * d * q == 2 * (d * q);
    CeilDivUnique(CeilHalf(k), d, q);
  }

  lemma {:induction false} PassesApart(a: seq<Chunk>, f: seq<Chunk>, b: seq<Chunk>, n: nat)
    requires Apart(a, f, b)
    ensures Passes(a + f + b, n) == Passes(a, n) + Passes(f, n) + Passes(b, n)
    decreases n
  {
    if n > 0 {
      CoalesceApart(a, f, b);
      CoalesceStaysApart(a, f, b);
      PassesApart(Coalesce(a), Coalesce(f), Coalesce(b), n - 1);
    }
  }

  lemma {:induction false} PassesRun(f: seq<Chunk>, n: nat)
    requires AllFree(f)
    ensures AllFree(Passes(f, n)) && Total(Passes(f, n)) == Total(f)
    ensures |Passes(f, n)| == CeilDiv(|f|, Pow2(n))
    decreases n
  {
    if n > 0 {
      CoalesceRun(f);
      CoalesceKeepsTotal(f);
      PassesRun(Coalesce(f), n - 1);
      CeilHalfThenDiv(|f|, Pow2(n - 1));
    }
  }

  /**
   n passes turn a maximal run of k free chunks into ceil(k / 2^n) chunks over the same
   words; the run is fully merged exactly when k <= 2^n.
   */
  lemma {:induction false} PassesMaximalRun(a: seq<Chunk>, f: seq<Chunk>, b: seq<Chunk>, n: nat)
    requires f != [] && AllFree(f) && Apart(a, f, b)
    ensures Passes(a + f + b, n) == Passes(a, n) + Passes(f, n) + Passes(b, n)
    ensures AllFree(Passes(f, n)) && Total(Passes(f, n)) == Total(f)
    ensures |Passes(f, n)| == CeilDiv(|f|, Pow2(n))
    ensures |Passes(f, n)| == 1 <==> |f| <= Pow2(n)
  {
    PassesApart(a, f, b, n);
    PassesRun(f, n);
    if |f| <= Pow2(n) {
      CeilDivUnique(|f|, Pow2(n), 1);
    } else {
      CeilDivBounds(|f|, Pow2(n));
    }
  }

  /** Enough passes over any heap leave no two adjacent free chunks. */
  lemma {:induction false} PassesReachPairFree(cs: seq<Chunk>, n: nat)
    requires Pairs(cs) < Pow2(n)
    ensures Pairs(Passes(cs, n)) == 0
    decreases n
  {
    if n > 0 {
      CoalesceHalvesPairs(cs);
      PassesReachPairFree(Coalesce(cs), n - 1);
    }
  }

  // ---------------------------------------------------------------- steps keep the invariant

  /** What every reachable heap of n words satisfies. */
  predicate HeapInv(cs: seq<Chunk>, n: nat)
  {
    Positive(cs) && Total(cs) == n && Pairs(cs) <= 1
  }

  lemma {:induction false} AllocKeepsShape(cs: seq<Chunk>, need: nat)
    requires Positive(cs) && need > 0
    ensures Positive(Alloc(cs, need))
    ensures Total(Alloc(cs, need)) == Total(cs)
    ensures Pairs(Alloc(cs, need)) <= Pairs(cs)
  {
    var i := FirstFit(cs, need);
    if i < |cs| {
      var a, m, b := cs[..i], Carve(cs[i], need), cs[i + 1..];
      assert cs == a + [cs[i]] + b;
      TotalAppend(a + [cs[i]], b); TotalAppend(a, [cs[i]]); TotalOne(cs[i]);
      TotalAppend(a + m, b); TotalAppend(a, m);
      PairsAppend(a + [cs[i]], b); PairsAppend(a, [cs[i]]);
      PairsAppend(a + m, b); PairsAppend(a, m);
      if |m| == 2 {
        assert m[1..] == [m[1]];
        TotalOne(m[1]);
      } else {
        TotalOne(m[0]);
      }
    }
  }

  lemma {:induction false} SetFreeShape(cs: seq<Chunk>, i: nat)
    requires i < |cs| && cs[i].taken && Positive(cs)
    ensures Positive(SetFree(cs, i)) && Total(SetFree(cs, i)) == Total(cs)
    ensures Pairs(SetFree(cs, i)) <= Pairs(cs) + 2
  {
    var a, c, b := cs[..i], cs[i], cs[i + 1..];
    var f := c.(taken := false);
    assert cs == a + [c] + b;
    assert SetFree(cs, i) == a + [f] + b;
    TotalAppend(a + [c], b); TotalAppend(a, [c]); TotalOne(c);
    TotalAppend(a + [f], b); TotalAppend(a, [f]); TotalOne(f);
    PairsAppend(a + [c], b); PairsAppend(a, [c]);
    PairsAppend(a + [f], b); PairsAppend(a, [f]);
  }

  lemma {:induction false} ReleaseKeepsInv(cs: seq<Chunk>, i: nat, n: nat)
    requires HeapInv(cs, n) && i < |cs| && cs[i].taken
    ensures HeapInv(Release(cs, i), n)
  {
    SetFreeShape(cs, i);
    CoalesceHalvesPairs(SetFree(cs, i));
    CoalesceKeepsTotal(SetFree(cs, i));
    CoalescePositive(SetFree(cs, i));
  }

  // ---------------------------------------------------------------- live allocations

  /** The index of the live chunk whose header is at word `at`. */
  ghost function IndexOf(cs: seq<Chunk>, base: nat, at: nat): (i: nat)
    requires at in TakenAt(cs, base)
    ensures i < |cs| && cs[i].taken && base + Start(cs, i) == at && cs[i].words == TakenAt(cs, base)[at]
  {
    if cs[0].taken && at == base then
      assert cs[..0] == [];
      0
    else
      var j := IndexOf(cs[1..], base + cs[0].words, at);
      assert cs[..j + 1][1..] == cs[1..][..j];
      j + 1
  }

  lemma {:induction false} TakenAtOne(c: Chunk, base: nat)
    ensures TakenAt([c], base) == if c.taken then map[base := c.words] else map[]
  {
    assert [c][1..] == [];
  }

  lemma {:induction false} PositiveParts(a: seq<Chunk>, b: seq<Chunk>)
    requires Positive(a + b)
    ensures Positive(a) && Positive(b)
  {
    assert forall k :: 0 <= k < |a| ==> a[k] == (a + b)[k];
    assert forall k :: 0 <= k < |b| ==> b[k] == (a + b)[|a| + k];
  }

  /** The live chunks of a heap cut into a prefix, a middle of w words and a suffix. */
  lemma {:induction false} TakenSplit(a: seq<Chunk>, m: seq<Chunk>, b: seq<Chunk>, w: nat)
    requires Positive(a + m + b) && Total(m) == w
    ensures TakenAt(a + m + b, 0) == TakenAt(a, 0) + TakenAt(m, Total(a)) + TakenAt(b, Total(a) + w)
  {
    PositiveParts(a + m, b);
    TakenAtAppend(a + m, b, 0);
    TakenAtAppend(a, m, 0);
    TotalAppend(a, m);
  }

  /** Neither the prefix nor a non-empty middle's suffix holds a chunk at the middle's start. */
  lemma {:induction false} TakenOutside(a: seq<Chunk>, b: seq<Chunk>, w: nat)
    requires Positive(a) && w > 0
    ensures Total(a) !in TakenAt(a, 0)
    ensures Total(a) !in TakenAt(b, Total(a) + w)
  {
    TakenAtBounds(a, 0);
    TakenAtBounds(b, Total(a) + w);
  }

  lemma {:induction false} CarveTaken(c: Chunk, need: nat, at: nat)
    requires Fits(c, need) && need > 0
    ensures var m := Carve(c, need);
            && Positive(m) && Total(m) == c.words && m[0].taken && need <= m[0].words <= need + 1
            && TakenAt(m, at) == map[at := m[0].words]
  {
    var m := Carve(c, need);
    if |m| == 2 {
      assert m[1..] == [m[1]];
      TakenAtOne(m[1], at + m[0].words);
      TotalOne(m[1]);
    } else {
      TakenAtOne(m[0], at);
      TotalOne(m[0]);
    }
  }

  /** Replacing a free chunk c by parts m of which only the first is taken. */
  lemma {:induction false} TakenInsert(a: seq<Chunk>, c: Chunk, m: seq<Chunk>, b: seq<Chunk>, size: nat)
    requires Positive(a + [c] + b) && Positive(a + m + b)
    requires !c.taken && Total(m) == c.words && TakenAt(m, Total(a)) == map[Total(a) := size]
    ensures Total(a) !in TakenAt(a + [c] + b, 0)
    ensures TakenAt(a + m + b, 0) == TakenAt(a + [c] + b, 0)[Total(a) := size]
  {
    assert (a + [c] + b)[|a|] == c;
    PositiveParts(a, m + b) by { assert a + (m + b) == a + m + b; }
    TotalOne(c);
    TakenAtOne(c, Total(a));
    TakenSplit(a, [c], b, c.words);
    TakenSplit(a, m, b, c.words);
    TakenOutside(a, b, c.words);
  }

  /** A request adds one live chunk at a place no live chunk had, and touches no other. */
  lemma {:induction false} AllocTaken(cs: seq<Chunk>, need: nat)
    requires Positive(cs) && need > 0 && FirstFit(cs, need) < |cs|
    ensures var i := FirstFit(cs, need);
            var got := Alloc(cs, need)[i];
            && got.taken && got.words == (if cs[i].words == need + 1 then need + 1 else need)
            && Start(cs, i) !in TakenAt(cs, 0)
            && Start(Alloc(cs, need), i) == Start(cs, i)
            && TakenAt(Alloc(cs, need), 0) == TakenAt(cs, 0)[Start(cs, i) := got.words]
  {
    var i := FirstFit(cs, need);
    var a, m, b := cs[..i], Carve(cs[i], need), cs[i + 1..];
    assert cs == a + [cs[i]] + b;
    assert Alloc(cs, need) == a + m + b;
    assert (a + m + b)[..i] == a && (a + m + b)[i] == m[0];
    AllocKeepsShape(cs, need);
    CarveTaken(cs[i], need, Total(a));
    TakenInsert(a, cs[i], m, b, m[0].words);
  }

  lemma {:induction false} TakenRemove(a: seq<Chunk>, c: Chunk, f: Chunk, b: seq<Chunk>)
    requires Positive(a + [c] + b) && Positive(a + [f] + b)
    requires c.taken && !f.taken && f.words == c.words
    ensures Total(a) in TakenAt(a + [c] + b, 0)
    ensures TakenAt(a + [f] + b, 0) == TakenAt(a + [c] + b, 0) - {Total(a)}
  {
    assert (a + [c] + b)[|a|] == c;
    PositiveParts(a, [c] + b) by { assert a + ([c] + b) == a + [c] + b; }
    TotalOne(c);
    TotalOne(f);
    TakenAtOne(c, Total(a));
    TakenAtOne(f, Total(a));
    TakenSplit(a, [c], b, c.words);
    TakenSplit(a, [f], b, c.words);
    TakenOutside(a, b, c.words);
  }

  lemma {:induction false} SetFreeTaken(cs: seq<Chunk>, i: nat)
    requires Positive(cs) && i < |cs| && cs[i].taken
    ensures Start(cs, i) in TakenAt(cs, 0)
    ensures TakenAt(SetFree(cs, i), 0) == TakenAt(cs, 0) - {Start(cs, i)}
  {
    var a, c, b := cs[..i], cs[i], cs[i + 1..];
    var f := c.(taken := false);
    assert cs == a + [c] + b;
    assert SetFree(cs, i) == a + [f] + b;
    TakenRemove(a, c, f, b);
  }

  /** Freeing a live chunk removes it from the live ones and leaves all others in place. */
  lemma {:induction false} ReleaseTaken(cs: seq<Chunk>, i: nat)
    requires Positive(cs) && i < |cs| && cs[i].taken
    ensures Start(cs, i) in TakenAt(cs, 0)
    ensures TakenAt(Release(cs, i), 0) == TakenAt(cs, 0) - {Start(cs, i)}
  {
    SetFreeTaken(cs, i);
    CoalesceKeepsTaken(SetFree(cs, i), 0);
  }

  /** Live chunks never overlap. */
  lemma {:induction false} TakenDisjoint(cs: seq<Chunk>, base: nat, p: nat, q: nat)
    requires Positive(cs)
    requires p in TakenAt(cs, base) && q in TakenAt(cs, base) && p < q
    ensures p + TakenAt(cs, base)[p] <= q
  {
    var i, j := IndexOf(cs, base, p), IndexOf(cs, base, q);
    if j <= i {
      StartMonotone(cs, j, i);
    } else {
      StartNext(cs, i);
      StartMonotone(cs, i + 1, j);
    }
  }

  // ---------------------------------------------------------------- every run of calls

  /** A call of the heap's interface; kfree names the word index of a live header. */
  datatype Call = Malloc(need: nat) | Free(at: nat)

  ghost predicate Legal(cs: seq<Chunk>, c: Call)
  {
    match c
    case Malloc(need) => need > 0
    case Free(at) => at in TakenAt(cs, 0)
  }

  ghost function Do(cs: seq<Chunk>, c: Call): seq<Chunk>
    requires Legal(cs, c)
  {
    match c
    case Malloc(need) => Alloc(cs, need)
    case Free(at) => Release(cs, IndexOf(cs, 0, at))
  }

  /** t lists the heaps seen after each call of h, from the single free chunk of n words. */
  ghost predicate IsRun(n: nat, h: seq<Call>, t: seq<seq<Chunk>>)
  {
    && |t| == |h| + 1
    && t[0] == [Chunk(n, false)]
    && forall k :: 0 <= k < |h| ==> Legal(t[k], h[k]) && t[k + 1] == Do(t[k], h[k])
  }

  /**
   In every heap reachable from init by any interleaving of kmalloc and kfree of live
   pointers the chunks tile the heap and at most one pair of adjacent free chunks exists.
   */
  lemma {:induction false} ReachableInv(n: nat, h: seq<Call>, t: seq<seq<Chunk>>, k: nat)
    requires n > 0 && IsRun(n, h, t) && k <= |h|
    ensures HeapInv(t[k], n)
  {
    if k == 0 {
      TotalOne(t[0][0]);
    } else {
      ReachableInv(n, h, t, k - 1);
      var prev, c := t[k - 1], h[k - 1];
      assert t[k - 1 + 1] == Do(prev, c);
      match c {
        case Malloc(need) => AllocKeepsShape(prev, need);
        case Free(at) => ReleaseKeepsInv(prev, IndexOf(prev, 0, at), n);
      }
    }
  }

  /** The same, read off the list: no two distinct free pairs, so never three in a row. */
  lemma {:induction false} ReachableHasOnePair(n: nat, h: seq<Call>, t: seq<seq<Chunk>>, k: nat, i: nat, j: nat)
    requires n > 0 && IsRun(n, h, t) && k <= |h|
    requires i + 1 < |t[k]| && j + 1 < |t[k]|
    ensures BothFree(t[k][i], t[k][i + 1]) && BothFree(t[k][j], t[k][j + 1]) ==> i == j
    ensures i + 2 < |t[k]| ==> t[k][i].taken || t[k][i + 1].taken || t[k][i + 2].taken
  {
    var cs := t[k];
    ReachableInv(n, h, t, k);
    if BothFree(cs[i], cs[i + 1]) && BothFree(cs[j], cs[j + 1]) {
      PairsAtMostOneIsUnique(cs, i, j);
    }
    if i + 2 < |cs| && BothFree(cs[i], cs[i + 1]) && !cs[i + 2].taken {
      PairsAtMostOneIsUnique(cs, i, i + 1);
    }
  }

  // ---------------------------------------------------------------- when a pair is left

  /** How many free chunks stand directly before chunk i. */
  function FreeBefore(cs: seq<Chunk>, i: nat): (n: nat)
    requires i <= |cs|
    ensures n <= i && AllFree(cs[i - n..i]) && (n < i ==> cs[i - n - 1].taken)
  {
    if i == 0 || cs[i - 1].taken then 0
    else
      var n := 1 + FreeBefore(cs, i - 1);
      assert cs[i - n..i] == cs[i - n..i - 1] + [cs[i - 1]];
      n
  }

  /** How many stand at place i and directly behind it. */
  function FreeFrom(cs: seq<Chunk>, i: nat): (n: nat)
    requires i <= |cs|
    ensures i + n <= |cs| && AllFree(cs[i..i + n]) && (i + n < |cs| ==> cs[i + n].taken)
    decreases |cs| - i
  {
    if i == |cs| || cs[i].taken then 0
    else
      var n := 1 + FreeFrom(cs, i + 1);
      assert cs[i..i + n] == [cs[i]] + cs[i + 1..i + n];
      n
  }

  lemma {:induction false} PairsOfRun(f: seq<Chunk>)
    requires AllFree(f)
    ensures Pairs(f) == if f == [] then 0 else |f| - 1
  {
    if |f| >= 2 { PairsOfRun(f[1..]); }
  }

  lemma {:induction false} PairsApart(a: seq<Chunk>, f: seq<Chunk>, b: seq<Chunk>)
    requires Apart(a, f, b) && f != []
    ensures Pairs(a + f + b) == Pairs(a) + Pairs(f) + Pairs(b)
  {
    PairsAppend(a + f, b);
    PairsAppend(a, f);
  }

  /** The pairs in three neighbouring parts are at least those in each. */
  lemma {:induction false} PairsOfParts(a: seq<Chunk>, l: seq<Chunk>, c: Chunk, r: seq<Chunk>, b: seq<Chunk>)
    requires AllFree(l) && AllFree(r)
    ensures Pairs(a + l + [c] + r + b) >= Pairs(a) + Pairs(b)
    ensures Pairs(a + l + [c] + r + b) >= (if l == [] then 0 else |l| - 1) + (if r == [] then 0 else |r| - 1)
  {
    PairsOfRun(l);
    PairsOfRun(r);
    PairsAppend(a + l + [c] + r, b);
    PairsAppend(a + l + [c], r);
    PairsAppend(a + l, [c]);
    PairsAppend(a, l);
  }

  /** Freeing chunk c between l and r, a run that has taken chunks or the ends of the heap around it. */
  lemma {:induction false} ReleaseInRun(a: seq<Chunk>, l: seq<Chunk>, c: Chunk, r: seq<Chunk>, b: seq<Chunk>)
    requires AllFree(l) && AllFree(r) && !c.taken && Pairs(a) <= 1 && Pairs(b) <= 1
    requires a != [] ==> a[|a| - 1].taken
    requires b != [] ==> b[0].taken
    ensures Pairs(Coalesce(a + (l + [c] + r) + b)) == CeilHalf(|l| + 1 + |r|) - 1
  {
    hide Coalesce, Pairs;
    var f := l + [c] + r;
    CoalesceMaximalRun(a, f, b);
    CoalesceStaysApart(a, f, b);
    CoalesceLast(f);
    PairsApart(Coalesce(a), Coalesce(f), Coalesce(b));
    PairsOfRun(Coalesce(f));
    CoalesceHalvesPairs(a);
    CoalesceHalvesPairs(b);
  }

  /** A heap cut around chunk i and the free chunks beside it. */
  lemma {:induction false} CutAround(cs: seq<Chunk>, i: nat)
    requires i < |cs|
    ensures var n, m := FreeBefore(cs, i), FreeFrom(cs, i + 1);
            && cs == cs[..i - n] + cs[i - n..i] + [cs[i]] + cs[i + 1..i + 1 + m] + cs[i + 1 + m..]
            && Pairs(cs) >= Pairs(cs[..i - n]) + Pairs(cs[i + 1 + m..])
            && Pairs(cs) >= (if n == 0 then 0 else n - 1) + (if m == 0 then 0 else m - 1)
  {
    hide Pairs, FreeBefore, FreeFrom;
    var n, m := FreeBefore(cs, i), FreeFrom(cs, i + 1);
    CutAt(cs, i - n, i, i + 1 + m);
    PairsOfParts(cs[..i - n], cs[i - n..i], cs[i], cs[i + 1..i + 1 + m], cs[i + 1 + m..]);
  }

  lemma {:induction false} CutAt(cs: seq<Chunk>, j: nat, i: nat, k: nat)
    requires j <= i < k <= |cs|
    ensures cs == cs[..j] + cs[j..i] + [cs[i]] + cs[i + 1..k] + cs[k..]
  {
    assert cs == cs[..i] + [cs[i]] + cs[i + 1..];
    assert cs[..i] == cs[..j] + cs[j..i] && cs[i + 1..] == cs[i + 1..k] + cs[k..];
  }

  lemma {:induction false} Neighbours(cs: seq<Chunk>, i: nat)
    requires i < |cs|
    ensures FreeBefore(cs, i) > 0 <==> 0 < i && !cs[i - 1].taken
    ensures FreeFrom(cs, i + 1) > 0 <==> i + 1 < |cs| && !cs[i + 1].taken
  {
  }

  /**
   After kfree the pass leaves two adjacent free chunks exactly when the chunk freed stood in
   a run of three or more: between two free ones, or beside two.
   */
  lemma {:induction false} ReleaseLeavesPairIff(cs: seq<Chunk>, i: nat)
    requires Pairs(cs) <= 1 && i < |cs| && cs[i].taken
    ensures Pairs(Release(cs, i)) == if FreeBefore(cs, i) + FreeFrom(cs, i + 1) >= 2 then 1 else 0
  {
    hide Coalesce, Pairs, FreeBefore, FreeFrom, SetFree, AllFree;
    var n, m := FreeBefore(cs, i), FreeFrom(cs, i + 1);
    var a, l, r, b := cs[..i - n], cs[i - n..i], cs[i + 1..i + 1 + m], cs[i + 1 + m..];
    CutAround(cs, i);
    FreedParts(a, l, cs[i], r, b);
    ReleaseInRun(a, l, cs[i].(taken := false), r, b);
  }

  lemma {:induction false} FreedParts(a: seq<Chunk>, l: seq<Chunk>, c: Chunk, r: seq<Chunk>, b: seq<Chunk>)
    ensures SetFree(a + l + [c] + r + b, |a| + |l|) == a + (l + [c.(taken := false)] + r) + b
  {
    hide SetFree;
    var f := c.(taken := false);
    Nested(a, l, c, r, b);
    FreedPart(a + l, c, r + b);
    Nested(a, l, f, r, b);
  }

  lemma {:induction false} Nested(a: seq<Chunk>, l: seq<Chunk>, c: Chunk, r: seq<Chunk>, b: seq<Chunk>)
    ensures a + l + [c] + r + b == a + l + [c] + (r + b) == a + (l + [c] + r) + b
  {
  }

  lemma {:induction false} FreedPart(a: seq<Chunk>, c: Chunk, b: seq<Chunk>)
    ensures SetFree(a + [c] + b, |a|) == a + [c.(taken := false)] + b
  {
  }

  /** From a heap without adjacent free chunks: exactly when both neighbours are free. */
  lemma {:induction false} ReleaseBetweenFree(cs: seq<Chunk>, i: nat)
    requires Pairs(cs) == 0 && i < |cs| && cs[i].taken
    ensures Pairs(Release(cs, i)) == if 0 < i && i + 1 < |cs| && !cs[i - 1].taken && !cs[i + 1].taken then 1 else 0
  {
    hide Coalesce, Pairs, FreeBefore, FreeFrom, Release;
    ReleaseLeavesPairIff(cs, i);
    CutAround(cs, i);
    Neighbours(cs, i);
  }

  /** Such a heap is reached: three requests, then the first, the third and the second are freed. */
  lemma {:induction false} PairIsReached(n: nat) returns (h: seq<Call>, t: seq<seq<Chunk>>)
    requires n >= 8
    ensures IsRun(n, h, t) && Pairs(t[|h|]) == 1
  {
    hide Alloc, Release, TakenAt, IndexOf;
    var T, F := Chunk(2, true), Chunk(2, false);
    h := [Malloc(2), Malloc(2), Malloc(2), Free(0), Free(4), Free(2)];
    t := [[Chunk(n, false)],
          [T, Chunk(n - 2, false)],
          [T, T, Chunk(n - 4, false)],
          [T, T, T, Chunk(n - 6, false)],
          [F, T, T, Chunk(n - 6, false)],
          [F, T, Chunk(n - 4, false)],
          [Chunk(4, false), Chunk(n - 4, false)]];
    ThreeRequests(n);
    ThreeFrees(n);
    assert t[6][1..] == [Chunk(n - 4, false)];
  }

  lemma {:induction false} ThreeRequests(n: nat)
    requires n >= 8
    ensures var T := Chunk(2, true);
            && Alloc([Chunk(n, false)], 2) == [T, Chunk(n - 2, false)]
            && Alloc([T, Chunk(n - 2, false)], 2) == [T, T, Chunk(n - 4, false)]
            && Alloc([T, T, Chunk(n - 4, false)], 2) == [T, T, T, Chunk(n - 6, false)]
  {
    hide Alloc;
    var T := Chunk(2, true);
    RequestBehind([], n);
    RequestBehind([T], n - 2);
    RequestBehind([T, T], n - 4);
    assert [] + [Chunk(n, false)] == [Chunk(n, false)];
    assert [] + [T, Chunk(n - 2, false)] == [T, Chunk(n - 2, false)];
    assert [T] + [Chunk(n - 2, false)] == [T, Chunk(n - 2, false)];
    assert [T, T] + [Chunk(n - 4, false)] == [T, T, Chunk(n - 4, false)];
  }

  lemma {:induction false} ThreeFrees(n: nat)
    requires n >= 8
    ensures var T, F, x, y := Chunk(2, true), Chunk(2, false), Chunk(n - 6, false), Chunk(n - 4, false);
            && 0 in TakenAt([T, T, T, x], 0) && Release([T, T, T, x], IndexOf([T, T, T, x], 0, 0)) == [F, T, T, x]
            && 4 in TakenAt([F, T, T, x], 0) && Release([F, T, T, x], IndexOf([F, T, T, x], 0, 4)) == [F, T, y]
            && 2 in TakenAt([F, T, y], 0) && Release([F, T, y], IndexOf([F, T, y], 0, 2)) == [Chunk(4, false), y]
  {
    hide TakenAt, IndexOf, Release, Coalesce, Total;
    var T, F, x, y := Chunk(2, true), Chunk(2, false), Chunk(n - 6, false), Chunk(n - 4, false);
    SmallTotals();
    ThreePasses(n);
    FreeThere([T, T, T, x], [], [T, T, x], [F, T, T, x]);
    FreeThere([F, T, T, x], [F, T], [x], [F, T, F, x]);
    FreeThere([F, T, y], [F], [y], [F, F, y]);
  }

  lemma {:induction false} SmallTotals()
    ensures Total([]) == 0 && Total([Chunk(2, false)]) == 2 && Total([Chunk(2, false), Chunk(2, true)]) == 4
  {
    TotalOne(Chunk(2, false));
    TotalOne(Chunk(2, true));
    assert [Chunk(2, false), Chunk(2, true)][1..] == [Chunk(2, true)];
  }

  lemma {:induction false} ThreePasses(n: nat)
    requires n >= 8
    ensures var T, F, x, y := Chunk(2, true), Chunk(2, false), Chunk(n - 6, false), Chunk(n - 4, false);
            && Coalesce([F, T, T, x]) == [F, T, T, x] && Coalesce([F, T, F, x]) == [F, T, y]
            && Coalesce([F, F, y]) == [Chunk(4, false), y]
  {
    hide Coalesce;
    var T, F, x, y := Chunk(2, true), Chunk(2, false), Chunk(n - 6, false), Chunk(n - 4, false);
    var p, q, r := [F, T, T, x], [F, T, F, x], [F, F, y];
    assert p[1..] == [T, T, x] && [T, T, x][1..] == [T, x] && [T, x][1..] == [x];
    CoalesceUnfolds(p); CoalesceUnfolds([T, T, x]); CoalesceUnfolds([T, x]); CoalesceUnfolds([x]);
    assert q[1..] == [T, F, x] && [T, F, x][1..] == [F, x] && [F, x][2..] == [];
    CoalesceUnfolds(q); CoalesceUnfolds([T, F, x]); CoalesceUnfolds([F, x]); CoalesceUnfolds([]);
    assert r[2..] == [y];
    CoalesceUnfolds(r); CoalesceUnfolds([y]);
  }

  /** A request of two words behind taken chunks. */
  lemma {:induction false} RequestBehind(a: seq<Chunk>, n: nat)
    requires n >= 4 && forall i :: 0 <= i < |a| ==> a[i].taken
    ensures Alloc(a + [Chunk(n, false)], 2) == a + [Chunk(2, true), Chunk(n - 2, false)]
  {
    var cs := a + [Chunk(n, false)];
    assert Fits(cs[|a|], 2) && FirstFit(cs, 2) == |a|;
    assert cs[..|a|] == a && cs[|a| + 1..] == [];
  }

  /** Freeing the chunk of two words behind a. */
  lemma {:induction false} FreeThere(cs: seq<Chunk>, a: seq<Chunk>, b: seq<Chunk>, freed: seq<Chunk>)
    requires cs == a + [Chunk(2, true)] + b && Positive(cs) && freed == a + [Chunk(2, false)] + b
    ensures Total(a) in TakenAt(cs, 0) && Release(cs, IndexOf(cs, 0, Total(a))) == Coalesce(freed)
  {
    hide Coalesce, IndexOf, TakenAt;
    PlaceOf(a, Chunk(2, true), b);
    assert SetFree(cs, |a|) == a + [Chunk(2, false)] + b;
  }

  /** A taken chunk is found where the chunks before it end. */
  lemma {:induction false} PlaceOf(a: seq<Chunk>, c: Chunk, b: seq<Chunk>)
    requires c.taken && Positive(a + [c] + b)
    ensures Total(a) in TakenAt(a + [c] + b, 0) && IndexOf(a + [c] + b, 0, Total(a)) == |a|
  {
    hide IndexOf;
    var cs := a + [c] + b;
    assert cs == a + ([c] + b) && ([c] + b)[0] == c;
    PositiveParts(a, [c] + b);
    TakenAtAppend(a, [c] + b, 0);
    var i := IndexOf(cs, 0, Total(a));
    assert cs[..|a|] == a;
    if i < |a| { StartNext(cs, i); StartMonotone(cs, i + 1, |a|); }
    if |a| < i { StartNext(cs, |a|); StartMonotone(cs, |a| + 1, i); }
  }

  // ---------------------------------------------------------------- round trip

  /**
   From a heap with no two adjacent free chunks, a successful request followed by the free
   of what it returned gives back the very same list, split or not.
   */
  lemma {:induction false} AllocThenRelease(cs: seq<Chunk>, need: nat)
    requires Pairs(cs) == 0 && need > 0 && FirstFit(cs, need) < |cs|
    ensures var i := FirstFit(cs, need);
            Alloc(cs, need)[i].taken && Release(Alloc(cs, need), i) == cs
  {
    hide Pairs, Coalesce, Alloc, SetFree;
    var i := FirstFit(cs, need);
    var c := cs[i];
    AllocThenSetFree(cs, need);
    if c.words - need > 1 {
      assert cs == cs[..i] + [c] + cs[i + 1..];
      CoalesceHealsSplit(cs[..i], c, cs[i + 1..], need);
    } else {
      CoalesceFixesPairFree(cs);
    }
  }

  lemma {:induction false} AllocThenSetFree(cs: seq<Chunk>, need: nat)
    requires FirstFit(cs, need) < |cs|
    ensures var i := FirstFit(cs, need);
            var c := cs[i];
            && Alloc(cs, need)[i].taken
            && SetFree(Alloc(cs, need), i) ==
               if c.words - need > 1
               then cs[..i] + [Chunk(need, false), Chunk(c.words - need, false)] + cs[i + 1..]
               else cs
  {
  }

  lemma {:induction false} CoalesceHealsSplit(a: seq<Chunk>, c: Chunk, b: seq<Chunk>, need: nat)
    requires Pairs(a + [c] + b) == 0 && !c.taken && need <= c.words
    ensures Coalesce(a + [Chunk(need, false), Chunk(c.words - need, false)] + b) == a + [c] + b
  {
    hide Pairs, Coalesce;
    var f := [Chunk(need, false), Chunk(c.words - need, false)];
    PairFreeParts(a, c, b);
    CoalesceApart(a, f, b);
    CoalesceUnfolds(f);
    CoalesceUnfolds([]);
    assert f[2..] == [] && [c] + [] == [c];
  }

  lemma {:induction false} PairFreeParts(a: seq<Chunk>, c: Chunk, b: seq<Chunk>)
    requires Pairs(a + [c] + b) == 0 && !c.taken
    ensures Coalesce(a) == a && Coalesce(b) == b
    ensures a != [] ==> a[|a| - 1].taken
    ensures b != [] ==> b[0].taken
    ensures !Touch(a, b)
  {
    PairsAppend(a + [c], b);
    PairsAppend(a, [c]);
    CoalesceFixesPairFree(a);
    CoalesceFixesPairFree(b);
  }
}
