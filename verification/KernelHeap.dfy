/**
 The header word of kmem.rs (AllocList): the size in bytes with the taken flag in bit 63.
 Bit operations on it are written as arithmetic on 64-bit values.
 */
module AllocList {
  import opened Common

  const TAKEN := 0x8000_0000_0000_0000

  predicate IsTaken(w: Word) { w >= TAKEN }

  function Size(w: Word): nat { if w >= TAKEN then w - TAKEN else w }

  function WithTaken(w: Word): Word { if w >= TAKEN then w else w + TAKEN }

  function WithFree(w: Word): Word { if w >= TAKEN then w - TAKEN else w }

  /** set_size keeps the taken flag. */
  function WithSize(w: Word, size: nat): (r: Word)
    ensures IsTaken(r) == IsTaken(w) && Size(r) == size % TAKEN
  {
    size % TAKEN + (if IsTaken(w) then TAKEN else 0)
  }
}

/** Where the headers of a chunk list lie in the words of the heap. */
module HeapLayout {
  import opened Common
  import opened HeapChunks
  import opened HeapRuns
  import opened AllocList

  function Header(c: Chunk): int
  {
    8 * c.words + (if c.taken then TAKEN else 0)
  }

  /** Starting at word `at`, memory holds the headers of cs, one chunk after the other. */
  predicate Layout(ws: seq<Word>, at: nat, cs: seq<Chunk>)
    decreases cs
  {
    if cs == [] then at <= |ws|
    else
      && 0 < cs[0].words
      && at + cs[0].words <= |ws|
      && ws[at] == Header(cs[0])
      && Layout(ws, at + cs[0].words, cs[1..])
  }

  lemma {:induction false} LayoutBounds(ws: seq<Word>, at: nat, cs: seq<Chunk>)
    requires Layout(ws, at, cs)
    ensures at + Total(cs) <= |ws| && Positive(cs)
    decreases cs
  {
    if cs != [] {
      LayoutBounds(ws, at + cs[0].words, cs[1..]);
      assert forall i :: 1 <= i < |cs| ==> cs[i] == cs[1..][i - 1];
    }
  }

  lemma {:induction false} LayoutAppend(ws: seq<Word>, at: nat, a: seq<Chunk>, b: seq<Chunk>)
    ensures Layout(ws, at, a + b) <==> Layout(ws, at, a) && Layout(ws, at + Total(a), b)
    decreases a
  {
    if a == [] {
      assert a + b == b;
      if Layout(ws, at, b) { LayoutBounds(ws, at, b); }
    } else {
      assert (a + b)[1..] == a[1..] + b;
      LayoutAppend(ws, at + a[0].words, a[1..], b);
    }
  }

  /** The layout of a part depends only on the words it covers. */
  /** In memory, the header of a chunk is its size in bytes, with bit 63 set when it is taken. */
  lemma {:induction false} HeaderInMemory(ws: seq<Word>, cs: seq<Chunk>, i: nat)
    requires Layout(ws, 0, cs) && i < |cs|
    ensures Start(cs, i) < |ws|
    ensures ws[Start(cs, i)] == 8 * cs[i].words + if cs[i].taken then 0x8000_0000_0000_0000 else 0
  {
    assert cs == cs[..i] + cs[i..];
    LayoutAppend(ws, 0, cs[..i], cs[i..]);
  }

  lemma {:induction false} LayoutFrame(ws: seq<Word>, ws': seq<Word>, at: nat, cs: seq<Chunk>)
    requires Layout(ws, at, cs) && |ws'| == |ws|
    requires forall w :: at <= w < at + Total(cs) && w < |ws| ==> ws'[w] == ws[w]
    ensures Layout(ws', at, cs)
    decreases cs
  {
    if cs != [] {
      LayoutBounds(ws, at, cs);
      LayoutFrame(ws, ws', at + cs[0].words, cs[1..]);
    }
  }

  lemma {:induction false} LayoutOne(ws: seq<Word>, at: nat, c: Chunk)
    ensures Layout(ws, at, [c]) <==> 0 < c.words && at + c.words <= |ws| && ws[at] == Header(c)
  {
    assert [c][1..] == [];
  }

  /** The layout of a heap cut around a middle part. */
  lemma {:induction false} LayoutCut(ws: seq<Word>, a: seq<Chunk>, m: seq<Chunk>, b: seq<Chunk>)
    ensures Layout(ws, 0, a + m + b) <==>
            Layout(ws, 0, a) && Layout(ws, Total(a), m) && Layout(ws, Total(a) + Total(m), b)
  {
    LayoutAppend(ws, 0, a + m, b);
    LayoutAppend(ws, 0, a, m);
    TotalAppend(a, m);
  }

  /** Rewriting the words of a middle part so that it lays out m' instead of m. */
  lemma {:induction false} LayoutReplace(ws: seq<Word>, ws': seq<Word>, a: seq<Chunk>, m: seq<Chunk>, m': seq<Chunk>, b: seq<Chunk>)
    requires Layout(ws, 0, a + m + b) && |ws'| == |ws|
    requires forall w :: 0 <= w < |ws| && !(Total(a) <= w < Total(a) + Total(m)) ==> ws'[w] == ws[w]
    requires Total(m') == Total(m) && Layout(ws', Total(a), m')
    ensures Layout(ws', 0, a + m' + b)
  {
    LayoutCut(ws, a, m, b);
    LayoutOutside(ws, ws', a, b, Total(m));
    LayoutCut(ws', a, m', b);
  }

  lemma {:induction false} LayoutOutside(ws: seq<Word>, ws': seq<Word>, a: seq<Chunk>, b: seq<Chunk>, w: nat)
    requires |ws'| == |ws|
    requires forall k :: 0 <= k < |ws| && !(Total(a) <= k < Total(a) + w) ==> ws'[k] == ws[k]
    requires Layout(ws, 0, a) && Layout(ws, Total(a) + w, b)
    ensures Layout(ws', 0, a) && Layout(ws', Total(a) + w, b)
  {
    LayoutFrame(ws, ws', 0, a);
    LayoutFrame(ws, ws', Total(a) + w, b);
  }

  /** Word w lies in a live chunk, header included. */
  predicate LiveWord(live: map<nat, nat>, w: nat)
  {
    exists p :: p in live && p <= w < p + live[p]
  }

  /** ws' differs from ws in no live word. */
  ghost predicate Keeps(live: map<nat, nat>, ws: seq<Word>, ws': seq<Word>)
  {
    |ws'| == |ws| && forall w :: 0 <= w < |ws| && LiveWord(live, w) ==> ws'[w] == ws[w]
  }

  /** No word of a free chunk is live. */
  lemma {:induction false} FreeWordNotLive(a: seq<Chunk>, c: Chunk, b: seq<Chunk>, w: nat)
    requires Positive(a + [c] + b) && !c.taken && Total(a) <= w < Total(a) + c.words
    ensures !LiveWord(TakenAt(a + [c] + b, 0), w)
  {
    TotalOne(c);
    TakenAtOne(c, Total(a));
    TakenSplit(a, [c], b, c.words);
    TakenAtBounds(a, 0);
    TakenAtBounds(b, Total(a) + c.words);
  }
}

/** kmem.rs: the heap's words in memory and the calls that rewrite its headers in place. */
module KernelHeap {
  import opened Common
  import opened HeapChunks
  import opened HeapRuns
  import opened HeapLayout
  import opened AllocList

  const PAGE_WORDS := 512

  /** A pointer into the heap, counted in words from KMEM_HEAD. */
  datatype Ptr = Null | At(word: nat)

  /** The words a request of sz bytes needs: rounded up to 8, plus the header. */
  function Need(sz: nat): (n: nat)
    ensures n > 0 && 8 * (n - 1) >= sz && 8 * (n - 1) < sz + 8
  {
    (AlignUp(sz, 8) + 8) / 8
  }

  class Heap {
    var words: array<Word>
    ghost var chunks: seq<Chunk>

    ghost predicate Valid()
      reads this, words
    {
      && 8 * words.Length < TAKEN
      && Layout(words[..], 0, chunks)
      && Total(chunks) == words.Length
      && Positive(chunks)
    }

    /** Live allocations: header word index to length in words. */
    ghost function Live(): map<nat, nat>
      reads this
    {
      TakenAt(chunks, 0)
    }

    /** init: one free chunk over all the pages obtained from the page allocator. */
    constructor (pages: nat)
      requires 0 < pages && 8 * PAGE_WORDS * pages < TAKEN
      ensures Valid() && fresh(words) && words.Length == PAGE_WORDS * pages
      ensures chunks == [Chunk(PAGE_WORDS * pages, false)] && HeapInv(chunks, words.Length)
    {
      words := new Word[PAGE_WORDS * pages](_ => 0);
      chunks := [Chunk(PAGE_WORDS * pages, false)];
      new;
      words[0] := WithSize(WithFree(words[0]), 8 * PAGE_WORDS * pages);
      TotalOne(chunks[0]);
      LayoutOne(words[..], 0, chunks[0]);
    }

    method KMalloc(sz: nat) returns (ptr: Ptr)
      requires Valid() && sz + 16 < 2 * TAKEN
      modifies this`chunks, words
      ensures Valid() && chunks == Alloc(old(chunks), Need(sz))
      ensures ptr.Null? <==> FirstFit(old(chunks), Need(sz)) == |old(chunks)|
      ensures ptr.At? ==> ptr.word == Start(old(chunks), FirstFit(old(chunks), Need(sz))) + 1
      ensures Keeps(old(Live()), old(words[..]), words[..])
    {
      hide Layout, FirstFit, Carve, Total, TakenAt, Header;
      var size := AlignUp(sz, 8) + 8;
      var head; ghost var a, b;
      head, a, b := Search(size);
      if head < words.Length {
        Take(head, size, a, b[0], b[1..]);
        ptr := At(head + 1);
      } else {
        ptr := Null;
      }
    }

    /** The walk of kmalloc: from header to header until a free chunk is large enough. */
    method Search(size: nat) returns (head: nat, ghost a: seq<Chunk>, ghost b: seq<Chunk>)
      requires Valid() && size % 8 == 0
      ensures head == Total(a) && |a| == FirstFit(chunks, size / 8)
      ensures head < words.Length ==> b != [] && Fits(b[0], size / 8) && words[head] == Header(b[0])
                                      && head + b[0].words <= words.Length
      ensures head < words.Length ==> chunks == a + [b[0]] + b[1..] && chunks[..|a|] == a && chunks[|a| + 1..] == b[1..]
      ensures head >= words.Length ==> |a| == |chunks|
    {
      hide Layout, FirstFit, Header, IsTaken, Size, Fits;
      head := 0;
      var tail := words.Length;
      a, b := [], chunks;
      while head < tail
        invariant chunks == a + b
        invariant head == Total(a) && head + Total(b) == tail
        invariant forall i :: 0 <= i < |a| ==> !Fits(a[i], size / 8)
        decreases tail - head
      {
        WalkHeader(words[..], a, b);
        HeaderReads(b[0], size);
        if !IsTaken(words[head]) && size <= Size(words[head]) {
          FirstFitIs(a, b, size / 8);
          return;
        }
        head := head + Size(words[head]) / 8;
        a, b := a + [b[0]], b[1..];
      }
      TotalZero(b, chunks, a);
    }

    /** Takes the free chunk c at head. */
    method Take(head: nat, size: nat, ghost a: seq<Chunk>, ghost c: Chunk, ghost b: seq<Chunk>)
      requires Valid() && chunks == a + [c] + b && head == Total(a)
      requires size % 8 == 0 && 0 < size && Fits(c, size / 8)
      requires head + c.words <= words.Length && words[head] == Header(c)
      modifies this`chunks, words
      ensures Valid() && chunks == a + Carve(c, size / 8) + b
      ensures Keeps(old(Live()), old(words[..]), words[..])
    {
      ghost var ws := words[..];
      CarveHeaders(words, head, size, c);
      chunks := a + Carve(c, size / 8) + b;
      TakeLayout(ws, words[..], a, c, b, size / 8);
    }

    /** Frees what a live pointer names, then makes one coalescing pass. */
    method KFree(ptr: Ptr)
      requires Valid()
      requires ptr.At? ==> ptr.word >= 1 && ptr.word - 1 in Live()
      modifies this`chunks, words
      ensures Valid()
      ensures ptr.Null? ==> chunks == old(chunks) && words[..] == old(words[..])
      ensures ptr.At? ==> chunks == Release(old(chunks), IndexOf(old(chunks), 0, ptr.word - 1))
      ensures ptr.At? ==> Live() == old(Live()) - {ptr.word - 1}
      ensures Keeps(Live(), old(words[..]), words[..])
    {
      if ptr.At? {
        var p := ptr.word - 1;
        ghost var i := MarkFree(p);
        CoalescePass();
        ReleaseTaken(old(chunks), i);
      }
    }

    /** Clears the taken flag of the live chunk whose header is at word p. */
    method MarkFree(p: nat) returns (ghost i: nat)
      requires Valid() && p in Live()
      modifies this`chunks, words
      ensures Valid() && i == IndexOf(old(chunks), 0, p) && chunks == SetFree(old(chunks), i)
      ensures Live() == old(Live()) - {p}
      ensures Keeps(Live(), old(words[..]), words[..])
    {
      i := IndexOf(chunks, 0, p);
      ghost var ws, cs := words[..], chunks;
      ghost var a, c, b := cs[..i], cs[i], cs[i + 1..];
      assert cs == a + [c] + b;
      HeaderAt(ws, a, c, b);
      if IsTaken(words[p]) {
        words[p] := WithFree(words[p]);
      }
      chunks := SetFree(cs, i);
      assert chunks == a + [c.(taken := false)] + b;
      SetFreeLayout(ws, words[..], a, c, b);
      SetFreeTaken(cs, i);
      FreeWordNotLive(a, c.(taken := false), b, p);
    }

    /** A client stores into the payload of a live allocation: no header is disturbed. */
    method ClientWrite(p: nat, w: nat, v: Word)
      requires Valid() && p in Live() && p < w < p + Live()[p] && w < words.Length
      modifies words
      ensures Valid() && words[w] == v
      ensures forall k :: 0 <= k < words.Length && k != w ==> words[k] == old(words[k])
    {
      ghost var ws := words[..];
      ghost var i := IndexOf(chunks, 0, p);
      ghost var a, c, b := chunks[..i], chunks[i], chunks[i + 1..];
      assert chunks == a + [c] + b;
      HeaderAt(ws, a, c, b);
      words[w] := v;
      PayloadWrite(ws, words[..], a, c, b, w);
    }

    /** coalesce: one walk over the headers that merges each free chunk with a free successor. */
    method CoalescePass()
      requires Valid()
      modifies this`chunks, words
      ensures Valid() && chunks == Coalesce(old(chunks)) && Live() == old(Live())
      ensures Keeps(Live(), old(words[..]), words[..])
    {
      hide Walk, Layout, Coalesce, Keeps, TakenAt, Positive, Total;
      var head, tail := 0, words.Length;
      ghost var cs := chunks;
      ghost var pre, done, rest := [], [], cs;
      WalkStarts(words[..], cs);
      KeepsSame(TakenAt(cs, 0), words[..]);
      while head < tail
        invariant Walk(words[..], cs, pre, done, rest) && head == Total(done)
        invariant Keeps(old(Live()), old(words[..]), words[..])
        decreases tail - head
      {
        var stop;
        ghost var ws := words[..];
        stop, head, pre, done, rest := CoalesceStep(words, head, cs, pre, done, rest);
        KeepsBoth(TakenAt(cs, 0), old(words[..]), ws, words[..]);
        if stop { break; }
      }
      chunks := done + rest;
      CoalesceShape(words[..], cs, pre, done, rest);
    }
  }

  /** Marks the chunk at head as taken and, if worth it, writes a header for what is left over. */
  method CarveHeaders(words: array<Word>, head: nat, size: nat, ghost c: Chunk)
    requires size % 8 == 0 && 0 < size && Fits(c, size / 8) && 8 * c.words < TAKEN
    requires head + c.words <= words.Length && words[head] == Header(c)
    modifies words
    ensures words[head] == Header(Carve(c, size / 8)[0])
    ensures c.words - size / 8 > 1 ==> words[head + size / 8] == Header(Carve(c, size / 8)[1])
    ensures forall w :: 0 <= w < words.Length && w != head && (w != head + size / 8 || c.words - size / 8 <= 1)
                ==> words[w] == old(words[w])
  {
    var chunkSize := Size(words[head]);
    var rem := chunkSize - size;
    words[head] := WithTaken(words[head]);
    if rem > 8 {
      var next := head + size / 8;
      words[next] := WithFree(words[next]);
      words[next] := WithSize(words[next], rem);
      words[head] := WithSize(words[head], size);
    } else {
      words[head] := WithSize(words[head], chunkSize);
    }
  }

  /** Grows the free chunk at head over the free chunk at next. */
  method MergeHeaders(words: array<Word>, head: nat, next: nat, ghost c: Chunk, ghost d: Chunk)
    requires head < words.Length && next < words.Length
    requires BothFree(c, d) && words[head] == Header(c) && words[next] == Header(d)
    requires 8 * (c.words + d.words) < TAKEN
    modifies words
    ensures words[head] == Header(Merge(c, d))
    ensures forall w :: 0 <= w < words.Length && w != head ==> words[w] == old(words[w])
  {
    words[head] := WithSize(words[head], Size(words[head]) + Size(words[next]));
  }

  lemma {:induction false} WalkHeader(ws: seq<Word>, a: seq<Chunk>, b: seq<Chunk>)
    requires Layout(ws, 0, a + b) && Total(a) < |ws| && Total(a) + Total(b) == |ws|
    ensures b != [] && b[0].words > 0 && Total(a) + b[0].words <= |ws|
    ensures ws[Total(a)] == Header(b[0])
    ensures a + b == a + [b[0]] + b[1..] && Total(b) == b[0].words + Total(b[1..])
    ensures Total(a + [b[0]]) == Total(a) + b[0].words
  {
    TotalAppend(a, [b[0]]);
    TotalOne(b[0]);
    LayoutAppend(ws, 0, a, b);
  }

  /** What the header of a chunk says about it. */
  lemma {:induction false} HeaderReads(c: Chunk, size: nat)
    requires 8 * c.words < TAKEN && size % 8 == 0
    ensures IsTaken(Header(c)) == c.taken && Size(Header(c)) / 8 == c.words
    ensures !IsTaken(Header(c)) && size <= Size(Header(c)) <==> Fits(c, size / 8)
  {
  }

  lemma {:induction false} TotalZero(b: seq<Chunk>, cs: seq<Chunk>, a: seq<Chunk>)
    requires Positive(cs) && cs == a + b && Total(b) == 0
    ensures b == []
  {
    PositiveParts(a, b);
  }

  lemma {:induction false} CarveLayout(ws: seq<Word>, at: nat, c: Chunk, need: nat)
    requires Fits(c, need) && need > 0 && at + c.words <= |ws|
    requires ws[at] == Header(Carve(c, need)[0])
    requires c.words - need > 1 ==> ws[at + need] == Header(Carve(c, need)[1])
    ensures Layout(ws, at, Carve(c, need))
  {
    var m := Carve(c, need);
    if |m| == 2 {
      assert m[1..] == [m[1]];
      LayoutOne(ws, at + need, m[1]);
    } else {
      LayoutOne(ws, at, m[0]);
    }
  }

  lemma {:induction false} FirstFitIs(a: seq<Chunk>, b: seq<Chunk>, need: nat)
    requires forall i :: 0 <= i < |a| ==> !Fits(a[i], need)
    requires b != [] && Fits(b[0], need)
    ensures FirstFit(a + b, need) == |a| && (a + b)[|a|] == b[0]
    ensures (a + b)[..|a|] == a && (a + b)[|a| + 1..] == b[1..]
  {
    var cs := a + b;
    assert cs[|a|] == b[0];
    assert forall i :: 0 <= i < |a| ==> cs[i] == a[i];
  }

  lemma {:induction false} TakeLayout(ws: seq<Word>, ws': seq<Word>, a: seq<Chunk>, c: Chunk, b: seq<Chunk>, need: nat)
    requires Layout(ws, 0, a + [c] + b) && Total(a + [c] + b) == |ws| == |ws'|
    requires Fits(c, need) && need > 0 && Total(a) + c.words <= |ws|
    requires forall w :: 0 <= w < |ws| && w != Total(a) && w != Total(a) + need ==> ws'[w] == ws[w]
    requires ws'[Total(a)] == Header(Carve(c, need)[0])
    requires if c.words - need > 1 then ws'[Total(a) + need] == Header(Carve(c, need)[1])
             else Total(a) + need < |ws| ==> ws'[Total(a) + need] == ws[Total(a) + need]
    ensures Layout(ws', 0, a + Carve(c, need) + b)
    ensures Total(a + Carve(c, need) + b) == |ws| && Positive(a + Carve(c, need) + b)
    ensures Positive(a + [c] + b) ==> Keeps(TakenAt(a + [c] + b, 0), ws, ws')
  {
    TakeKeeps(ws, ws', a, c, b, need);
    var m := Carve(c, need);
    CarveLayout(ws', Total(a), c, need);
    CarveTaken(c, need, Total(a));
    TotalOne(c);
    LayoutReplace(ws, ws', a, [c], m, b);
    LayoutBounds(ws', 0, a + m + b);
    TotalOfThree(a, [c], m, b);
  }

  lemma {:induction false} TakeKeeps(ws: seq<Word>, ws': seq<Word>, a: seq<Chunk>, c: Chunk, b: seq<Chunk>, need: nat)
    requires |ws| == |ws'| && Fits(c, need) && 0 < need
    requires forall w :: 0 <= w < |ws| && w != Total(a) && w != Total(a) + need ==> ws'[w] == ws[w]
    requires c.words - need <= 1 && Total(a) + need < |ws| ==> ws'[Total(a) + need] == ws[Total(a) + need]
    ensures Positive(a + [c] + b) ==> Keeps(TakenAt(a + [c] + b, 0), ws, ws')
  {
    if Positive(a + [c] + b) {
      FreeWordNotLive(a, c, b, Total(a));
      if c.words - need > 1 {
        FreeWordNotLive(a, c, b, Total(a) + need);
      }
    }
  }

  lemma {:induction false} TotalOfThree(a: seq<Chunk>, m: seq<Chunk>, m': seq<Chunk>, b: seq<Chunk>)
    requires Total(m) == Total(m')
    ensures Total(a + m + b) == Total(a + m' + b) == Total(a) + Total(m) + Total(b)
  {
    TotalAppend(a + m, b);
    TotalAppend(a, m);
    TotalAppend(a + m', b);
    TotalAppend(a, m');
  }

  lemma {:induction false} HeaderAt(ws: seq<Word>, a: seq<Chunk>, c: Chunk, b: seq<Chunk>)
    requires Layout(ws, 0, a + [c] + b)
    ensures Total(a) + c.words <= |ws| && c.words > 0 && ws[Total(a)] == Header(c)
  {
    LayoutCut(ws, a, [c], b);
    LayoutOne(ws, Total(a), c);
  }

  lemma {:induction false} PayloadWrite(ws: seq<Word>, ws': seq<Word>, a: seq<Chunk>, c: Chunk, b: seq<Chunk>, w: nat)
    requires Layout(ws, 0, a + [c] + b) && Total(a) < w < Total(a) + c.words <= |ws|
    requires |ws'| == |ws| && forall k :: 0 <= k < |ws| && k != w ==> ws'[k] == ws[k]
    ensures Layout(ws', 0, a + [c] + b)
  {
    HeaderAt(ws, a, c, b);
    LayoutOne(ws', Total(a), c);
    TotalOne(c);
    LayoutReplace(ws, ws', a, [c], [c], b);
  }

  lemma {:induction false} SetFreeLayout(ws: seq<Word>, ws': seq<Word>, a: seq<Chunk>, c: Chunk, b: seq<Chunk>)
    requires Layout(ws, 0, a + [c] + b) && c.taken && Total(a + [c] + b) == |ws| == |ws'|
    requires Total(a) < |ws| && ws'[Total(a)] == 8 * c.words
    requires forall w :: 0 <= w < |ws| && w != Total(a) ==> ws'[w] == ws[w]
    ensures Layout(ws', 0, a + [c.(taken := false)] + b)
    ensures Total(a + [c.(taken := false)] + b) == |ws|
    ensures Positive(a + [c.(taken := false)] + b)
  {
    var f := c.(taken := false);
    HeaderAt(ws, a, c, b);
    LayoutOne(ws', Total(a), f);
    TotalOne(c);
    TotalOne(f);
    LayoutReplace(ws, ws', a, [c], [f], b);
    LayoutBounds(ws', 0, a + [f] + b);
    TotalOfThree(a, [c], [f], b);
  }

  /** The state of a coalescing walk: pre has become done, rest is still as it was. */
  ghost predicate Walk(ws: seq<Word>, cs: seq<Chunk>, pre: seq<Chunk>, done: seq<Chunk>, rest: seq<Chunk>)
  {
    && cs == pre + rest
    && Positive(cs)
    && Total(pre) == Total(done)
    && Total(done) + Total(rest) == |ws|
    && Coalesce(cs) == done + Coalesce(rest)
    && Layout(ws, 0, done + rest)
  }

  lemma {:induction false} WalkStarts(ws: seq<Word>, cs: seq<Chunk>)
    requires Layout(ws, 0, cs) && Positive(cs) && Total(cs) == |ws|
    ensures Walk(ws, cs, [], [], cs) && Total([]) == 0
  {
    assert [] + cs == cs && [] + Coalesce(cs) == Coalesce(cs);
  }

  lemma {:induction false} KeepsSame(live: map<nat, nat>, ws: seq<Word>)
    ensures Keeps(live, ws, ws)
  {
  }

  lemma {:induction false} KeepsBoth(live: map<nat, nat>, ws: seq<Word>, ws': seq<Word>, ws'': seq<Word>)
    requires Keeps(live, ws, ws') && Keeps(live, ws', ws'')
    ensures Keeps(live, ws, ws'')
  {
  }

  /** The merging step of the walk. */
  method MergeAt(words: array<Word>, head: nat, next: nat,
                 ghost cs: seq<Chunk>, ghost pre: seq<Chunk>, ghost done: seq<Chunk>, ghost rest: seq<Chunk>)
    requires Walk(words[..], cs, pre, done, rest)
    requires |rest| >= 2 && BothFree(rest[0], rest[1]) && 8 * (rest[0].words + rest[1].words) < TAKEN
    requires head == Total(done) < words.Length && next < words.Length
    requires words[head] == Header(rest[0]) && words[next] == Header(rest[1])
    modifies words
    ensures Walk(words[..], cs, pre + rest[..2], done + [Merge(rest[0], rest[1])], rest[2..])
    ensures Keeps(TakenAt(cs, 0), old(words[..]), words[..])
    ensures words[head] == Header(Merge(rest[0], rest[1]))
    ensures Total(done + [Merge(rest[0], rest[1])]) == head + rest[0].words + rest[1].words
  {
    ghost var ws := words[..];
    MergeHeaders(words, head, next, rest[0], rest[1]);
    MergeStep(ws, words[..], cs, pre, done, rest);
    MergeKeeps(ws, words[..], cs, pre, rest);
  }

  /** One turn of the loop of coalesce. */
  method CoalesceStep(words: array<Word>, head: nat, ghost cs: seq<Chunk>,
                      ghost pre: seq<Chunk>, ghost done: seq<Chunk>, ghost rest: seq<Chunk>)
    returns (stop: bool, head': nat, ghost pre': seq<Chunk>, ghost done': seq<Chunk>, ghost rest': seq<Chunk>)
    requires Walk(words[..], cs, pre, done, rest) && 8 * words.Length < TAKEN
    requires head == Total(done) < words.Length
    modifies words
    ensures Walk(words[..], cs, pre', done', rest') && head' == Total(done')
    ensures Keeps(TakenAt(cs, 0), old(words[..]), words[..])
    ensures stop ==> rest' != [] && head' + rest'[0].words >= words.Length
    ensures !stop ==> head < head'
  {
    hide Layout, Coalesce, Keeps, TakenAt, Positive;
    KeepsSame(TakenAt(cs, 0), words[..]);
    WalkHeader(words[..], done, rest);
    var next := head + Size(words[head]) / 8;
    if Size(words[head]) == 0 {
      assert false;
      return true, head, pre, done, rest;
    } else if next >= words.Length {
      return true, head, pre, done, rest;
    }
    NextHeader(words[..], done, rest);
    if !IsTaken(words[head]) && !IsTaken(words[next]) {
      MergeAt(words, head, next, cs, pre, done, rest);
      pre', done', rest' := pre + rest[..2], done + [Merge(rest[0], rest[1])], rest[2..];
    } else {
      SkipStep(words[..], cs, pre, done, rest);
      pre', done', rest' := pre + rest[..1], done + rest[..1], rest[1..];
    }
    stop, head' := false, head + Size(words[head]) / 8;
  }

  lemma {:induction false} NextHeader(ws: seq<Word>, done: seq<Chunk>, rest: seq<Chunk>)
    requires Layout(ws, 0, done + rest) && rest != [] && Total(done) + rest[0].words < |ws|
    requires Total(done) + Total(rest) == |ws|
    ensures |rest| >= 2 && rest[1].words > 0 && ws[Total(done) + rest[0].words] == Header(rest[1])
    ensures rest[0].words + rest[1].words <= |ws|
  {
    LayoutAppend(ws, 0, done, rest);
    assert rest[1..] != [];
  }

  lemma {:induction false} MergeKeeps(ws: seq<Word>, ws': seq<Word>, cs: seq<Chunk>, pre: seq<Chunk>, rest: seq<Chunk>)
    requires cs == pre + rest && Positive(cs) && rest != [] && !rest[0].taken && |ws| == |ws'|
    requires forall w :: 0 <= w < |ws| && w != Total(pre) ==> ws'[w] == ws[w]
    ensures Keeps(TakenAt(cs, 0), ws, ws')
  {
    assert cs == pre + [rest[0]] + rest[1..];
    assert cs[|pre|] == rest[0];
    FreeWordNotLive(pre, rest[0], rest[1..], Total(pre));
  }

  lemma {:induction false} TotalTwo(rest: seq<Chunk>)
    requires |rest| >= 2
    ensures Total(rest[..2]) == rest[0].words + rest[1].words
    ensures Total(rest) == rest[0].words + rest[1].words + Total(rest[2..])
  {
    assert rest[..2][1..] == [rest[1]];
    TotalOne(rest[1]);
    assert rest == rest[..2] + rest[2..];
    TotalAppend(rest[..2], rest[2..]);
  }

  lemma {:induction false} MergeStep(ws: seq<Word>, ws': seq<Word>, cs: seq<Chunk>, pre: seq<Chunk>, done: seq<Chunk>, rest: seq<Chunk>)
    requires Walk(ws, cs, pre, done, rest)
    requires |rest| >= 2 && BothFree(rest[0], rest[1])
    requires Total(done) < |ws| == |ws'| && ws'[Total(done)] == Header(Merge(rest[0], rest[1]))
    requires forall w :: 0 <= w < |ws| && w != Total(done) ==> ws'[w] == ws[w]
    ensures Walk(ws', cs, pre + rest[..2], done + [Merge(rest[0], rest[1])], rest[2..])
    ensures Total(done + [Merge(rest[0], rest[1])]) == Total(done) + rest[0].words + rest[1].words
  {
    var m, two, tail := Merge(rest[0], rest[1]), rest[..2], rest[2..];
    MergeTotals(pre, done, rest);
    Regroup(done, two, tail, rest);
    Regroup(pre, two, tail, rest);
    assert cs[|pre|] == rest[0];
    MergeLayout(ws, ws', done, two, m, tail);
    CoalesceMerges(rest);
    Regroup(done, [m], Coalesce(tail), Coalesce(rest));
  }

  lemma {:induction false} Regroup(a: seq<Chunk>, m: seq<Chunk>, b: seq<Chunk>, mb: seq<Chunk>)
    requires mb == m + b
    ensures a + mb == a + m + b
  {
  }

  lemma {:induction false} CoalesceMerges(rest: seq<Chunk>)
    requires |rest| >= 2 && BothFree(rest[0], rest[1])
    ensures Coalesce(rest) == [Merge(rest[0], rest[1])] + Coalesce(rest[2..])
  {
  }

  lemma {:induction false} MergeTotals(pre: seq<Chunk>, done: seq<Chunk>, rest: seq<Chunk>)
    requires |rest| >= 2
    ensures rest == rest[..2] + rest[2..]
    ensures Total(rest[..2]) == rest[0].words + rest[1].words
    ensures Total(rest) == rest[0].words + rest[1].words + Total(rest[2..])
    ensures Total(pre + rest[..2]) == Total(pre) + rest[0].words + rest[1].words
    ensures Total(done + [Merge(rest[0], rest[1])]) == Total(done) + rest[0].words + rest[1].words
  {
    TotalTwo(rest);
    TotalAppend(pre, rest[..2]);
    TotalAppend(done, [Merge(rest[0], rest[1])]);
    TotalOne(Merge(rest[0], rest[1]));
  }

  lemma {:induction false} MergeLayout(ws: seq<Word>, ws': seq<Word>, done: seq<Chunk>, two: seq<Chunk>, m: Chunk, tail: seq<Chunk>)
    requires Layout(ws, 0, done + two + tail) && |ws| == |ws'|
    requires Total(two) == m.words > 0 && Total(done) < |ws| && ws'[Total(done)] == Header(m)
    requires forall w :: 0 <= w < |ws| && w != Total(done) ==> ws'[w] == ws[w]
    ensures Layout(ws', 0, done + [m] + tail)
  {
    LayoutCut(ws, done, two, tail);
    LayoutBounds(ws, Total(done), two);
    LayoutOne(ws', Total(done), m);
    TotalOne(m);
    LayoutReplace(ws, ws', done, two, [m], tail);
  }

  lemma {:induction false} SkipStep(ws: seq<Word>, cs: seq<Chunk>, pre: seq<Chunk>, done: seq<Chunk>, rest: seq<Chunk>)
    requires Walk(ws, cs, pre, done, rest)
    requires |rest| >= 2 && !BothFree(rest[0], rest[1])
    ensures Walk(ws, cs, pre + rest[..1], done + rest[..1], rest[1..])
    ensures Total(done + rest[..1]) == Total(done) + rest[0].words
  {
    assert rest[..1] == [rest[0]];
    assert pre + rest == pre + rest[..1] + rest[1..];
    assert done + rest == done + rest[..1] + rest[1..];
    TotalAppend(pre, rest[..1]);
    TotalAppend(done, rest[..1]);
    TotalOne(rest[0]);
    assert done + Coalesce(rest) == done + rest[..1] + Coalesce(rest[1..]);
  }

  lemma {:induction false} CoalesceShape(ws: seq<Word>, cs: seq<Chunk>, pre: seq<Chunk>, done: seq<Chunk>, rest: seq<Chunk>)
    requires Walk(ws, cs, pre, done, rest)
    requires rest != [] ==> Total(done) + rest[0].words >= |ws|
    ensures done + rest == Coalesce(cs)
    ensures Total(done + rest) == |ws| && Positive(done + rest)
    ensures TakenAt(done + rest, 0) == TakenAt(cs, 0) && Layout(ws, 0, done + rest)
  {
    LayoutBounds(ws, 0, done + rest);
    TotalAppend(done, rest);
    PositiveParts(done, rest);
    assert Coalesce(rest) == rest by {
      if |rest| >= 2 { TotalTwo(rest); }
    }
    CoalesceKeepsTaken(cs, 0);
  }
}
