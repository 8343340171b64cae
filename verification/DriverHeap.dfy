/**
 The block driver on the kernel heap: block_op takes the memory of a request from kmalloc and
 pending gives it back to kfree. Addresses are byte offsets from the start of the heap.
 */
module DriverHeap {
  import opened Common
  import opened HeapChunks
  import opened HeapRuns
  import opened HeapLayout
  import opened KernelHeap
  import opened BlockDriver
  import Q = Virtqueue

  /** size_of::<Request>() */
  const REQUEST_SIZE := 32

  /** a is the address of a live allocation of at least a request's size. */
  predicate Held(a: nat, live: map<nat, nat>)
  {
    a % 8 == 0 && 8 <= a && a / 8 - 1 in live && 8 * (live[a / 8 - 1] - 1) >= REQUEST_SIZE
  }

  /** What becomes of a call of block_op. */
  datatype Outcome = Queued(addr: nat) | Rejected(error: BlockError) | NoMemory

  /** No free chunk has the words asked for. */
  predicate NoneFits(cs: seq<Chunk>, need: nat)
  {
    forall i :: 0 <= i < |cs| ==> cs[i].taken || cs[i].words < need
  }

  lemma {:induction false} FitsIff(cs: seq<Chunk>, need: nat)
    ensures FirstFit(cs, need) == |cs| <==> NoneFits(cs, need)
  {
  }

  /** The header and the status byte that a request's descriptors name lie inside its allocation. */
  lemma {:induction false} RequestInside(a: nat, live: map<nat, nat>)
    requires Held(a, live)
    ensures var p := a / 8 - 1;
            8 * p + 8 <= a && a + 16 <= 8 * (p + live[p]) && a + 24 + 1 <= 8 * (p + live[p])
  {
  }

  class Service {
    const dev: BlockDevice
    const heap: Heap

    /** The protocol invariant holds, and every request the driver keeps is live on the heap. */
    ghost predicate Valid(h: Q.History)
      reads this, dev, dev.desc, dev.availRing, dev.usedRing, heap, heap.words
    {
      && dev.Valid() && heap.Valid() && Q.Inv(dev.State(), h)
      && heap.words as object != dev.desc && heap.words as object != dev.availRing && heap.words as object != dev.usedRing
      && forall a :: a in dev.requests ==> Held(a, heap.Live())
    }

    constructor (dev: BlockDevice, heap: Heap)
      requires dev.Valid() && dev.State() == Q.Start() && heap.Valid()
      requires heap.words as object != dev.desc && heap.words as object != dev.availRing && heap.words as object != dev.usedRing
      ensures Valid(Q.History([], [], 0)) && this.dev == dev && this.heap == heap
    {
      this.dev, this.heap := dev, heap;
      new;
      Q.InvAtStart();
    }

    /**
     block_op with its kmalloc, after its checks. There is no memory exactly when no free chunk
     of the heap is large enough (the original then goes on with null).
     */
    method Request(buffer: nat, size: nat, offset: nat, write: bool, watcher: nat, ghost h: Q.History)
      returns (r: Outcome)
      requires Valid(h) && (|h.asks| >= 42 ==> Q.Acked(h, |h.asks| - 42))
      modifies dev, dev.desc, dev.availRing, heap`chunks, heap.words
      ensures r.Rejected? <==> !Q.Accepts(true, dev.readOnly, Q.Ask(0, buffer, size, offset, write, watcher))
      ensures r.Rejected? ==> r.error == if dev.readOnly && write then ReadOnly else InvalidArgument
      ensures !r.Rejected? ==> (r.NoMemory? <==> NoneFits(old(heap.chunks), Need(REQUEST_SIZE)))
      ensures !r.Queued? ==> Valid(h) && heap.chunks == old(heap.chunks) && dev.State() == old(dev.State())
      ensures r.Queued? ==>
                && Valid(Q.AfterSubmit(h, Q.Ask(r.addr, buffer, size, offset, write, watcher)))
                && r.addr !in old(dev.requests) && r.addr in dev.requests && Held(r.addr, heap.Live())
                && old(heap.Live()) == heap.Live() - {r.addr / 8 - 1}
      ensures Keeps(old(heap.Live()), old(heap.words[..]), heap.words[..])
    {
      hide Keeps, Q.Inv, Q.Submit, Heap.Valid, Alloc, Need, TakenAt, FirstFit;
      KeepsSame(heap.Live(), heap.words[..]);
      if dev.readOnly && write {
        return Rejected(ReadOnly);
      }
      if size % 512 != 0 {
        return Rejected(InvalidArgument);
      }
      ghost var cs, live, q := heap.chunks, heap.Live(), dev.State();
      ghost var requests := dev.requests;
      NeedForRequest();
      ValidIsPositive(heap);
      FitsIff(cs, Need(REQUEST_SIZE));
      var ptr := heap.KMalloc(REQUEST_SIZE);
      if ptr.At? {
        FreshRequest(cs, Need(REQUEST_SIZE));
        var a := Q.Ask(8 * ptr.word, buffer, size, offset, write, watcher);
        assert a.addr !in requests;
        Q.SubmitKeepsInv(q, h, a);
        dev.Enqueue(a);
        SubmitAddsRequest(q, a);
        return Queued(a.addr);
      } else {
        NoRequest(cs, Need(REQUEST_SIZE));
        return NoMemory;
      }
    }

    /** pending: every acknowledged request is given back with a legal kfree, once. */
    method Reap(ghost h: Q.History) returns (acks: seq<Q.Ack>, ghost h': Q.History)
      requires Valid(h)
      modifies dev, heap`chunks, heap.words
      ensures Valid(h') && h' == h.(acked := |h.order|) && dev.ackUsedIdx == dev.usedIdx
      ensures h.acked + |acks| == |h.order| && AcksFrom(h, h.acked, acks)
      ensures Reaped(old(heap.Live()), old(heap.words[..]), acks, heap.Live(), heap.words[..])
    {
      hide Valid, Reaped, Keeps, TakenAt, AcksFrom;
      acks, h' := [], h;
      ghost var live, ws := heap.Live(), heap.words[..];
      NothingReaped(h, live, ws);
      Caught(h');
      while dev.ackUsedIdx != dev.usedIdx
        invariant Valid(h') && h' == h.(acked := h.acked + |acks|) && h'.acked <= |h.order|
        invariant dev.ackUsedIdx == dev.usedIdx <==> h'.acked == |h.order|
        invariant AcksFrom(h, h.acked, acks)
        invariant Reaped(live, ws, acks, heap.Live(), heap.words[..])
        decreases |h.order| - h'.acked
      {
        ghost var live1, ws1 := heap.Live(), heap.words[..];
        var ack := ReapOne(h');
        h' := Q.AfterAck(h');
        OneMoreReaped(h, live, ws, acks, live1, ws1, ack, heap.Live(), heap.words[..]);
        acks := acks + [ack];
        Caught(h');
      }
    }

    lemma {:induction false} Caught(h: Q.History)
      requires Valid(h)
      ensures h.acked <= |h.order| && (dev.ackUsedIdx == dev.usedIdx <==> h.acked == |h.order|)
    {
      Q.CaughtUp(dev.State(), h);
    }

    method ReapOne(ghost h: Q.History) returns (ack: Q.Ack)
      requires Valid(h) && h.acked < |h.order|
      modifies dev, heap`chunks, heap.words
      ensures Valid(Q.AfterAck(h)) && h.order[h.acked].k < |h.asks| && ack == Q.AckFor(h, h.acked)
      ensures ack.request / 8 - 1 in old(heap.Live()) && heap.Live() == old(heap.Live()) - {ack.request / 8 - 1}
      ensures Keeps(heap.Live(), old(heap.words[..]), heap.words[..])
    {
      hide Keeps, Q.Inv, Q.AckStep, Q.AckOf, Heap.Valid, Release, IndexOf, TakenAt;
      ghost var q := dev.State();
      Q.AckIsOldestCompletion(q, h);
      Q.AckKeepsInv(q, h);
      Q.AckedIsAsked(q, h);
      AckTakesRequest(q);
      ack := dev.AckNext();
      heap.KFree(At(ack.request / 8));
    }
  }

  /** Where on the heap the acknowledged requests lay. */
  function Slots(acks: seq<Q.Ack>): set<int> { set a | a in acks :: a.request / 8 - 1 }

  /**
   The heap after some acknowledgements: their requests' memory, each live before, is free, and
   no word of what is still live has changed.
   */
  ghost predicate Reaped(live: map<nat, nat>, ws: seq<Word>, acks: seq<Q.Ack>, live': map<nat, nat>, ws': seq<Word>)
  {
    live' == live - Slots(acks) && |live'| == |live| - |acks| && Keeps(live', ws, ws')
  }

  lemma {:induction false} NothingReaped(h: Q.History, live: map<nat, nat>, ws: seq<Word>)
    ensures Reaped(live, ws, [], live, ws) && (h.acked <= |h.order| ==> AcksFrom(h, h.acked, []))
  {
  }

  lemma {:induction false} OneMoreReaped(h: Q.History, live: map<nat, nat>, ws: seq<Word>, acks: seq<Q.Ack>,
                                         live1: map<nat, nat>, ws1: seq<Word>, ack: Q.Ack, live2: map<nat, nat>, ws2: seq<Word>)
    requires Reaped(live, ws, acks, live1, ws1) && ack.request / 8 - 1 in live1
    requires live2 == live1 - {ack.request / 8 - 1} && Keeps(live2, ws1, ws2)
    requires AcksFrom(h, h.acked, acks) && h.acked + |acks| < |h.order|
    requires h.order[h.acked + |acks|].k < |h.asks| && ack == Q.AckFor(h, h.acked + |acks|)
    ensures Reaped(live, ws, acks + [ack], live2, ws2) && AcksFrom(h, h.acked, acks + [ack])
  {
    hide Keeps, Slots, AcksFrom;
    AcksNext(h, h.acked, acks, ack);
    OneFreed(live1, ack.request / 8 - 1);
    SlotsNext(live, acks, ack);
    KeepsLess(live2, live1, ws, ws1);
    KeepsBoth(live2, ws, ws1, ws2);
  }

  lemma {:induction false} SlotsNext(live: map<nat, nat>, acks: seq<Q.Ack>, ack: Q.Ack)
    ensures live - Slots(acks + [ack]) == live - Slots(acks) - {ack.request / 8 - 1}
  {
    assert Slots(acks + [ack]) == Slots(acks) + {ack.request / 8 - 1};
  }

  lemma {:induction false} OneFreed(live: map<nat, nat>, p: nat)
    requires p in live
    ensures |live - {p}| == |live| - 1
  {
    assert (live - {p}).Keys == live.Keys - {p};
  }

  lemma {:induction false} KeepsLess(less: map<nat, nat>, live: map<nat, nat>, ws: seq<Word>, ws': seq<Word>)
    requires Keeps(live, ws, ws') && forall p :: p in less ==> p in live && live[p] == less[p]
    ensures Keeps(less, ws, ws')
  {
    forall w | 0 <= w < |ws| && LiveWord(less, w) ensures ws'[w] == ws[w] {
      var p :| p in less && p <= w < p + less[p];
      assert LiveWord(live, w);
    }
  }

  lemma {:induction false} NeedForRequest()
    ensures Need(REQUEST_SIZE) == 5
  {
  }

  lemma {:induction false} ValidIsPositive(heap: Heap)
    requires heap.Valid()
    ensures Positive(heap.chunks)
  {
  }

  lemma {:induction false} FreshRequest(cs: seq<Chunk>, need: nat)
    requires Positive(cs) && need > 0 && FirstFit(cs, need) < |cs|
    ensures var at := Start(cs, FirstFit(cs, need));
            && at !in TakenAt(cs, 0) && at in TakenAt(Alloc(cs, need), 0) && TakenAt(Alloc(cs, need), 0)[at] >= need
            && TakenAt(cs, 0) == TakenAt(Alloc(cs, need), 0) - {at}
            && (forall p :: p in TakenAt(cs, 0) ==> p in TakenAt(Alloc(cs, need), 0)
                                                    && TakenAt(Alloc(cs, need), 0)[p] == TakenAt(cs, 0)[p])
  {
    hide Alloc, TakenAt, FirstFit;
    AllocTaken(cs, need);
  }

  lemma {:induction false} NoRequest(cs: seq<Chunk>, need: nat)
    requires FirstFit(cs, need) == |cs|
    ensures Alloc(cs, need) == cs
  {
  }

  lemma {:induction false} SubmitAddsRequest(q: Q.Queue, a: Q.Ask)
    requires Q.Shape(q)
    ensures Q.Submit(q, a).heap == q.heap[a.addr := Q.NewRequest(a)]
  {
  }

  lemma {:induction false} AckTakesRequest(q: Q.Queue)
    requires Q.Shape(q) && Q.CanAck(q)
    ensures Q.AckOf(q).request in q.heap && Q.AckStep(q).heap == q.heap - {Q.AckOf(q).request}
  {
  }
}
