/**
 The split virtqueue of the block driver (section 2.6 of VIRTIO 1.1, block.rs): descriptor
 table, available ring and used ring as values, with what the driver and the device each do
 to them. Indices are 16-bit and wrap; the rings have 128 entries.
 */
module Virtqueue {
  const RING := 128
  const WRAP := 0x1_0000

  const F_NEXT := 1
  const F_WRITE := 2

  /** Where the status byte lies in a request, and the sizes of header and status. */
  const STATUS_OFFSET := 24
  const HEADER_SIZE := 16
  const STATUS_SIZE := 1
  const STATUS_UNSET := 111

  datatype Desc = Desc(addr: nat, len: nat, flags: nat, next: nat)

  /** A request on the kernel heap. */
  datatype Request = Request(write: bool, sector: nat, buffer: nat, status: nat, watcher: nat)

  datatype Queue = Queue(
    idx: nat, ack: nat,
    desc: seq<Desc>,
    availIdx: nat, avail: seq<nat>,
    usedIdx: nat, used: seq<nat>,
    heap: map<nat, Request>)

  predicate Shape(q: Queue)
  {
    |q.desc| == RING && |q.avail| == RING && |q.used| == RING && q.idx < RING
  }

  // ---------------------------------------------------------------- the driver

  function Next(i: nat): nat { (i + 1) % RING }

  /** fill_next_descriptor */
  function Push(q: Queue, d: Desc): (r: Queue)
    requires Shape(q)
    ensures Shape(r)
  {
    var i := Next(q.idx);
    q.(idx := i, desc := q.desc[i := if d.flags % 2 == 1 then d.(next := Next(i)) else d])
  }

  /** One slot further, cyclically, there is the descriptor, linked to the slot behind it if it continues; no other slot changes. */
  lemma {:induction false} PushFills(q: Queue, d: Desc)
    requires Shape(q)
    ensures var r := Push(q, d);
            && r.idx == (q.idx + 1) % 128 && r == q.(idx := r.idx, desc := r.desc)
            && r.desc[r.idx] == (if d.flags % 2 == 1 then d.(next := (r.idx + 1) % 128) else d)
            && forall j :: 0 <= j < 128 && j != r.idx ==> r.desc[j] == q.desc[j]
  {
  }

  /** What a caller of block_op asks for, with the address kmalloc gave for the request. */
  datatype Ask = Ask(addr: nat, buffer: nat, size: nat, offset: nat, write: bool, watcher: nat)

  function HeadDesc(a: Ask): Desc { Desc(a.addr, HEADER_SIZE, F_NEXT, 0) }
  function DataDesc(a: Ask): Desc { Desc(a.buffer, a.size, F_NEXT + (if a.write then 0 else F_WRITE), 0) }
  function StatusDesc(a: Ask): Desc { Desc(a.addr + STATUS_OFFSET, STATUS_SIZE, F_WRITE, 0) }
  function NewRequest(a: Ask): Request { Request(a.write, a.offset / 512, a.buffer, STATUS_UNSET, a.watcher) }

  /** The checks of block_op: the device is there, not read-only for a write, and the size is whole sectors. */
  predicate Accepts(present: bool, readOnly: bool, a: Ask)
  {
    present && !(readOnly && a.write) && a.size % 512 == 0
  }

  /** The queue half of block_op, once its checks have passed. */
  function Submit(q: Queue, a: Ask): (r: Queue)
    requires Shape(q)
    ensures Shape(r)
  {
    var q1 := Push(q.(heap := q.heap[a.addr := NewRequest(a)]), HeadDesc(a));
    var head := q1.idx;
    var q3 := Push(Push(q1, DataDesc(a)), StatusDesc(a));
    q3.(avail := q3.avail[q3.availIdx % RING := head], availIdx := (q3.availIdx + 1) % WRAP)
  }

  /** One turn of the loop of pending: what is freed, who is woken and with which status. */
  datatype Ack = Ack(request: nat, watcher: nat, status: nat)

  predicate CanAck(q: Queue)
    requires Shape(q)
  {
    q.used[q.ack % RING] < RING && q.desc[q.used[q.ack % RING]].addr in q.heap
  }

  function AckOf(q: Queue): Ack
    requires Shape(q) && CanAck(q)
  {
    var rq := q.desc[q.used[q.ack % RING]].addr;
    Ack(rq, q.heap[rq].watcher, q.heap[rq].status)
  }

  function AckStep(q: Queue): (r: Queue)
    requires Shape(q) && CanAck(q)
    ensures Shape(r)
  {
    q.(ack := (q.ack + 1) % WRAP, heap := q.heap - {AckOf(q).request})
  }

  // ---------------------------------------------------------------- the device

  /** The descriptor chain that starts at available-ring slot s. */
  function Chain(q: Queue, s: nat): seq<Desc>
    requires Shape(q) && s < RING
  {
    var h := q.avail[s];
    if h >= RING then [] else
    var d0 := q.desc[h];
    if d0.flags % 2 == 0 || d0.next >= RING then [d0] else
    var d1 := q.desc[d0.next];
    if d1.flags % 2 == 0 || d1.next >= RING then [d0, d1] else
    [d0, d1, q.desc[d1.next]]
  }

  /** The device finishes the request it found in slot s: status byte, used element, used index. */
  function Complete(q: Queue, s: nat, status: nat): (r: Queue)
    requires Shape(q) && s < RING
    ensures Shape(r)
  {
    var c := Chain(q, s);
    var heap :=
      if |c| == 3 && c[2].addr >= STATUS_OFFSET && c[2].addr - STATUS_OFFSET in q.heap
      then q.heap[c[2].addr - STATUS_OFFSET := q.heap[c[2].addr - STATUS_OFFSET].(status := status)]
      else q.heap;
    q.(heap := heap, used := q.used[q.usedIdx % RING := q.avail[s]], usedIdx := (q.usedIdx + 1) % WRAP)
  }

  // ---------------------------------------------------------------- history and invariant

  /** The k-th request occupies three consecutive slots. */
  function Head(k: nat): nat { (3 * k + 1) % RING }
  function Data(k: nat): nat { (3 * k + 2) % RING }
  function Status(k: nat): nat { (3 * k + 3) % RING }

  datatype Done = Done(k: nat, status: nat)

  /** What has happened: requests in order of submission, completions in order, how many are acknowledged. */
  datatype History = History(asks: seq<Ask>, order: seq<Done>, acked: nat)

  predicate Completed(h: History, k: nat) { exists j :: 0 <= j < |h.order| && h.order[j].k == k }

  predicate Acked(h: History, k: nat) { exists j :: 0 <= j < |h.order| && j < h.acked && h.order[j].k == k }

  predicate Open(h: History, k: nat) { k < |h.asks| && !Acked(h, k) }

  predicate Bookkeeping(h: History)
  {
    && h.acked <= |h.order|
    && (forall j :: 0 <= j < |h.order| ==> h.order[j].k < |h.asks|)
    && (forall i, j :: 0 <= i < j < |h.order| ==> h.order[i].k != h.order[j].k)
  }

  /** Open requests are among the last 42. */
  predicate Window(h: History)
  {
    forall k :: 0 <= k < |h.asks| && !Acked(h, k) ==> |h.asks| <= k + 42
  }

  predicate Indices(q: Queue, h: History)
  {
    && q.idx == 3 * |h.asks| % RING
    && q.availIdx == |h.asks| % WRAP
    && q.usedIdx == |h.order| % WRAP
    && q.ack == h.acked % WRAP
  }

  /** Another descriptor follows. */
  predicate Continues(d: Desc) { d.flags % 2 == 1 }

  /** The device may write the buffer; otherwise it only reads it. */
  predicate DeviceWrites(d: Desc) { d.flags / 2 % 2 == 1 }

  /**
   The three descriptors of a block request (section 5.2.6 of VIRTIO 1.1): the 16-byte header,
   which the device reads; the caller's buffer, which it writes for a read and reads for a
   write; and the status byte, which it writes.
   */
  predicate HeaderFor(d: Desc, a: Ask) { d.addr == a.addr && d.len == 16 && Continues(d) && !DeviceWrites(d) }
  predicate DataFor(d: Desc, a: Ask) { d.addr == a.buffer && d.len == a.size && Continues(d) && (DeviceWrites(d) <==> !a.write) }
  predicate StatusFor(d: Desc, a: Ask) { d.addr == a.addr + 24 && d.len == 1 && !Continues(d) && DeviceWrites(d) }

  /** What block_op leaves in the request itself, besides its status. */
  predicate RequestFor(rq: Request, a: Ask)
  {
    && rq.write == a.write && rq.buffer == a.buffer && rq.watcher == a.watcher
    && 512 * rq.sector <= a.offset < 512 * (rq.sector + 1)
  }

  /** The descriptors and the ring slot of request k are as they should be. */
  predicate ChainIntact(q: Queue, a: Ask, k: nat)
    requires Shape(q)
  {
    && HeaderFor(q.desc[Head(k)], a) && q.desc[Head(k)].next == Data(k)
    && DataFor(q.desc[Data(k)], a) && q.desc[Data(k)].next == Status(k)
    && StatusFor(q.desc[Status(k)], a)
    && q.avail[k % RING] == Head(k)
  }

  predicate Chains(q: Queue, h: History)
    requires Shape(q)
  {
    forall k :: 0 <= k < |h.asks| && !Acked(h, k) ==> ChainIntact(q, h.asks[k], k)
  }

  /** The used ring still names the completions that have not been acknowledged. */
  predicate UsedRing(q: Queue, h: History)
    requires Shape(q)
  {
    forall j :: h.acked <= j < |h.order| ==> q.used[j % RING] == Head(h.order[j].k)
  }

  /** Each open request is on the heap, with the status the device gave it, if any. */
  predicate OnHeap(q: Queue, h: History)
  {
    && (forall k :: 0 <= k < |h.asks| && !Acked(h, k) ==>
          h.asks[k].addr in q.heap && RequestFor(q.heap[h.asks[k].addr], h.asks[k]))
    && (forall j :: h.acked <= j < |h.order| && h.order[j].k < |h.asks| && h.asks[h.order[j].k].addr in q.heap ==>
          q.heap[h.asks[h.order[j].k].addr].status == h.order[j].status)
  }

  /** Open requests have different addresses. */
  predicate Apart(h: History)
  {
    forall j, k :: 0 <= j < k < |h.asks| && !Acked(h, j) && !Acked(h, k) ==> h.asks[j].addr != h.asks[k].addr
  }

  /** An open request lives at this address. */
  ghost predicate OpenAt(h: History, addr: nat) { exists k: nat :: Open(h, k) && h.asks[k].addr == addr }

  /** Only open requests are on the heap, and as many as have been submitted and not acknowledged. */
  ghost predicate NoLeak(q: Queue, h: History)
  {
    |q.heap| + h.acked == |h.asks| && forall a :: a in q.heap ==> OpenAt(h, a)
  }

  ghost predicate Inv(q: Queue, h: History)
  {
    && Shape(q) && Bookkeeping(h) && Window(h) && Indices(q, h) && Chains(q, h) && UsedRing(q, h) && OnHeap(q, h) && Apart(h)
    && NoLeak(q, h)
  }

  /** The zeroed queue of a device that has just been set up. */
  function Start(): Queue
  {
    Queue(0, 0, seq(128, _ => Desc(0, 0, 0, 0)), 0, seq(128, _ => 0), 0, seq(128, _ => 0), map[])
  }

  lemma {:induction false} InvAtStart()
    ensures Inv(Start(), History([], [], 0))
  {
  }

  // ---------------------------------------------------------------- slots

  lemma {:induction false} ModDiffer(x: nat, y: nat)
    requires x < y < x + RING
    ensures x % RING != y % RING
  {
  }

  lemma {:induction false} ModNext(x: nat)
    ensures Next(x % RING) == (x + 1) % RING
  {
  }

  lemma {:induction false} WrapThenRing(x: nat)
    ensures x % WRAP % RING == x % RING && (x % WRAP + 1) % WRAP == (x + 1) % WRAP
  {
    assert x == x / WRAP * WRAP + x % WRAP;
    assert x == (x / WRAP * 512) * RING + x % WRAP;
    RingMultiple(x / WRAP * 512, x % WRAP);
    WrapNext(x);
  }

  lemma {:induction false} RingMultiple(a: nat, b: nat)
    ensures (a * RING + b) % RING == b % RING
  {
  }

  lemma {:induction false} WrapNext(x: nat)
    ensures (x % WRAP + 1) % WRAP == (x + 1) % WRAP
  {
  }

  /** Up to 41 requests later, none of the three slots of an earlier request is used again. */
  lemma {:induction false} SlotsApart(k: nat, s: nat)
    requires k < s <= k + 41
    ensures {Head(k), Data(k), Status(k)} !! {Head(s), Data(s), Status(s)}
    ensures k % RING != s % RING
  {
    ModDiffer(k, s);
    ModDiffer(3 * k + 1, 3 * s + 1); ModDiffer(3 * k + 1, 3 * s + 2); ModDiffer(3 * k + 1, 3 * s + 3);
    ModDiffer(3 * k + 2, 3 * s + 1); ModDiffer(3 * k + 2, 3 * s + 2); ModDiffer(3 * k + 2, 3 * s + 3);
    ModDiffer(3 * k + 3, 3 * s + 1); ModDiffer(3 * k + 3, 3 * s + 2); ModDiffer(3 * k + 3, 3 * s + 3);
  }

  lemma {:induction false} SlotsOfOne(k: nat)
    ensures Head(k) != Data(k) && Head(k) != Status(k) && Data(k) != Status(k)
    ensures Next(Head(k)) == Data(k) && Next(Data(k)) == Status(k)
  {
    ModDiffer(3 * k + 1, 3 * k + 2); ModDiffer(3 * k + 1, 3 * k + 3); ModDiffer(3 * k + 2, 3 * k + 3);
    ModNext(3 * k + 1); ModNext(3 * k + 2);
  }

  /** What a submission writes, as the s-th request. */
  predicate Submitted(q: Queue, r: Queue, a: Ask, s: nat)
    requires Shape(q) && Shape(r)
  {
    && ChainIntact(r, a, s)
    && (forall i :: 0 <= i < RING && i != Head(s) && i != Data(s) && i != Status(s) ==> r.desc[i] == q.desc[i])
    && (forall i :: 0 <= i < RING && i != s % RING ==> r.avail[i] == q.avail[i])
    && r.heap == q.heap[a.addr := NewRequest(a)]
    && r.used == q.used && r.usedIdx == q.usedIdx && r.ack == q.ack
    && r.idx == 3 * (s + 1) % RING && r.availIdx == (s + 1) % WRAP
  }

  lemma {:induction false} SubmitWrites(q: Queue, a: Ask, s: nat)
    requires Shape(q) && q.idx == 3 * s % RING && q.availIdx == s % WRAP
    ensures Submitted(q, Submit(q, a), a, s)
  {
    ModNext(3 * s);
    SlotsOfOne(s);
    WrapThenRing(s);
  }

  lemma {:induction false} SlotReused(k: nat)
    ensures Status(k + 42) == Head(k)
  {
    assert 3 * (k + 42) + 3 == (3 * k + 1) + RING;
  }

  // ---------------------------------------------------------------- counting

  lemma {:induction false} DistinctInWindow(ks: seq<nat>, lo: nat, n: nat)
    requires forall i :: 0 <= i < |ks| ==> lo <= ks[i] < lo + n
    requires forall i, j :: 0 <= i < j < |ks| ==> ks[i] != ks[j]
    ensures |ks| <= n
    decreases n
  {
    assert |ks| > 0 ==> lo <= ks[0] < lo + n;
    if n > 0 {
      if i :| 0 <= i < |ks| && ks[i] == lo + n - 1 {
        var rest := ks[..i] + ks[i + 1..];
        DistinctInWindow(rest, lo, n - 1);
      } else {
        DistinctInWindow(ks, lo, n - 1);
      }
    }
  }

  /** Completions not yet acknowledged are open requests, so at most 42 of them, all different. */
  lemma {:induction false} FewUnacked(h: History, extra: seq<nat>)
    requires Bookkeeping(h) && Window(h) && |extra| <= 1
    requires forall i :: 0 <= i < |extra| ==> Open(h, extra[i]) && !Completed(h, extra[i])
    ensures |h.order| - h.acked + |extra| <= 42
  {
    var lo := if |h.asks| < 42 then 0 else |h.asks| - 42;
    var ks := seq(|h.order| - h.acked, i requires 0 <= i < |h.order| - h.acked => h.order[h.acked + i].k) + extra;
    forall i | 0 <= i < |ks| ensures lo <= ks[i] < lo + 42 {
      if i < |h.order| - h.acked { UnackedIsOpen(h, h.acked + i); }
    }
    DistinctInWindow(ks, lo, 42);
  }

  lemma {:induction false} UnackedIsOpen(h: History, j: nat)
    requires Bookkeeping(h) && h.acked <= j < |h.order|
    ensures Open(h, h.order[j].k)
  {
  }

  // ---------------------------------------------------------------- every step keeps the invariant

  predicate MaySubmit(q: Queue, h: History, a: Ask)
  {
    a.addr !in q.heap && (|h.asks| >= 42 ==> Acked(h, |h.asks| - 42))
  }

  function AfterSubmit(h: History, a: Ask): History { h.(asks := h.asks + [a]) }

  lemma {:induction false} SubmitHistory(h: History, a: Ask)
    requires Bookkeeping(h) && Window(h) && (|h.asks| >= 42 ==> Acked(h, |h.asks| - 42))
    ensures var h' := AfterSubmit(h, a);
            && Bookkeeping(h') && Window(h') && !Acked(h', |h.asks|)
            && (forall k :: Acked(h', k) <==> Acked(h, k))
            && (forall k :: 0 <= k < |h.asks| && !Acked(h, k) ==> |h.asks| <= k + 41)
  {
    var h' := AfterSubmit(h, a);
    forall k ensures Acked(h', k) <==> Acked(h, k) {
      assert forall j :: 0 <= j < |h.order| ==> h'.order[j] == h.order[j];
    }
  }

  lemma {:induction false} SubmitKeepsInv(q: Queue, h: History, a: Ask)
    requires Inv(q, h) && MaySubmit(q, h, a)
    ensures Inv(Submit(q, a), AfterSubmit(h, a))
  {
    hide Submit, Acked, NoLeak;
    var s, r, h' := |h.asks|, Submit(q, a), AfterSubmit(h, a);
    SubmitHistory(h, a);
    SubmitWrites(q, a, s);
    forall k | 0 <= k < s && !Acked(h', k) ensures ChainIntact(r, h'.asks[k], k) {
      SlotsApart(k, s);
      assert ChainIntact(q, h.asks[k], k);
    }
    forall j | h'.acked <= j < |h'.order| && h'.asks[h'.order[j].k].addr in r.heap
      ensures r.heap[h'.asks[h'.order[j].k].addr].status == h'.order[j].status
    {
      UnackedIsOpen(h, j);
    }
    assert OnHeap(r, h') && Apart(h');
    SubmitLeaksNothing(q, h, a);
  }

  lemma {:induction false} SubmitLeaksNothing(q: Queue, h: History, a: Ask)
    requires Shape(q) && Bookkeeping(h) && NoLeak(q, h) && a.addr !in q.heap
    ensures NoLeak(Submit(q, a), AfterSubmit(h, a))
  {
    hide Acked;
    var h' := AfterSubmit(h, a);
    assert Submit(q, a).heap == q.heap[a.addr := NewRequest(a)];
    forall x | x in q.heap ensures OpenAt(h', x) {
      var k: nat :| Open(h, k) && h.asks[k].addr == x;
      AckedKept(h, a, k);
      assert Open(h', k);
    }
    NotYetAcked(h, |h.asks|);
    AckedKept(h, a, |h.asks|);
    assert Open(h', |h.asks|) && h'.asks[|h.asks|].addr == a.addr;
  }

  lemma {:induction false} NotYetAcked(h: History, k: nat)
    requires Bookkeeping(h) && k >= |h.asks|
    ensures !Acked(h, k)
  {
  }

  /**
   42 is tight: the status descriptor of request k+42 goes into the head slot of request k. So
   in every state of the protocol a submission leaves all chains of open requests intact
   exactly when the request 42 before it has been acknowledged.
   */
  lemma {:induction false} WindowIsTight(q: Queue, h: History, a: Ask)
    requires Inv(q, h) && a.addr !in q.heap
    ensures Chains(Submit(q, a), AfterSubmit(h, a)) <==> (|h.asks| >= 42 ==> Acked(h, |h.asks| - 42))
  {
    hide Submit, Acked, NoLeak, OnHeap, UsedRing, Apart;
    if |h.asks| >= 42 ==> Acked(h, |h.asks| - 42) {
      SubmitKeepsInv(q, h, a);
    } else {
      var k, r, h' := |h.asks| - 42, Submit(q, a), AfterSubmit(h, a);
      SubmitWrites(q, a, k + 42);
      SlotReused(k);
      AckedKept(h, a, k);
      assert StatusFor(r.desc[Head(k)], a);
      assert !ChainIntact(r, h'.asks[k], k);
    }
  }

  lemma {:induction false} AckedKept(h: History, a: Ask, k: nat)
    ensures Acked(AfterSubmit(h, a), k) <==> Acked(h, k)
  {
    var h' := AfterSubmit(h, a);
    assert forall j :: 0 <= j < |h.order| ==> h'.order[j] == h.order[j];
  }

  function AfterComplete(h: History, k: nat, status: nat): History { h.(order := h.order + [Done(k, status)]) }

  lemma {:induction false} CompleteHistory(h: History, k: nat, status: nat)
    requires Bookkeeping(h) && Window(h) && Open(h, k) && !Completed(h, k)
    ensures var h' := AfterComplete(h, k, status);
            && Bookkeeping(h') && Window(h') && forall j :: Acked(h', j) <==> Acked(h, j)
  {
    var h' := AfterComplete(h, k, status);
    forall j ensures Acked(h', j) <==> Acked(h, j) {
      assert forall i :: 0 <= i < |h.order| ==> h'.order[i] == h.order[i];
    }
  }

  /**
   The device finds in the slot of request k a chain of three descriptors, for header, data
   and status, and in the request what was asked for.
   */
  lemma {:induction false} DeviceSeesRequest(q: Queue, h: History, k: nat)
    requires Inv(q, h) && Open(h, k)
    ensures var a := h.asks[k];
            var c := Chain(q, k % RING);
            && |c| == 3 && HeaderFor(c[0], a) && DataFor(c[1], a) && StatusFor(c[2], a)
            && a.addr in q.heap && RequestFor(q.heap[a.addr], a)
    ensures q.avail[k % RING] == Head(k)
  {
    assert ChainIntact(q, h.asks[k], k);
  }

  lemma {:induction false} CompleteKeepsInv(q: Queue, h: History, k: nat, status: nat)
    requires Inv(q, h) && Open(h, k) && !Completed(h, k)
    ensures Inv(Complete(q, k % RING, status), AfterComplete(h, k, status))
  {
    hide Acked, Chain, NoLeak;
    var r, h' := Complete(q, k % RING, status), AfterComplete(h, k, status);
    CompleteHistory(h, k, status);
    DeviceSeesRequest(q, h, k);
    WrapThenRing(|h.order|);
    FewUnacked(h, [k]);
    CompleteLeaksNothing(q, h, k, status);
    forall j | h'.acked <= j < |h'.order| ensures r.used[j % RING] == Head(h'.order[j].k) {
      if j < |h.order| { ModDiffer(j, |h.order|); }
    }
    forall j | h'.acked <= j < |h'.order| && h'.asks[h'.order[j].k].addr in r.heap
      ensures r.heap[h'.asks[h'.order[j].k].addr].status == h'.order[j].status
    {
      if j < |h.order| { UnackedIsOpen(h, j); }
    }
  }

  lemma {:induction false} CompleteLeaksNothing(q: Queue, h: History, k: nat, status: nat)
    requires Shape(q) && NoLeak(q, h) && forall j :: Acked(AfterComplete(h, k, status), j) <==> Acked(h, j)
    ensures NoLeak(Complete(q, k % RING, status), AfterComplete(h, k, status))
  {
    hide Acked, Chain;
    var r, h' := Complete(q, k % RING, status), AfterComplete(h, k, status);
    assert r.heap.Keys == q.heap.Keys;
    forall x | x in q.heap ensures OpenAt(h', x) {
      var j: nat :| Open(h, j) && h.asks[j].addr == x;
      assert Open(h', j);
    }
  }

  function AfterAck(h: History): History { h.(acked := h.acked + 1) }

  lemma {:induction false} AckHistory(h: History)
    requires Bookkeeping(h) && Window(h) && h.acked < |h.order|
    ensures var h' := AfterAck(h);
            && Bookkeeping(h') && Window(h') && Acked(h', h.order[h.acked].k)
            && forall j :: !Acked(h', j) ==> !Acked(h, j)
  {
    var h' := AfterAck(h);
    assert h'.order[h.acked].k == h.order[h.acked].k;
    forall j | Acked(h, j) ensures Acked(h', j) {
      var i :| 0 <= i < |h.order| && i < h.acked && h.order[i].k == j;
      assert h'.order[i].k == j;
    }
  }

  /** The acknowledgement at hand concerns the oldest completion, and reads its watcher and status. */
  lemma {:induction false} AckIsOldestCompletion(q: Queue, h: History)
    requires Inv(q, h) && h.acked < |h.order|
    ensures CanAck(q)
    ensures var done := h.order[h.acked];
            AckOf(q) == Ack(h.asks[done.k].addr, h.asks[done.k].watcher, done.status)
  {
    var done := h.order[h.acked];
    UnackedIsOpen(h, h.acked);
    WrapThenRing(h.acked);
    assert q.used[h.acked % RING] == Head(done.k);
    assert ChainIntact(q, h.asks[done.k], done.k);
  }

  lemma {:induction false} AckKeepsInv(q: Queue, h: History)
    requires Inv(q, h) && h.acked < |h.order|
    ensures CanAck(q) && Inv(AckStep(q), AfterAck(h))
  {
    hide Acked, NoLeak;
    var h' := AfterAck(h);
    AckHistory(h);
    AckIsOldestCompletion(q, h);
    WrapThenRing(h.acked);
    var gone := h.order[h.acked].k;
    UnackedIsOpen(h, h.acked);
    forall k | 0 <= k < |h.asks| && !Acked(h', k) ensures h.asks[k].addr != h.asks[gone].addr {
      assert k != gone;
      if k < gone { assert h.asks[k].addr != h.asks[gone].addr; } else { assert h.asks[gone].addr != h.asks[k].addr; }
    }
    AckLeaksNothing(q, h);
  }

  /** The acknowledged request leaves the heap, and no other. */
  lemma {:induction false} AckLeaksNothing(q: Queue, h: History)
    requires Shape(q) && Bookkeeping(h) && NoLeak(q, h) && h.acked < |h.order| && CanAck(q)
    requires AckOf(q).request == h.asks[h.order[h.acked].k].addr
    ensures NoLeak(AckStep(q), AfterAck(h))
  {
    hide Acked, AckOf, CanAck;
    var r, h', gone := AckStep(q), AfterAck(h), h.order[h.acked].k;
    AckedRequestIsThere(q);
    assert r.heap.Keys == q.heap.Keys - {AckOf(q).request};
    forall x | x in r.heap ensures OpenAt(h', x) {
      var k: nat :| Open(h, k) && h.asks[k].addr == x;
      StillOpen(h, k);
    }
  }

  lemma {:induction false} AckedRequestIsThere(q: Queue)
    requires Shape(q) && CanAck(q)
    ensures AckOf(q).request in q.heap
  {
  }

  lemma {:induction false} StillOpen(h: History, k: nat)
    requires Bookkeeping(h) && h.acked < |h.order| && Open(h, k) && k != h.order[h.acked].k
    ensures Open(AfterAck(h), k)
  {
  }

  /**
   What is on the heap are exactly the open requests, each once: every request leaves it with
   its own acknowledgement, and none is left when all are acknowledged.
   */
  lemma {:induction false} HeapIsOpenRequests(q: Queue, h: History, addr: nat)
    requires Inv(q, h)
    ensures addr in q.heap <==> OpenAt(h, addr)
    ensures |q.heap| == |h.asks| - h.acked
    ensures h.acked == |h.asks| ==> q.heap == map[]
  {
    hide Acked;
  }

  /** ack_used_idx equals used.idx exactly when nothing is left to acknowledge, whatever has wrapped. */
  lemma {:induction false} CaughtUp(q: Queue, h: History)
    requires Inv(q, h)
    ensures q.ack == q.usedIdx <==> h.acked == |h.order|
  {
    FewUnacked(h, []);
    WrapsApart(h.acked, |h.order|);
  }

  lemma {:induction false} WrapsApart(x: nat, y: nat)
    requires x <= y < x + WRAP
    ensures x % WRAP == y % WRAP <==> x == y
  {
  }

  // ---------------------------------------------------------------- whole runs

  /** Driver and device together: the queue, what happened, and the acknowledgements made so far. */
  datatype World = World(q: Queue, h: History, log: seq<Ack>)

  /** A submission, a completion by the device, or one acknowledgement by the interrupt handler. */
  datatype Step = SubmitStep(a: Ask) | CompleteStep(k: nat, status: nat) | AckStepTaken

  ghost predicate Enabled(w: World, s: Step)
  {
    match s
    case SubmitStep(a) => MaySubmit(w.q, w.h, a)
    case CompleteStep(k, _) => Open(w.h, k) && !Completed(w.h, k)
    case AckStepTaken => w.q.ack != w.q.usedIdx
  }

  ghost predicate Takes(w: World, s: Step, w': World)
  {
    && Shape(w.q)
    && (s.SubmitStep? ==> w' == World(Submit(w.q, s.a), AfterSubmit(w.h, s.a), w.log))
    && (s.CompleteStep? ==>
          w' == World(Complete(w.q, s.k % RING, s.status), AfterComplete(w.h, s.k, s.status), w.log))
    && (s.AckStepTaken? ==> CanAck(w.q) && w' == World(AckStep(w.q), AfterAck(w.h), w.log + [AckOf(w.q)]))
  }

  /** What acknowledging the j-th completion means: its own request, watcher and status. */
  function AckFor(h: History, j: nat): Ack
    requires j < |h.order| && h.order[j].k < |h.asks|
  {
    Ack(h.asks[h.order[j].k].addr, h.asks[h.order[j].k].watcher, h.order[j].status)
  }

  /** The acknowledgements are the completions, in order, each with its own request, watcher and status. */
  predicate LogMatches(w: World)
  {
    && |w.log| == w.h.acked <= |w.h.order|
    && (forall j :: 0 <= j < |w.log| ==> w.h.order[j].k < |w.h.asks| && w.log[j] == AckFor(w.h, j))
  }

  ghost predicate Safe(w: World) { Inv(w.q, w.h) && LogMatches(w) }

  ghost predicate IsRun(ws: seq<World>, steps: seq<Step>)
  {
    && |ws| == |steps| + 1
    && ws[0] == World(Start(), History([], [], 0), [])
    && forall i :: 0 <= i < |steps| ==> Enabled(ws[i], steps[i]) && Takes(ws[i], steps[i], ws[i + 1])
  }

  lemma {:induction false} StepKeepsSafe(w: World, s: Step, w': World)
    requires Safe(w) && Enabled(w, s) && Takes(w, s, w')
    ensures Safe(w')
  {
    hide Inv, Submit, Complete, AckStep, AckOf;
    match s {
      case SubmitStep(a) => SubmitKeepsInv(w.q, w.h, a);
      case CompleteStep(k, st) => CompleteKeepsInv(w.q, w.h, k, st);
      case AckStepTaken =>
        CaughtUp(w.q, w.h);
        AckIsOldestCompletion(w.q, w.h);
        AckKeepsInv(w.q, w.h);
        AckedIsAsked(w.q, w.h);
    }
  }

  lemma {:induction false} AckedIsAsked(q: Queue, h: History)
    requires Inv(q, h) && h.acked < |h.order|
    ensures h.order[h.acked].k < |h.asks|
  {
  }

  /** Every run of submissions, completions in any order and acknowledgements is safe throughout. */
  lemma {:induction false} RunIsSafe(ws: seq<World>, steps: seq<Step>, i: nat)
    requires IsRun(ws, steps) && i <= |steps|
    ensures Safe(ws[i])
  {
    if i == 0 {
      InvAtStart();
    } else {
      RunIsSafe(ws, steps, i - 1);
      StepKeepsSafe(ws[i - 1], steps[i - 1], ws[i]);
    }
  }

  /**
   A request that is no longer open was acknowledged exactly once, after the device had
   completed it: one entry of the log, with its address, its watcher and the status it got. It
   is no longer on the heap, unless a later request was given its address; as many requests
   have left the heap as there are entries in the log.
   */
  lemma {:induction false} AcknowledgedExactlyOnce(w: World, k: nat) returns (j: nat)
    requires Safe(w) && k < |w.h.asks| && !Open(w.h, k)
    ensures j < |w.log| && w.h.order[j].k == k
    ensures w.log[j] == Ack(w.h.asks[k].addr, w.h.asks[k].watcher, w.h.order[j].status)
    ensures forall i :: 0 <= i < |w.log| && i != j ==> w.h.order[i].k != k
    ensures w.h.asks[k].addr in w.q.heap <==> OpenAt(w.h, w.h.asks[k].addr)
    ensures |w.q.heap| == |w.h.asks| - |w.log|
  {
    HeapIsOpenRequests(w.q, w.h, w.h.asks[k].addr);
    j :| 0 <= j < |w.h.order| && j < w.h.acked && w.h.order[j].k == k;
  }

  /** While it is open its memory is still allocated; the acknowledgement is what frees it. */
  lemma {:induction false} OpenIsNotFreed(w: World, k: nat)
    requires Safe(w) && Open(w.h, k)
    ensures w.h.asks[k].addr in w.q.heap
    ensures forall j :: 0 <= j < |w.log| ==> w.h.order[j].k != k
  {
  }
}

/** block.rs: the driver's in-place updates of queue memory. */
module BlockDriver {
  import opened Virtqueue

  datatype BlockError = BlockDeviceNotFound | InvalidArgument | ReadOnly
  datatype Result = Ok(size: nat) | Err(error: BlockError)

  class BlockDevice {
    const readOnly: bool
    var idx: nat
    var ackUsedIdx: nat
    const desc: array<Desc>
    const availRing: array<nat>
    var availIdx: nat
    const usedRing: array<nat>
    var usedIdx: nat
    /** The requests that live on the kernel heap. */
    var requests: map<nat, Request>

    ghost function State(): Queue
      reads this, desc, availRing, usedRing
    {
      Queue(idx, ackUsedIdx, desc[..], availIdx, availRing[..], usedIdx, usedRing[..], requests)
    }

    ghost predicate Valid()
      reads this, desc, availRing, usedRing
    {
      Shape(State()) && availRing != usedRing && desc as object != availRing && desc as object != usedRing
    }

    constructor (readOnly: bool)
      ensures Valid() && State() == Start() && this.readOnly == readOnly
    {
      this.readOnly := readOnly;
      idx, ackUsedIdx, availIdx, usedIdx, requests := 0, 0, 0, 0, map[];
      desc := new Desc[RING](_ => Desc(0, 0, 0, 0));
      availRing := new nat[RING](_ => 0);
      usedRing := new nat[RING](_ => 0);
      new;
      assert desc[..] == Start().desc && availRing[..] == Start().avail && usedRing[..] == Start().used;
    }

    method FillNextDescriptor(d: Desc) returns (i: nat)
      requires Valid()
      modifies this`idx, desc
      ensures Valid() && State() == Push(old(State()), d) && i == idx
    {
      idx := (idx + 1) % RING;
      desc[idx] := d;
      if desc[idx].flags % 2 == 1 {
        desc[idx] := desc[idx].(next := (idx + 1) % RING);
      }
      return idx;
    }

    /** The queue half of block_op: a request, three descriptors, one slot of the available ring. */
    method Enqueue(a: Ask)
      requires Valid()
      modifies this`idx, this`availIdx, this`requests, desc, availRing
      ensures Valid() && State() == Submit(old(State()), a)
    {
      requests := requests[a.addr := NewRequest(a)];
      var head := FillNextDescriptor(HeadDesc(a));
      var data := FillNextDescriptor(DataDesc(a));
      var status := FillNextDescriptor(StatusDesc(a));
      availRing[availIdx % RING] := head;
      availIdx := (availIdx + 1) % WRAP;
    }

    /** pending: acknowledge everything in the used ring, freeing requests and reporting whom to wake. */
    method Pending(ghost h: History) returns (acks: seq<Ack>, ghost h': History)
      requires Valid() && Inv(State(), h)
      modifies this`ackUsedIdx, this`requests
      ensures Valid() && Inv(State(), h') && ackUsedIdx == usedIdx
      ensures h' == h.(acked := |h.order|)
      ensures h.acked + |acks| == |h.order| && AcksFrom(h, h.acked, acks)
      ensures requests == old(requests) - Freed(acks)
    {
      hide Inv, AckStep, AckOf, Freed, AcksFrom;
      acks, h' := [], h;
      FreedNone(requests);
      InvBounds(State(), h);
      AcksNone(h);
      CaughtUp(State(), h');
      while ackUsedIdx != usedIdx
        invariant Valid() && Inv(State(), h') && h' == h.(acked := h.acked + |acks|) && h'.acked <= |h.order|
        invariant ackUsedIdx == usedIdx <==> h'.acked == |h.order|
        invariant AcksFrom(h, h.acked, acks) && requests == old(requests) - Freed(acks)
        decreases |h.order| - h'.acked
      {
        AckIsOldestCompletion(State(), h');
        AckKeepsInv(State(), h');
        AckedIsAsked(State(), h');
        var ack := AckNext();
        h' := AfterAck(h');
        FreedNext(old(requests), acks, ack);
        AcksNext(h, h.acked, acks, ack);
        acks := acks + [ack];
        CaughtUp(State(), h');
      }
    }

    /** One turn of that loop. */
    method AckNext() returns (ack: Ack)
      requires Valid() && CanAck(State())
      modifies this`ackUsedIdx, this`requests
      ensures Valid() && ack == AckOf(old(State())) && State() == AckStep(old(State()))
      ensures ack.request in old(requests) && requests == old(requests) - {ack.request}
    {
      var id := usedRing[ackUsedIdx % RING];
      ackUsedIdx := (ackUsedIdx + 1) % WRAP;
      var rq := desc[id].addr;
      ack := Ack(rq, requests[rq].watcher, requests[rq].status);
      requests := requests - {rq};
    }
  }

  /** From descriptor i on there is the chain for a. */
  predicate ChainFrom(desc: seq<Desc>, i: nat, a: Ask)
  {
    && |desc| == 128 && i < 128 && HeaderFor(desc[i], a)
    && desc[i].next < 128 && DataFor(desc[desc[i].next], a)
    && desc[desc[i].next].next < 128 && StatusFor(desc[desc[desc[i].next].next], a)
  }

  /** What a submission leaves: the chain and its ring slot, the available index one further, and the request, its status unset. */
  lemma {:induction false} SubmitChain(q: Queue, a: Ask)
    requires Shape(q)
    ensures var r := Submit(q, a);
            && ChainFrom(r.desc, (q.idx + 1) % 128, a) && r.avail[q.availIdx % 128] == (q.idx + 1) % 128
            && r.availIdx == (q.availIdx + 1) % 0x1_0000
            && a.addr in r.heap && RequestFor(r.heap[a.addr], a) && r.heap[a.addr].status == 111
  {
    var i := Next(q.idx);
    assert i != Next(i) && i != Next(Next(i)) && Next(i) != Next(Next(i));
  }

  /** The requests given back by some acknowledgements. */
  function Freed(acks: seq<Ack>): set<nat> { set a | a in acks :: a.request }

  lemma {:induction false} FreedNone(m: map<nat, Request>)
    ensures m - Freed([]) == m
  {
  }

  lemma {:induction false} FreedNext(m: map<nat, Request>, acks: seq<Ack>, ack: Ack)
    ensures m - Freed(acks + [ack]) == m - Freed(acks) - {ack.request}
  {
    assert Freed(acks + [ack]) == Freed(acks) + {ack.request};
  }

  /** The acknowledgements of the completions from index `from` on. */
  predicate AcksFrom(h: History, from: nat, acks: seq<Ack>)
  {
    && from + |acks| <= |h.order|
    && forall i :: from <= i < from + |acks| ==> h.order[i].k < |h.asks| && acks[i - from] == AckFor(h, i)
  }

  lemma {:induction false} AcksNone(h: History)
    requires h.acked <= |h.order|
    ensures AcksFrom(h, h.acked, [])
  {
  }

  lemma {:induction false} AcksNext(h: History, from: nat, acks: seq<Ack>, ack: Ack)
    requires AcksFrom(h, from, acks) && from + |acks| < |h.order|
    requires h.order[from + |acks|].k < |h.asks| && ack == AckFor(h, from + |acks|)
    ensures AcksFrom(h, from, acks + [ack])
  {
  }

  lemma {:induction false} InvBounds(q: Queue, h: History)
    requires Inv(q, h)
    ensures h.acked <= |h.order|
  {
  }

  /** block_op; a.addr is what kmalloc returned for the request. */
  method BlockOp(bd: BlockDevice?, a: Ask) returns (r: Result)
    requires bd != null ==> bd.Valid()
    modifies if bd != null then {bd, bd.desc, bd.availRing} else {}
    ensures bd != null ==> bd.Valid()
    ensures r.Ok? <==> Accepts(bd != null, bd != null && bd.readOnly, a)
    ensures r.Ok? ==> bd != null && r.size == a.size && bd.State() == Submit(old(bd.State()), a)
    ensures r.Ok? ==> ChainFrom(bd.desc[..], (old(bd.idx) + 1) % 128, a) && RequestFor(bd.requests[a.addr], a)
    ensures r.Err? && bd != null ==> bd.State() == old(bd.State())
    ensures r.Err? ==>
              r.error == if bd == null then BlockDeviceNotFound else if bd.readOnly && a.write then ReadOnly else InvalidArgument
  {
    if bd == null {
      return Err(BlockDeviceNotFound);
    }
    if bd.readOnly && a.write {
      return Err(ReadOnly);
    }
    if a.size % 512 != 0 {
      return Err(InvalidArgument);
    }
    hide Submit, ChainFrom, RequestFor;
    SubmitChain(bd.State(), a);
    bd.Enqueue(a);
    return Ok(a.size);
  }
}
