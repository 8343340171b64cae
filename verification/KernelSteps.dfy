/**
 The code behind the steps of BlockWait: the system-call arms for block calls, exit and sleep,
 and the block interrupt, run on the process list and the device in place. Each is shown to
 take exactly the step the protocol allows, so everything proved of runs applies to it.
 */
module KernelSteps {
  import opened Processes
  import opened BlockDriver
  import opened BlockWait
  import Q = Virtqueue

  class Machine {
    const procs: ProcessList
    const dev: BlockDevice
    /** What has happened on the queue so far, and the acknowledgements made. */
    ghost var h: Q.History
    ghost var log: seq<Q.Ack>
    /** The callers whose block calls were rejected. */
    ghost var stuck: set<nat>

    ghost function View(): Kernel
      reads this, procs, dev, dev.desc, dev.availRing, dev.usedRing
    {
      Kernel(procs.list, procs.nextPid, Q.World(dev.State(), h, log), dev.readOnly, stuck)
    }

    ghost predicate Valid()
      reads this, procs, dev, dev.desc, dev.availRing, dev.usedRing
    {
      dev.Valid() && Good(View())
    }

    /** process::init and a fresh block device. */
    constructor (initFrame: nat, readOnly: bool)
      ensures Valid() && Initial(View()) && dev.readOnly == readOnly
    {
      var p := new ProcessList();
      var pid := p.AddKernelProcess(initFrame);
      procs := p;
      dev := new BlockDevice(readOnly);
      h, log, stuck := Q.History([], [], 0), [], {};
      new;
      Q.InvAtStart();
      InitialGood(View());
    }

    /**
     The arms for system calls 180 (read) and 181 (write), with the device named by the caller
     there or not. Afterwards waits and requests match exactly when block_op's checks pass.
     */
    method BlockArm(present: bool, a: Q.Ask)
      requires Valid() && a.watcher == procs.list[0].pid && (Q.Accepts(present, dev.readOnly, a) ==> Q.MaySubmit(dev.State(), h, a))
      modifies this, procs, dev, dev.desc, dev.availRing
      ensures dev.Valid() && procs.list == SetState(old(procs.list), a.watcher, Waiting) && procs.nextPid == old(procs.nextPid)
      ensures var ok := Q.Accepts(present, dev.readOnly, a);
              && dev.State() == (if ok then Q.Submit(old(dev.State()), a) else old(dev.State()))
              && h == (if ok then Q.AfterSubmit(old(h), a) else old(h))
              && stuck == (if ok then old(stuck) else old(stuck) + {a.watcher})
      ensures log == old(log)
      ensures WaitsMatch(procs.list, h, old(stuck)) <==> present && !(dev.readOnly && a.write) && a.size % 512 == 0
    {
      hide Q.Inv, Q.Submit, WaitsMatch, UniquePids;
      CallMatchesIffAccepted(View(), Event.BlockCall(present, a, n => n, 1));
      var found := procs.Mark(procs.list[0].pid, Waiting);
      var bd: BlockDevice? := if present then dev else null;
      var r := BlockOp(bd, a);
      if r.Ok? {
        h := Q.AfterSubmit(h, a);
      } else {
        stuck := stuck + {a.watcher};
      }
    }

    /** A block call, accepted or not, then schedule. */
    method BlockCall(present: bool, a: Q.Ask, clock: nat -> nat) returns (frame: nat, ghost turn: nat)
      requires Valid() && a.watcher == procs.list[0].pid && (Q.Accepts(present, dev.readOnly, a) ==> Q.MaySubmit(dev.State(), h, a))
      requires Ticks(clock) && SomeAwaits(SetState(procs.list, procs.list[0].pid, Waiting))
      modifies this, procs, dev, dev.desc, dev.availRing
      ensures Valid() && Next(old(View()), Event.BlockCall(present, a, clock, turn), View()) && frame == procs.list[0].frame
    {
      hide Q.Inv, Q.Submit, Q.Accepts, WaitsMatch, UniquePids, Picks, Chosen;
      ghost var s := View();
      BlockArm(present, a);
      frame, turn := procs.Schedule(false, clock);
      NextKeepsGood(s, Event.BlockCall(present, a, clock, turn), View());
    }

    /** System call 93, and a fault of the running process: it leaves the list. */
    method ExitCall(clock: nat -> nat) returns (frame: nat, ghost turn: nat)
      requires Valid() && Ticks(clock) && SomeAwaits(Without(procs.list, procs.list[0].pid))
      modifies procs
      ensures Valid() && Next(old(View()), Event.Exit(clock, turn), View()) && frame == procs.list[0].frame
    {
      hide Q.Inv, WaitsMatch, UniquePids, Picks, Chosen;
      ghost var s := View();
      procs.DeleteProcess(procs.list[0].pid);
      frame, turn := procs.Schedule(false, clock);
      NextKeepsGood(s, Event.Exit(clock, turn), View());
    }

    /** System call 10: the running process sleeps. */
    method SleepCall(now: nat, duration: nat, clock: nat -> nat) returns (frame: nat, ghost turn: nat)
      requires Valid() && Ticks(clock)
      modifies procs
      ensures Valid() && Next(old(View()), Event.Sleep(now + duration, clock, turn), View()) && frame == procs.list[0].frame
    {
      hide Q.Inv, WaitsMatch, UniquePids, Picks, Chosen;
      ghost var s := View();
      SleeperAwaits(procs.list, now + duration);
      var found := procs.SetSleeping(procs.list[0].pid, now, duration);
      frame, turn := procs.Schedule(false, clock);
      NextKeepsGood(s, Event.Sleep(now + duration, clock, turn), View());
    }

    /**
     The block interrupt: every completion is acknowledged, each watcher is found in the list,
     waiting, before it is made running with its request's status in A0, and no other process
     is touched.
     */
    method HandleInterrupt()
      requires Valid()
      modifies this, procs, dev
      ensures Valid() && dev.ackUsedIdx == dev.usedIdx && h == old(h).(acked := |old(h).order|) && stuck == old(stuck)
      ensures Woken(old(procs.list), procs.list, old(h), |old(h).order|)
    {
      hide Good, Woken;
      InvOf(View());
      WokenNone(procs.list, h);
      while dev.ackUsedIdx != dev.usedIdx
        invariant Valid() && h.acked <= |h.order| && h == old(h).(acked := h.acked) && old(h).acked <= h.acked
        invariant dev.ackUsedIdx == dev.usedIdx <==> h.acked == |h.order|
        invariant Woken(old(procs.list), procs.list, old(h), h.acked) && stuck == old(stuck)
        decreases |h.order| - h.acked
      {
        ghost var s := View();
        AcknowledgeOne();
        WokenNext(old(View()), s, View());
        InvOf(View());
      }
    }

    method AcknowledgeOne()
      requires Valid() && dev.ackUsedIdx != dev.usedIdx
      modifies this, procs, dev
      ensures Valid() && Next(old(View()), Interrupt, View()) && h == Q.AfterAck(old(h)) && stuck == old(stuck)
    {
      hide Q.Inv, WaitsMatch, UniquePids, Q.AckOf, Q.AckStep, SetState, Present;
      ghost var s := View();
      PendingFindsProcess(s);
      var ack := dev.AckNext();
      if ack.watcher > 0 {
        MarkThenStore(procs.list, ack);
        var found := procs.Mark(ack.watcher, Running);
        assert found;
        procs.StoreA0(ack.watcher, ack.status);
      }
      h, log := Q.AfterAck(h), log + [ack];
      assert procs.list == Wake(s.list, ack) && stuck == s.stuck + {};
      NextKeepsGood(s, Interrupt, View());
    }
  }

  /** set_running, then the store through get_by_pid: both find the same process. */
  lemma {:induction false} MarkThenStore(l: seq<Process>, ack: Q.Ack)
    requires ack.watcher > 0 && Find(l, ack.watcher) < |l|
    ensures var m, i := SetState(l, ack.watcher, Running), Find(l, ack.watcher);
            && Present(l, ack.watcher) && Present(m, ack.watcher) && Find(m, ack.watcher) == i
            && m[i := m[i].(a0 := ack.status)] == Wake(l, ack)
  {
    var m, i := SetState(l, ack.watcher, Running), Find(l, ack.watcher);
    assert m[i].pid == ack.watcher && l[i].pid == ack.watcher;
    assert forall j :: 0 <= j < i ==> m[j] == l[j];
  }

  /** A clock that goes on for ever. */
  ghost predicate Ticks(clock: nat -> nat) { Monotone(clock) && Unbounded(clock) }

  lemma {:induction false} SleeperAwaits(l: seq<Process>, until: nat)
    requires l != []
    ensures SomeAwaits(PutToSleep(l, l[0].pid, until))
  {
    var m := PutToSleep(l, l[0].pid, until);
    assert m[Find(l, l[0].pid)].state == Sleeping;
  }

  /** Completion j, before n, is of a request that p watches. */
  predicate DoneFor(p: Process, h: Q.History, j: nat, n: nat)
  {
    h.acked <= j < n <= |h.order| && h.order[j].k < |h.asks| && h.asks[h.order[j].k].watcher == p.pid
  }

  /**
   What becomes of a process when the completions up to n are acknowledged: if it watches one
   of them it runs, with its status in A0; otherwise it is as before.
   */
  ghost predicate WokenAt(p: Process, q: Process, h: Q.History, n: nat)
  {
    && (forall j: nat :: DoneFor(p, h, j, n) ==> q == p.(state := Running, a0 := h.order[j].status))
    && ((forall j: nat :: !DoneFor(p, h, j, n)) ==> q == p)
  }

  ghost predicate Woken(l: seq<Process>, m: seq<Process>, h: Q.History, n: nat)
  {
    |m| == |l| && forall i :: 0 <= i < |l| ==> WokenAt(l[i], m[i], h, n)
  }

  lemma {:induction false} WokenNone(l: seq<Process>, h: Q.History)
    ensures Woken(l, l, h, h.acked)
  {
  }

  /** One more acknowledgement; since nobody watches two open requests, nobody is woken twice. */
  lemma {:induction false} WokenNext(s0: Kernel, s: Kernel, s': Kernel)
    requires Good(s0) && Good(s) && Next(s, Interrupt, s')
    requires s.w.h == s0.w.h.(acked := s.w.h.acked) && s0.w.h.acked <= s.w.h.acked
    requires Woken(s0.list, s.list, s0.w.h, s.w.h.acked)
    ensures Woken(s0.list, s'.list, s0.w.h, s.w.h.acked + 1)
  {
    hide Good, Next, WokenAt;
    var n := s.w.h.acked;
    SameLength(s, s');
    forall i | 0 <= i < |s0.list| ensures WokenAt(s0.list[i], s'.list[i], s0.w.h, n + 1) {
      WokenWithOwnStatus(s, s', i);
      WokenAtNext(s0, i, s.list[i], s'.list[i], n, n + 1);
    }
  }

  lemma {:induction false} SameLength(s: Kernel, s': Kernel)
    requires Next(s, Interrupt, s')
    ensures |s'.list| == |s.list|
  {
  }

  lemma {:induction false} WokenAtNext(s: Kernel, i: nat, q: Process, q': Process, n: nat, n': nat)
    requires Good(s) && n' == n + 1 && i < |s.list| && s.w.h.acked <= n < |s.w.h.order| && s.w.h.order[n].k < |s.w.h.asks|
    requires WokenAt(s.list[i], q, s.w.h, n)
    requires q' == if q.pid == s.w.h.asks[s.w.h.order[n].k].watcher
                   then q.(state := Running, a0 := s.w.h.order[n].status) else q
    ensures WokenAt(s.list[i], q', s.w.h, n')
  {
    hide Q.Chains, Q.UsedRing, Q.OnHeap, Q.Apart, Q.Acked, WaitingPids;
    var p, h := s.list[i], s.w.h;
    assert q.pid == p.pid;
    forall j: nat ensures DoneFor(p, h, j, n') <==> DoneFor(p, h, j, n) || (j == n && h.asks[h.order[n].k].watcher == p.pid) { }
    if h.asks[h.order[n].k].watcher == p.pid {
      Q.UnackedIsOpen(h, n);
      assert WatchedBy(h, h.order[n].k, p.pid);
      forall j: nat ensures DoneFor(p, h, j, n) ==> WatchedBy(h, h.order[j].k, p.pid) {
        if DoneFor(p, h, j, n) { Q.UnackedIsOpen(h, j); }
      }
      assert forall j: nat :: !DoneFor(p, h, j, n);
      assert q == p && DoneFor(p, h, n, n');
    } else if j: nat :| DoneFor(p, h, j, n) {
      assert DoneFor(p, h, j, n');
    }
  }

  lemma {:induction false} InvOf(s: Kernel)
    requires Good(s)
    ensures s.w.h.acked <= |s.w.h.order|
    ensures s.w.q.ack == s.w.q.usedIdx <==> s.w.h.acked == |s.w.h.order|
  {
    Q.CaughtUp(s.w.q, s.w.h);
  }
}
