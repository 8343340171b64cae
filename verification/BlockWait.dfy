/**
 Kernel processes, the scheduler and the block driver together: who waits for which request.
 Traps are atomic steps; the process that makes a system call is the one at the front of the
 list, and every system call ends in schedule (trap.rs, syscall.rs arms 10, 93, 180, 181).
 */
module BlockWait {
  import opened Processes
  import Q = Virtqueue

  /** stuck: the callers whose block calls the driver has rejected. */
  datatype Kernel = Kernel(list: seq<Process>, nextPid: nat, w: Q.World, readOnly: bool, stuck: set<nat>)

  function WaitingPids(l: seq<Process>): set<nat>
  {
    set p | p in l && p.state == Waiting :: p.pid
  }

  /** Request k is unacknowledged and names pid as its watcher. */
  predicate WatchedBy(h: Q.History, k: nat, pid: nat)
  {
    Q.Open(h, k) && h.asks[k].watcher == pid
  }

  /** The waiting processes are exactly the watchers of open requests, one request each, and the stuck ones. */
  ghost predicate WaitsMatch(l: seq<Process>, h: Q.History, stuck: set<nat>)
  {
    && (forall x :: x in WaitingPids(l) && x !in stuck ==> x > 0 && exists k :: WatchedBy(h, k, x))
    && (forall k: nat, x :: x > 0 && WatchedBy(h, k, x) ==> x in WaitingPids(l) && x !in stuck)
    && (forall j: nat, k: nat, x :: x > 0 && WatchedBy(h, j, x) && WatchedBy(h, k, x) ==> j == k)
    && stuck <= WaitingPids(l)
  }

  ghost predicate Good(s: Kernel)
  {
    && Q.Safe(s.w)
    && UniquePids(s.list, s.nextPid)
    && s.list != [] && s.list[0].state == Running
    && WaitsMatch(s.list, s.w.h, s.stuck)
  }

  // ---------------------------------------------------------------- the list under its operations

  lemma {:induction false} FindUnique(l: seq<Process>, nextPid: nat, i: nat)
    requires UniquePids(l, nextPid) && i < |l|
    ensures Find(l, l[i].pid) == i
  {
  }

  lemma {:induction false} WaitingIs(l: seq<Process>, x: nat)
    ensures x in WaitingPids(l) <==> exists i :: 0 <= i < |l| && l[i].pid == x && l[i].state == Waiting
  {
    if x in WaitingPids(l) {
      var p :| p in l && p.state == Waiting && p.pid == x;
      var i :| 0 <= i < |l| && l[i] == p;
    }
    if i :| 0 <= i < |l| && l[i].pid == x && l[i].state == Waiting {
      assert l[i] in l;
    }
  }

  lemma {:induction false} UpdateWaiting(l: seq<Process>, nextPid: nat, i: nat, p: Process)
    requires UniquePids(l, nextPid) && i < |l| && p.pid == l[i].pid
    ensures UniquePids(l[i := p], nextPid)
    ensures WaitingPids(l[i := p]) == if p.state == Waiting then WaitingPids(l) + {p.pid} else WaitingPids(l) - {p.pid}
  {
    var m := l[i := p];
    forall x ensures x in WaitingPids(m) <==>
      x in (if p.state == Waiting then WaitingPids(l) + {p.pid} else WaitingPids(l) - {p.pid})
    {
      WaitingIs(l, x);
      WaitingIs(m, x);
      if j :| 0 <= j < |l| && l[j].pid == x && l[j].state == Waiting { assert j == i || m[j] == l[j]; }
      if j :| 0 <= j < |m| && m[j].pid == x && m[j].state == Waiting { assert j == i || m[j] == l[j]; }
      if p.state == Waiting { assert m[i] == p; }
    }
  }

  lemma {:induction false} NotWaiting(l: seq<Process>, nextPid: nat, i: nat)
    requires UniquePids(l, nextPid) && i < |l| && l[i].state != Waiting
    ensures l[i].pid !in WaitingPids(l)
  {
    WaitingIs(l, l[i].pid);
    assert forall j :: 0 <= j < |l| && l[j].pid == l[i].pid ==> j == i;
  }

  lemma {:induction false} RotateKeeps(l: seq<Process>, nextPid: nat, k: nat)
    requires UniquePids(l, nextPid) && k <= |l|
    ensures UniquePids(Rotated(l, k), nextPid) && WaitingPids(Rotated(l, k)) == WaitingPids(l)
  {
    var r := Rotated(l, k);
    assert forall p :: p in r <==> p in l by { assert l == l[..k] + l[k..]; }
  }

  lemma {:induction false} ChooseKeeps(l: seq<Process>, nextPid: nat, clock: nat -> nat, k: nat)
    requires UniquePids(l, nextPid) && Picks(l, clock, k)
    ensures UniquePids(Chosen(l, k), nextPid) && WaitingPids(Chosen(l, k)) == WaitingPids(l)
  {
    var r := Rotated(l, Slot(|l|, k));
    RotateKeeps(l, nextPid, Slot(|l|, k));
    assert r[0] == At(l, k);
    UpdateWaiting(r, nextPid, 0, r[0].(state := Running));
    NotWaiting(r, nextPid, 0);
  }

  lemma {:induction false} DropFrontKeeps(l: seq<Process>, nextPid: nat)
    requires UniquePids(l, nextPid) && l != [] && l[0].state != Waiting
    ensures UniquePids(l[1..], nextPid) && WaitingPids(l[1..]) == WaitingPids(l)
  {
    var m := l[1..];
    assert forall p :: p in m ==> p in l;
    forall p | p in l && p.state == Waiting ensures p in m {
      var i :| 0 <= i < |l| && l[i] == p;
      assert m[i - 1] == p;
    }
  }

  lemma {:induction false} AppendKeeps(l: seq<Process>, nextPid: nat, p: Process)
    requires UniquePids(l, nextPid) && p.pid == nextPid > 0 && p.state == Running
    ensures UniquePids(l + [p], nextPid + 1) && WaitingPids(l + [p]) == WaitingPids(l)
  {
    var m := l + [p];
    forall q | q in m && q.state == Waiting ensures q in l { }
    assert forall q :: q in l ==> q in m;
  }

  // ---------------------------------------------------------------- who watches what

  lemma {:induction false} SubmitWatches(h: Q.History, a: Q.Ask, k: nat, x: nat)
    requires Q.Bookkeeping(h)
    ensures WatchedBy(Q.AfterSubmit(h, a), k, x) <==> WatchedBy(h, k, x) || (k == |h.asks| && a.watcher == x)
  {
    var h' := Q.AfterSubmit(h, a);
    assert Q.Acked(h', k) <==> Q.Acked(h, k) by {
      assert forall j :: 0 <= j < |h.order| ==> h'.order[j] == h.order[j];
    }
  }

  lemma {:induction false} CompleteWatches(h: Q.History, n: nat, st: nat, k: nat, x: nat)
    requires Q.Bookkeeping(h)
    ensures WatchedBy(Q.AfterComplete(h, n, st), k, x) <==> WatchedBy(h, k, x)
  {
    var h' := Q.AfterComplete(h, n, st);
    assert Q.Acked(h', k) <==> Q.Acked(h, k) by {
      assert forall j :: 0 <= j < |h.order| ==> h'.order[j] == h.order[j];
    }
  }

  lemma {:induction false} AckWatches(h: Q.History, k: nat, x: nat)
    requires Q.Bookkeeping(h) && h.acked < |h.order|
    ensures WatchedBy(Q.AfterAck(h), k, x) <==> WatchedBy(h, k, x) && k != h.order[h.acked].k
  {
    var h' := Q.AfterAck(h);
    assert Q.Acked(h', k) <==> Q.Acked(h, k) || k == h.order[h.acked].k by {
      assert h'.order == h.order;
      if Q.Acked(h, k) {
        var j :| 0 <= j < |h.order| && j < h.acked && h.order[j].k == k;
        assert h'.order[j].k == k;
      }
      if k == h.order[h.acked].k { assert h'.order[h.acked].k == k; }
    }
  }

  // ---------------------------------------------------------------- steps

  datatype Event =
    | BlockCall(present: bool, a: Q.Ask, clock: nat -> nat, turn: nat)
    | Exit(clock: nat -> nat, turn: nat)
    | Sleep(until: nat, clock: nat -> nat, turn: nat)
    | Yield(clock: nat -> nat, turn: nat)
    | Spawn(frame: nat)
    | Unwatched(a: Q.Ask)
    | Complete(k: nat, status: nat)
    | Interrupt

  /** The list right after the system call of the front process, before schedule. */
  function AfterCall(l: seq<Process>, e: Event): seq<Process>
    requires l != [] && (e.BlockCall? || e.Exit? || e.Sleep? || e.Yield?)
  {
    var pid := l[0].pid;
    match e
    case BlockCall(_, _, _, _) => SetState(l, pid, Waiting)
    case Exit(_, _) => Without(l, pid)
    case Sleep(until, _, _) => PutToSleep(l, pid, until)
    case _ => l
  }

  /** A system call of the front process, then schedule; time `clock`, success in turn `turn`. */
  ghost predicate Calls(s: Kernel, e: Event, clock: nat -> nat, turn: nat, s': Kernel)
    requires e.BlockCall? || e.Exit? || e.Sleep? || e.Yield?
  {
    && s.list != []
    && Picks(AfterCall(s.list, e), clock, turn)
    && s'.list == Chosen(AfterCall(s.list, e), turn) && s'.nextPid == s.nextPid
  }

  /** A block call of the front process that passes the checks of block_op. */
  predicate Accepted(s: Kernel, e: Event) { e.BlockCall? && Q.Accepts(e.present, s.readOnly, e.a) }

  /** One that does not: its caller will wait for no request. */
  predicate Rejected(s: Kernel, e: Event) { e.BlockCall? && !Q.Accepts(e.present, s.readOnly, e.a) }

  ghost predicate Next(s: Kernel, e: Event, s': Kernel)
  {
    && Q.Shape(s.w.q) && s'.readOnly == s.readOnly && s.list != []
    && s'.stuck == s.stuck + (if Rejected(s, e) then {s.list[0].pid} else {})
    && match e
       case BlockCall(_, a, clock, turn) =>
         && Calls(s, e, clock, turn, s') && a.watcher == s.list[0].pid
         && (if Accepted(s, e) then Q.Enabled(s.w, Q.SubmitStep(a)) && Q.Takes(s.w, Q.SubmitStep(a), s'.w) else s'.w == s.w)
       case Exit(clock, turn) => Calls(s, e, clock, turn, s') && s'.w == s.w
       case Sleep(_, clock, turn) => Calls(s, e, clock, turn, s') && s'.w == s.w
       case Yield(clock, turn) => Calls(s, e, clock, turn, s') && s'.w == s.w
       case Spawn(frame) => s'.list == s.list + [NewProcess(s.nextPid, frame)] && s'.nextPid == s.nextPid + 1 && s'.w == s.w
       case Unwatched(a) =>
         && a.watcher == 0 && s'.list == s.list && s'.nextPid == s.nextPid
         && Q.Enabled(s.w, Q.SubmitStep(a)) && Q.Takes(s.w, Q.SubmitStep(a), s'.w)
       case Complete(k, st) =>
         && s'.list == s.list && s'.nextPid == s.nextPid
         && Q.Enabled(s.w, Q.CompleteStep(k, st)) && Q.Takes(s.w, Q.CompleteStep(k, st), s'.w)
       case Interrupt =>
         && Q.Enabled(s.w, Q.AckStepTaken) && Q.Takes(s.w, Q.AckStepTaken, s'.w)
         && s'.nextPid == s.nextPid
         && s'.list == Wake(s.list, Q.AckOf(s.w.q))
  }

  /**
   set_running on the watcher of the request being acknowledged, and the request's status left
   in its register A0; watcher 0 means there is none.
   */
  function Wake(l: seq<Process>, ack: Q.Ack): (r: seq<Process>)
    ensures |r| == |l|
  {
    var i := Find(l, ack.watcher);
    if ack.watcher > 0 && i < |l| then l[i := l[i].(state := Running, a0 := ack.status)] else l
  }

  lemma {:induction false} SleepKeeps(l: seq<Process>, nextPid: nat, until: nat)
    requires UniquePids(l, nextPid) && l != [] && l[0].state == Running
    ensures UniquePids(PutToSleep(l, l[0].pid, until), nextPid)
    ensures WaitingPids(PutToSleep(l, l[0].pid, until)) == WaitingPids(l)
  {
    FindUnique(l, nextPid, 0);
    NotWaiting(l, nextPid, 0);
    UpdateWaiting(l, nextPid, 0, l[0].(state := Sleeping, sleepUntil := until));
  }

  lemma {:induction false} QuietCallKeepsWaits(l: seq<Process>, nextPid: nat, e: Event)
    requires UniquePids(l, nextPid) && l != [] && l[0].state == Running && (e.Exit? || e.Sleep? || e.Yield?)
    ensures UniquePids(AfterCall(l, e), nextPid) && WaitingPids(AfterCall(l, e)) == WaitingPids(l)
  {
    hide UniquePids, WaitingPids, Without, PutToSleep;
    if e.Exit? {
      DropFrontKeeps(l, nextPid);
      WithoutFirst(l);
    }
    if e.Sleep? { SleepKeeps(l, nextPid, e.until); }
  }

  lemma {:induction false} QuietCallKeepsGood(s: Kernel, e: Event, s': Kernel)
    requires Good(s) && Next(s, e, s') && (e.Exit? || e.Sleep? || e.Yield?)
    ensures Good(s')
  {
    hide Q.Safe, UniquePids, WaitingPids, AfterCall, Q.Enabled, Q.Takes;
    QuietCallKeepsWaits(s.list, s.nextPid, e);
    ChooseKeeps(AfterCall(s.list, e), s.nextPid, e.clock, e.turn);
  }

  lemma {:induction false} BlockCallKeepsGood(s: Kernel, e: Event, s': Kernel)
    requires Good(s) && Next(s, e, s') && e.BlockCall?
    ensures Good(s')
  {
    hide Q.Inv, Q.Submit, WaitsMatch, Picks, Chosen, Q.Accepts;
    var l, pid, h := AfterCall(s.list, e), s.list[0].pid, s.w.h;
    CallerWaits(s.list, s.nextPid);
    ChooseKeeps(l, s.nextPid, e.clock, e.turn);
    if Accepted(s, e) {
      Q.StepKeepsSafe(s.w, Q.SubmitStep(e.a), s'.w);
      SafeBooks(s.w);
      assert s'.stuck == s.stuck;
      SubmitKeepsMatch(s.list, s'.list, h, s.stuck, e.a, pid);
    } else {
      RejectKeepsMatch(s.list, s'.list, h, s.stuck, pid);
    }
  }

  lemma {:induction false} SafeBooks(w: Q.World)
    requires Q.Safe(w)
    ensures Q.Bookkeeping(w.h)
  {
  }

  lemma {:induction false} CallerWaits(l: seq<Process>, nextPid: nat)
    requires UniquePids(l, nextPid) && l != [] && l[0].state == Running
    ensures var m := SetState(l, l[0].pid, Waiting);
            UniquePids(m, nextPid) && WaitingPids(m) == WaitingPids(l) + {l[0].pid} && l[0].pid !in WaitingPids(l) && l[0].pid > 0
  {
    FindUnique(l, nextPid, 0);
    NotWaiting(l, nextPid, 0);
    UpdateWaiting(l, nextPid, 0, l[0].(state := Waiting));
  }

  /** A process that was waiting for nothing now waits for the request just submitted. */
  lemma {:induction false} SubmitKeepsMatch(l: seq<Process>, l': seq<Process>, h: Q.History, stuck: set<nat>, a: Q.Ask, pid: nat)
    requires WaitsMatch(l, h, stuck) && Q.Bookkeeping(h) && pid > 0 && a.watcher == pid && pid !in WaitingPids(l)
    requires WaitingPids(l') == WaitingPids(l) + {pid}
    ensures WaitsMatch(l', Q.AfterSubmit(h, a), stuck)
  {
    hide WaitingPids, WatchedBy;
    var h' := Q.AfterSubmit(h, a);
    forall k: nat, x ensures WatchedBy(h', k, x) <==> WatchedBy(h, k, x) || (k == |h.asks| && a.watcher == x) {
      SubmitWatches(h, a, k, x);
    }
    forall x | x in WaitingPids(l') && x !in stuck ensures x > 0 && exists k :: WatchedBy(h', k, x) {
      if x == pid {
        assert WatchedBy(h', |h.asks|, x);
      } else {
        var k :| WatchedBy(h, k, x);
        assert WatchedBy(h', k, x);
      }
    }
  }

  /** A process that was waiting for nothing is stuck. */
  lemma {:induction false} RejectKeepsMatch(l: seq<Process>, l': seq<Process>, h: Q.History, stuck: set<nat>, pid: nat)
    requires WaitsMatch(l, h, stuck) && pid !in WaitingPids(l)
    requires WaitingPids(l') == WaitingPids(l) + {pid}
    ensures WaitsMatch(l', h, stuck + {pid})
  {
    hide WaitingPids, WatchedBy;
  }

  /** The same waits and the same watched requests. */
  lemma {:induction false} SameMatch(l: seq<Process>, l': seq<Process>, h: Q.History, h': Q.History, stuck: set<nat>)
    requires WaitsMatch(l, h, stuck) && WaitingPids(l') == WaitingPids(l)
    requires forall k: nat, x: nat :: x > 0 ==> (WatchedBy(h', k, x) <==> WatchedBy(h, k, x))
    ensures WaitsMatch(l', h', stuck)
  {
    forall x | x in WaitingPids(l') && x !in stuck ensures x > 0 && exists k :: WatchedBy(h', k, x) {
      var k :| WatchedBy(h, k, x);
      assert WatchedBy(h', k, x);
    }
  }

  lemma {:induction false} DeviceStepKeepsGood(s: Kernel, e: Event, s': Kernel)
    requires Good(s) && Next(s, e, s') && (e.Unwatched? || e.Complete? || e.Spawn?)
    ensures Good(s')
  {
    hide Q.NoLeak, Q.Chains, Q.UsedRing, Q.OnHeap, Q.Apart, Q.Window;
    var h, h' := s.w.h, s'.w.h;
    if e.Spawn? {
      AppendKeeps(s.list, s.nextPid, NewProcess(s.nextPid, e.frame));
    } else if e.Unwatched? {
      Q.StepKeepsSafe(s.w, Q.SubmitStep(e.a), s'.w);
      forall k: nat, x: nat | x > 0 ensures WatchedBy(h', k, x) <==> WatchedBy(h, k, x) { SubmitWatches(h, e.a, k, x); }
    } else {
      Q.StepKeepsSafe(s.w, Q.CompleteStep(e.k, e.status), s'.w);
      forall k: nat, x: nat | x > 0 ensures WatchedBy(h', k, x) <==> WatchedBy(h, k, x) {
        CompleteWatches(h, e.k, e.status, k, x);
      }
    }
    SameMatch(s.list, s'.list, h, h', s.stuck);
  }

  /**
   The watcher named by the request being acknowledged is still in the list, and Waiting: the
   pointer that pending dereferences after get_by_pid is never null.
   */
  lemma {:induction false} PendingFindsProcess(s: Kernel)
    requires Good(s) && s.w.q.ack != s.w.q.usedIdx
    ensures Q.CanAck(s.w.q)
    ensures var pid := Q.AckOf(s.w.q).watcher;
            pid > 0 ==> Find(s.list, pid) < |s.list| && s.list[Find(s.list, pid)].state == Waiting
  {
    hide Q.NoLeak, Q.Chains, Q.UsedRing, Q.OnHeap, Q.Apart, Q.Window;
    var q, h := s.w.q, s.w.h;
    Q.CaughtUp(q, h);
    Q.AckIsOldestCompletion(q, h);
    Q.UnackedIsOpen(h, h.acked);
    var k, pid := h.order[h.acked].k, Q.AckOf(q).watcher;
    if pid > 0 {
      assert WatchedBy(h, k, pid);
      WaitingIs(s.list, pid);
      var i :| 0 <= i < |s.list| && s.list[i].pid == pid && s.list[i].state == Waiting;
      FindUnique(s.list, s.nextPid, i);
    }
  }

  /** Acknowledging the only request a process waits for wakes that process and no other. */
  lemma {:induction false} AckKeepsMatch(l: seq<Process>, l': seq<Process>, h: Q.History, stuck: set<nat>, pid: nat)
    requires WaitsMatch(l, h, stuck) && Q.Bookkeeping(h) && h.acked < |h.order|
    requires WatchedBy(h, h.order[h.acked].k, pid)
    requires WaitingPids(l') == WaitingPids(l) - (if pid > 0 then {pid} else {})
    ensures WaitsMatch(l', Q.AfterAck(h), stuck)
  {
    var h', gone := Q.AfterAck(h), h.order[h.acked].k;
    forall k: nat, x ensures WatchedBy(h', k, x) <==> WatchedBy(h, k, x) && k != gone { AckWatches(h, k, x); }
    forall x | x in WaitingPids(l') && x !in stuck ensures x > 0 && exists k :: WatchedBy(h', k, x) {
      var k :| WatchedBy(h, k, x);
      assert k != gone;
      assert WatchedBy(h', k, x);
    }
  }

  lemma {:induction false} InterruptKeepsGood(s: Kernel, s': Kernel)
    requires Good(s) && Next(s, Interrupt, s')
    ensures Good(s')
  {
    hide Q.NoLeak, Q.Chains, Q.UsedRing, Q.OnHeap, Q.Apart, Q.Window;
    var q, h := s.w.q, s.w.h;
    Q.StepKeepsSafe(s.w, Q.AckStepTaken, s'.w);
    PendingFindsProcess(s);
    Q.CaughtUp(q, h);
    Q.AckIsOldestCompletion(q, h);
    Q.UnackedIsOpen(h, h.acked);
    var pid := Q.AckOf(q).watcher;
    if pid > 0 {
      var i := Find(s.list, pid);
      UpdateWaiting(s.list, s.nextPid, i, s.list[i].(state := Running, a0 := Q.AckOf(q).status));
    }
    AckKeepsMatch(s.list, s'.list, h, s.stuck, pid);
  }

  lemma {:induction false} NextKeepsGood(s: Kernel, e: Event, s': Kernel)
    requires Good(s) && Next(s, e, s')
    ensures Good(s')
  {
    hide Good, Next;
    match e {
      case BlockCall(_, _, _, _) => BlockCallKeepsGood(s, e, s');
      case Exit(_, _) => QuietCallKeepsGood(s, e, s');
      case Sleep(_, _, _) => QuietCallKeepsGood(s, e, s');
      case Yield(_, _) => QuietCallKeepsGood(s, e, s');
      case Spawn(_) => DeviceStepKeepsGood(s, e, s');
      case Unwatched(_) => DeviceStepKeepsGood(s, e, s');
      case Complete(_, _) => DeviceStepKeepsGood(s, e, s');
      case Interrupt => InterruptKeepsGood(s, s');
    }
  }

  // ---------------------------------------------------------------- whole runs

  /** process::init: the init process, alone and running, and an idle device. */
  ghost predicate Initial(s: Kernel)
  {
    && |s.list| == 1 && s.list[0].pid == 1 && s.list[0].state == Running && s.nextPid == 2
    && s.w == Q.World(Q.Start(), Q.History([], [], 0), []) && s.stuck == {}
  }

  ghost predicate IsRun(ss: seq<Kernel>, es: seq<Event>)
  {
    |ss| == |es| + 1 && Initial(ss[0]) && forall i :: 0 <= i < |es| ==> Next(ss[i], es[i], ss[i + 1])
  }

  /**
   In every state of every run, the waiting processes are exactly the watchers of the
   unacknowledged requests, each of exactly one.
   */
  lemma {:induction false} RunIsGood(ss: seq<Kernel>, es: seq<Event>, i: nat)
    requires IsRun(ss, es) && i <= |es|
    ensures Good(ss[i])
  {
    hide Q.Inv, Next, WaitsMatch;
    if i == 0 {
      Q.InvAtStart();
      InitialGood(ss[0]);
    } else {
      RunIsGood(ss, es, i - 1);
      NextKeepsGood(ss[i - 1], es[i - 1], ss[i]);
    }
  }

  lemma {:induction false} InitialGood(s: Kernel)
    requires Initial(s) && Q.Safe(s.w)
    ensures Good(s)
  {
    assert WaitingPids(s.list) == {};
  }

  /** A waiting process whose calls were accepted waits for exactly one open request. */
  lemma {:induction false} WaitsForExactlyOne(s: Kernel, i: nat) returns (k: nat)
    requires Good(s) && i < |s.list| && s.list[i].state == Waiting && s.list[i].pid !in s.stuck
    ensures WatchedBy(s.w.h, k, s.list[i].pid)
    ensures forall j: nat :: WatchedBy(s.w.h, j, s.list[i].pid) ==> j == k
  {
    WaitingIs(s.list, s.list[i].pid);
    k :| WatchedBy(s.w.h, k, s.list[i].pid);
  }

  // ---------------------------------------------------------------- rejected calls

  /** The history after the arm for 180 or 181. */
  function HistoryAfter(s: Kernel, e: Event): Q.History
    requires e.BlockCall?
  {
    if Accepted(s, e) then Q.AfterSubmit(s.w.h, e.a) else s.w.h
  }

  /**
   The arms for 180 and 181 set the caller waiting before block_op looks at its arguments and
   ignore its answer. So the waiting processes are again exactly the watchers of open requests
   exactly when the device is there, is not to be written while read-only, and the size is a
   multiple of 512.
   */
  lemma {:induction false} CallMatchesIffAccepted(s: Kernel, e: Event)
    requires Good(s) && e.BlockCall? && e.a.watcher == s.list[0].pid
    ensures WaitsMatch(AfterCall(s.list, e), HistoryAfter(s, e), s.stuck)
            <==> e.present && !(s.readOnly && e.a.write) && e.a.size % 512 == 0
  {
    hide WaitsMatch, UniquePids, Q.Inv;
    var pid := s.list[0].pid;
    var l := AfterCall(s.list, e);
    CallerWaits(s.list, s.nextPid);
    if Accepted(s, e) {
      SafeBooks(s.w);
      SubmitKeepsMatch(s.list, l, s.w.h, s.stuck, e.a, pid);
    } else {
      NoMatchWhenRejected(s.list, l, s.w.h, s.stuck, pid);
    }
  }

  lemma {:induction false} NoMatchWhenRejected(l: seq<Process>, l': seq<Process>, h: Q.History, stuck: set<nat>, pid: nat)
    requires WaitsMatch(l, h, stuck) && pid > 0 && pid !in WaitingPids(l) && pid in WaitingPids(l')
    ensures !WaitsMatch(l', h, stuck)
  {
    assert forall k: nat :: !WatchedBy(h, k, pid);
  }

  /** For instance a read of 100 bytes by the only process there is: it waits, and nothing was asked for. */
  lemma {:induction false} RejectedRead(s: Kernel, addr: nat, buffer: nat, offset: nat, clock: nat -> nat, turn: nat)
    requires Initial(s)
    ensures var e := BlockCall(true, Q.Ask(addr, buffer, 100, offset, false, 1), clock, turn);
            && Rejected(s, e) && HistoryAfter(s, e) == s.w.h
            && 1 in WaitingPids(AfterCall(s.list, e)) && !WaitsMatch(AfterCall(s.list, e), HistoryAfter(s, e), {})
  {
    hide Q.Inv;
    Q.InvAtStart();
    InitialGood(s);
    var e := BlockCall(true, Q.Ask(addr, buffer, 100, offset, false, 1), clock, turn);
    CallMatchesIffAccepted(s, e);
    CallerWaits(s.list, s.nextPid);
  }

  /** A rejected caller waits in every continuation of the run. */
  lemma {:induction false} RejectedWaitsForever(ss: seq<Kernel>, es: seq<Event>, i: nat, j: nat)
    requires IsRun(ss, es) && i < j <= |es| && Rejected(ss[i], es[i])
    ensures Good(ss[i])
    ensures var pid := ss[i].list[0].pid;
            pid in ss[j].stuck && Find(ss[j].list, pid) < |ss[j].list| && ss[j].list[Find(ss[j].list, pid)].state == Waiting
  {
    hide Good, Next, Rejected;
    RunIsGood(ss, es, i);
    RunIsGood(ss, es, j);
    assert Next(ss[i], es[i], ss[i + 1]);
    StuckAfterReject(ss[i], es[i], ss[i + 1]);
    StuckGrows(ss, es, i + 1, j);
    StuckIsWaiting(ss[j], ss[i].list[0].pid);
  }

  lemma {:induction false} StuckAfterReject(s: Kernel, e: Event, s': Kernel)
    requires Next(s, e, s')
    ensures s.list != [] && s'.stuck == s.stuck + (if Rejected(s, e) then {s.list[0].pid} else {})
  {
  }

  lemma {:induction false} StuckGrows(ss: seq<Kernel>, es: seq<Event>, i: nat, j: nat)
    requires IsRun(ss, es) && i <= j <= |es|
    ensures ss[i].stuck <= ss[j].stuck
    decreases j - i
  {
    hide Next, Rejected;
    if i < j {
      assert Next(ss[i], es[i], ss[i + 1]);
      StuckAfterReject(ss[i], es[i], ss[i + 1]);
      StuckGrows(ss, es, i + 1, j);
    }
  }

  lemma {:induction false} StuckIsWaiting(s: Kernel, pid: nat)
    requires Good(s) && pid in s.stuck
    ensures Find(s.list, pid) < |s.list| && s.list[Find(s.list, pid)].state == Waiting
  {
    WaitingIs(s.list, pid);
    var i :| 0 <= i < |s.list| && s.list[i].pid == pid && s.list[i].state == Waiting;
    FindUnique(s.list, s.nextPid, i);
  }

  /** x waits, and no open request names it. */
  ghost predicate WaitsForNothing(s: Kernel, x: nat)
  {
    x in WaitingPids(s.list) && forall k: nat :: !WatchedBy(s.w.h, k, x)
  }

  /** In every state of every run, nobody waits for nothing exactly as long as no call has been rejected. */
  lemma {:induction false} NobodyStuckIff(ss: seq<Kernel>, es: seq<Event>, i: nat)
    requires IsRun(ss, es) && i <= |es|
    ensures (forall x :: !WaitsForNothing(ss[i], x)) <==> forall j :: 0 <= j < i ==> !Rejected(ss[j], es[j])
  {
    hide Next, Rejected, Good, WaitsForNothing;
    RunIsGood(ss, es, i);
    StuckAreRejected(ss, es, i);
    forall x ensures WaitsForNothing(ss[i], x) <==> x in ss[i].stuck { StuckWaitForNothing(ss[i], x); }
    if ss[i].stuck != {} {
      var x :| x in ss[i].stuck;
      assert WaitsForNothing(ss[i], x);
    }
  }

  lemma {:induction false} StuckWaitForNothing(s: Kernel, x: nat)
    requires Good(s)
    ensures WaitsForNothing(s, x) <==> x in s.stuck
  {
    if x in s.stuck {
      WaitingIs(s.list, x);
      assert x > 0;
    }
  }

  lemma {:induction false} StuckAreRejected(ss: seq<Kernel>, es: seq<Event>, i: nat)
    requires IsRun(ss, es) && i <= |es|
    ensures ss[i].stuck == {} <==> forall j :: 0 <= j < i ==> !Rejected(ss[j], es[j])
  {
    hide Next, Rejected;
    if i > 0 {
      StuckAreRejected(ss, es, i - 1);
      assert Next(ss[i - 1], es[i - 1], ss[i]);
      StuckAfterReject(ss[i - 1], es[i - 1], ss[i]);
    }
  }

  /** An acknowledgement wakes the request's own watcher, with the status the device gave it, and touches nobody else. */
  lemma {:induction false} WokenWithOwnStatus(s: Kernel, s': Kernel, i: nat)
    requires Good(s) && Next(s, Interrupt, s') && i < |s.list|
    ensures s.w.h.acked < |s.w.h.order| && s.w.h.order[s.w.h.acked].k < |s.w.h.asks|
    ensures var done := s.w.h.order[s.w.h.acked];
            |s'.list| == |s.list| &&
            s'.list[i] == if s.list[i].pid == s.w.h.asks[done.k].watcher
                          then s.list[i].(state := Running, a0 := done.status) else s.list[i]
  {
    hide Q.AckStep, Q.NoLeak, Q.Chains, Q.UsedRing, Q.OnHeap, Q.Apart, Q.Window;
    Q.CaughtUp(s.w.q, s.w.h);
    Q.AckIsOldestCompletion(s.w.q, s.w.h);
    Q.AckedIsAsked(s.w.q, s.w.h);
    FindUnique(s.list, s.nextPid, i);
  }
}
