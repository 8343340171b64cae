/**
 The process list of process.rs and the round-robin scheduler of sched.rs. A process is found
 by the first entry that carries its PID, as the search loops of the original do.
 */
module Processes {
  datatype RunState = Running | Sleeping | Waiting | Dead

  /** frame: where the trap frame is; a0: its register A0, in which a system call's answer is left. */
  datatype Process = Process(pid: nat, state: RunState, sleepUntil: nat, frame: nat, a0: nat)

  function NewProcess(pid: nat, frame: nat): Process { Process(pid, Running, 0, frame, 0) }

  /** The position of the first process with a PID, or |l|. */
  function Find(l: seq<Process>, pid: nat): (i: nat)
    ensures i <= |l|
    ensures i < |l| ==> l[i].pid == pid
    ensures forall j :: 0 <= j < i ==> l[j].pid != pid
  {
    if l == [] then 0 else if l[0].pid == pid then 0 else 1 + Find(l[1..], pid)
  }

  function SetState(l: seq<Process>, pid: nat, state: RunState): (r: seq<Process>)
    ensures |r| == |l|
  {
    var i := Find(l, pid);
    if i < |l| then l[i := l[i].(state := state)] else l
  }

  function PutToSleep(l: seq<Process>, pid: nat, until: nat): (r: seq<Process>)
    ensures |r| == |l|
  {
    var i := Find(l, pid);
    if i < |l| then l[i := l[i].(state := Sleeping, sleepUntil := until)] else l
  }

  /** Entry i is the first with this PID. */
  predicate IsFirst(l: seq<Process>, pid: nat, i: nat)
  {
    i < |l| && l[i].pid == pid && forall j :: 0 <= j < i ==> l[j].pid != pid
  }

  predicate Present(l: seq<Process>, pid: nat) { exists i :: 0 <= i < |l| && l[i].pid == pid }

  function Without(l: seq<Process>, pid: nat): seq<Process>
  {
    var i := Find(l, pid);
    if i < |l| then l[..i] + l[i + 1..] else l
  }

  lemma {:induction false} FirstIsFound(l: seq<Process>, pid: nat, i: nat)
    requires i < |l|
    ensures IsFirst(l, pid, i) <==> i == Find(l, pid)
  {
  }

  /** Exactly the first process with the PID changes, in its state only. */
  lemma {:induction false} SetStateIs(l: seq<Process>, pid: nat, state: RunState, i: nat)
    requires i < |l|
    ensures var p, q := l[i], SetState(l, pid, state)[i];
            if IsFirst(l, pid, i) then q == Process(p.pid, state, p.sleepUntil, p.frame, p.a0) else q == p
  {
    FirstIsFound(l, pid, i);
  }

  /** Exactly the first process with the PID sleeps, until then. */
  lemma {:induction false} PutToSleepIs(l: seq<Process>, pid: nat, until: nat, i: nat)
    requires i < |l|
    ensures var p, q := l[i], PutToSleep(l, pid, until)[i];
            if IsFirst(l, pid, i) then q == Process(p.pid, Sleeping, until, p.frame, p.a0) else q == p
  {
    FirstIsFound(l, pid, i);
  }

  /** Exactly the first process with the PID is gone. */
  lemma {:induction false} WithoutIs(l: seq<Process>, pid: nat)
    ensures forall i: nat :: IsFirst(l, pid, i) ==> Without(l, pid) == l[..i] + l[i + 1..]
    ensures !Present(l, pid) ==> Without(l, pid) == l
  {
    forall i: nat | IsFirst(l, pid, i) ensures Without(l, pid) == l[..i] + l[i + 1..] { FirstIsFound(l, pid, i); }
  }

  /** The list with its first k entries moved to the back. */
  function Rotated(l: seq<Process>, k: nat): (r: seq<Process>)
    requires k <= |l|
    ensures |r| == |l|
  {
    l[k..] + l[..k]
  }

  predicate Runnable(p: Process, now: nat)
  {
    p.state == Running || (p.state == Sleeping && p.sleepUntil <= now)
  }

  ghost predicate Monotone(clock: nat -> nat)
  {
    forall i, j :: i <= j ==> clock(i) <= clock(j)
  }

  ghost predicate Reaches(clock: nat -> nat, t: nat) { exists i :: clock(i) >= t }

  /** The clock passes every time eventually. */
  ghost predicate Unbounded(clock: nat -> nat)
  {
    forall t: nat :: Reaches(clock, t)
  }

  /** Which of n entries stands at the front after k rotations. */
  function Slot(n: nat, k: nat): (i: nat)
    ensures 0 < n ==> i < n
  {
    if k == 0 then 0 else if Slot(n, k - 1) + 1 >= n then 0 else Slot(n, k - 1) + 1
  }

  /** The entry the k-th turn of the loop looks at. */
  function At(l: seq<Process>, k: nat): Process
    requires l != []
  {
    l[Slot(|l|, k)]
  }

  /** Turn k is the first to find a process it can run; clock(k) is the time it sees. */
  predicate Picks(l: seq<Process>, clock: nat -> nat, k: nat)
  {
    && 1 <= k && l != []
    && Runnable(At(l, k), clock(k))
    && forall j :: 1 <= j < k ==> !Runnable(At(l, j), clock(j))
  }

  /** The list after the process found in turn k has been made running at the front. */
  function Chosen(l: seq<Process>, k: nat): (r: seq<Process>)
    requires l != []
    ensures |r| == |l| && r[0] == At(l, k).(state := Running)
  {
    var r := Rotated(l, Slot(|l|, k));
    assert r[0] == At(l, k);
    r[0 := r[0].(state := Running)]
  }

  class ProcessList {
    var list: seq<Process>
    var nextPid: nat

    constructor ()
      ensures list == [] && nextPid == 1
    {
      list, nextPid := [], 1;
    }

    /** set_running and set_waiting: the first process with that PID, if there is one. */
    method Mark(pid: nat, state: RunState) returns (found: bool)
      modifies this`list
      ensures list == SetState(old(list), pid, state) && found == Present(old(list), pid)
    {
      found := false;
      for i := 0 to |list|
        invariant list == old(list) && !found
        invariant forall j :: 0 <= j < i ==> list[j].pid != pid
      {
        if list[i].pid == pid {
          list := list[i := list[i].(state := state)];
          return true;
        }
      }
    }

    method SetSleeping(pid: nat, now: nat, duration: nat) returns (found: bool)
      modifies this`list
      ensures list == PutToSleep(old(list), pid, now + duration) && found == Present(old(list), pid)
    {
      found := false;
      for i := 0 to |list|
        invariant list == old(list) && !found
        invariant forall j :: 0 <= j < i ==> list[j].pid != pid
      {
        if list[i].pid == pid {
          list := list[i := list[i].(state := Sleeping, sleepUntil := now + duration)];
          return true;
        }
      }
    }

    /** get_by_pid, and a store into the saved register A0 of the process it finds. */
    method StoreA0(pid: nat, value: nat)
      requires Present(list, pid)
      modifies this`list
      ensures var i := Find(old(list), pid); i < |old(list)| && list == old(list)[i := old(list)[i].(a0 := value)]
    {
      for i := 0 to |list|
        invariant list == old(list)
        invariant forall j :: 0 <= j < i ==> list[j].pid != pid
      {
        if list[i].pid == pid {
          list := list[i := list[i].(a0 := value)];
          return;
        }
      }
    }

    method DeleteProcess(pid: nat)
      modifies this`list
      ensures list == Without(old(list), pid)
    {
      for i := 0 to |list|
        invariant list == old(list)
        invariant forall j :: 0 <= j < i ==> list[j].pid != pid
      {
        if list[i].pid == pid {
          list := list[..i] + list[i + 1..];
          return;
        }
      }
    }

    /** add_kernel_process: the next PID, at the back of the list. */
    method AddKernelProcess(frame: nat) returns (pid: nat)
      modifies this
      ensures pid == old(nextPid) && nextPid == old(nextPid) + 1
      ensures list == old(list) + [NewProcess(pid, frame)]
    {
      pid := nextPid;
      nextPid := nextPid + 1;
      list := list + [NewProcess(pid, frame)];
    }

    /** load_proc and the push of its result: one past the next PID, which advances by one only. */
    method AddLoadedProcess(frame: nat) returns (pid: nat)
      modifies this
      ensures pid == old(nextPid) + 1 && nextPid == old(nextPid) + 1
      ensures list == old(list) + [NewProcess(pid, frame)]
    {
      pid := nextPid + 1;
      nextPid := nextPid + 1;
      list := list + [NewProcess(pid, frame)];
    }

    /** Any sequence of creations. */
    method CreateAll(cs: seq<Creation>)
      modifies this
      ensures |list| == |old(list)| + |cs| && list[..|old(list)|] == old(list) && nextPid == old(nextPid) + |cs|
      ensures forall i :: 0 <= i < |cs| ==> list[|old(list)| + i].pid == PidOf(cs, old(nextPid), i)
    {
      for i := 0 to |cs|
        invariant |list| == |old(list)| + i && list[..|old(list)|] == old(list) && nextPid == old(nextPid) + i
        invariant forall j :: 0 <= j < i ==> list[|old(list)| + j].pid == PidOf(cs, old(nextPid), j)
      {
        var pid;
        if cs[i].OfKernel? {
          pid := AddKernelProcess(cs[i].frame);
        } else {
          pid := AddLoadedProcess(cs[i].frame);
        }
      }
    }

    /**
     schedule, with the time of each turn's clock read given by `clock`. It ends because some
     process is running or asleep (EndsIff); what it picks is the first runnable one in cyclic
     order after the front.
     */
    method Schedule(locked: bool, clock: nat -> nat) returns (frame: nat, ghost k: nat)
      requires Monotone(clock) && Unbounded(clock) && (locked || SomeAwaits(list))
      modifies this`list
      ensures locked ==> frame == 0 && list == old(list)
      ensures !locked ==> Picks(old(list), clock, k) && list == Chosen(old(list), k) && frame == list[0].frame
      ensures !locked ==> FirstDue(old(list), clock, k)
    {
      k := 0;
      if locked {
        return 0, 0;
      }
      ghost var l := list;
      hide Slot, Monotone, Unbounded, Picks, Chosen, Rotated, At, NoneYet, FirstDue;
      ghost var last := RunnableTurn(l, clock);
      ScheduleStarts(l, clock);
      var turn := 0;
      while true
        invariant 0 <= turn < last && list == Rotated(l, Slot(|l|, turn)) && NoneYet(l, clock, turn)
        decreases last - turn
      {
        RotateOnce(l, turn);
        list := list[1..] + list[..1];
        turn := turn + 1;
        var p := list[0];
        ScheduleTurn(l, clock, turn, list);
        if Runnable(p, clock(turn)) { PicksIsFirstDue(l, clock, turn); }
        if p.state == Running {
          return p.frame, turn;
        } else if p.state == Sleeping && p.sleepUntil <= clock(turn) {
          list := list[0 := p.(state := Running)];
          return p.frame, turn;
        }
      }
    }
  }

  /**
   Turn k finds a process that is Running, or Sleeping and due by then; every process looked at
   before was neither in its turn.
   */
  predicate FirstDue(l: seq<Process>, clock: nat -> nat, k: nat)
  {
    && k >= 1 && l != []
    && (At(l, k).state == Running || (At(l, k).state == Sleeping && At(l, k).sleepUntil <= clock(k)))
    && forall j :: 1 <= j < k ==> At(l, j).state != Running && (At(l, j).state == Sleeping ==> At(l, j).sleepUntil > clock(j))
  }

  lemma {:induction false} PicksIsFirstDue(l: seq<Process>, clock: nat -> nat, k: nat)
    ensures Picks(l, clock, k) <==> FirstDue(l, clock, k)
  {
    hide At;
    if Picks(l, clock, k) {
      forall j | 1 <= j < k ensures At(l, j).state != Running && (At(l, j).state == Sleeping ==> At(l, j).sleepUntil > clock(j)) {
        assert !Runnable(At(l, j), clock(j));
      }
    }
  }

  /** A process at position pos that is Running, or Sleeping and due when schedule starts, is reached in turn pos at the latest. */
  lemma {:induction false} DueIsReached(l: seq<Process>, clock: nat -> nat, k: nat, pos: nat)
    requires Monotone(clock) && Picks(l, clock, k) && 0 < pos < |l|
    requires l[pos].state == Running || (l[pos].state == Sleeping && l[pos].sleepUntil <= clock(1))
    ensures k <= pos
    ensures k == pos ==> Chosen(l, k)[0] == l[pos].(state := Running)
  {
    ReachedInTurn(Call(l, clock, k), pos);
    SlotAfter(|l|, 0, pos);
  }

  /** Turn k looks at entry k, and after as many turns as there are entries at the same ones again. */
  lemma {:induction false} SlotIs(n: nat, k: nat)
    requires 0 < n
    ensures k < n ==> Slot(n, k) == k
    ensures Slot(n, k + n) == Slot(n, k)
  {
    if k < n { SlotAfter(n, 0, k); }
    SlotAfter(n, k, n);
  }

  /** Nobody the first `turn` turns looked at could run. */
  predicate NoneYet(l: seq<Process>, clock: nat -> nat, turn: nat)
    requires l != []
  {
    forall j :: 1 <= j <= turn ==> !Runnable(At(l, j), clock(j))
  }

  lemma {:induction false} ScheduleStarts(l: seq<Process>, clock: nat -> nat)
    requires l != []
    ensures l == Rotated(l, Slot(|l|, 0)) && NoneYet(l, clock, 0)
  {
  }

  /** What a turn finds at the front of r, and what follows from it. */
  lemma {:induction false} ScheduleTurn(l: seq<Process>, clock: nat -> nat, k: nat, r: seq<Process>)
    requires l != [] && k >= 1 && r == Rotated(l, Slot(|l|, k)) && NoneYet(l, clock, k - 1)
    ensures r[0] == At(l, k) && r[0 := r[0].(state := Running)] == Chosen(l, k)
    ensures r[0].state == Running ==> r == Chosen(l, k)
    ensures if Runnable(r[0], clock(k)) then Picks(l, clock, k) else NoneYet(l, clock, k)
  {
    hide Slot;
    assert r[0 := r[0]] == r;
  }

  lemma {:induction false} RotateOnce(l: seq<Process>, k: nat)
    requires l != []
    ensures var r := Rotated(l, Slot(|l|, k)); r[1..] + r[..1] == Rotated(l, Slot(|l|, k + 1))
    ensures Rotated(l, Slot(|l|, k + 1))[0] == At(l, k + 1)
  {
  }

  // ---------------------------------------------------------------- when the scheduler ends

  /** Some process runs or sleeps. */
  predicate SomeAwaits(l: seq<Process>)
  {
    exists i :: 0 <= i < |l| && (l[i].state == Running || l[i].state == Sleeping)
  }

  lemma {:induction false} SlotAfter(n: nat, k: nat, d: nat)
    requires 0 < n && d <= n
    ensures Slot(n, k + d) == if Slot(n, k) + d < n then Slot(n, k) + d else Slot(n, k) + d - n
  {
    if d > 0 { SlotAfter(n, k, d - 1); }
  }

  /** Within any n turns every one of n entries comes to the front. */
  lemma {:induction false} NextVisit(n: nat, k: nat, i: nat) returns (j: nat)
    requires i < n
    ensures k < j <= k + n && Slot(n, j) == i
  {
    var s := Slot(n, k);
    var d := if s < i then i - s else i + n - s;
    SlotAfter(n, k, d);
    j := k + d;
  }

  /** A turn that finds something runnable. */
  lemma {:induction false} RunnableTurn(l: seq<Process>, clock: nat -> nat) returns (k: nat)
    requires Monotone(clock) && Unbounded(clock) && SomeAwaits(l)
    ensures 1 <= k && Runnable(At(l, k), clock(k))
  {
    var i :| 0 <= i < |l| && (l[i].state == Running || l[i].state == Sleeping);
    assert Reaches(clock, l[i].sleepUntil);
    var t: nat :| clock(t) >= l[i].sleepUntil;
    k := NextVisit(|l|, t, i);
  }

  lemma {:induction false} FirstTurn(l: seq<Process>, clock: nat -> nat, k: nat) returns (j: nat)
    requires l != [] && 1 <= k && Runnable(At(l, k), clock(k))
    ensures j <= k && Picks(l, clock, j)
  {
    if i :| 1 <= i < k && Runnable(At(l, i), clock(i)) {
      j := FirstTurn(l, clock, i);
    } else {
      j := k;
    }
  }

  /** schedule ends exactly when some process is running or asleep. */
  lemma {:induction false} EndsIff(l: seq<Process>, clock: nat -> nat)
    requires Monotone(clock) && Unbounded(clock)
    ensures (exists k :: Picks(l, clock, k)) <==> SomeAwaits(l)
  {
    if SomeAwaits(l) {
      var k := RunnableTurn(l, clock);
      var j := FirstTurn(l, clock, k);
    }
  }

  // ---------------------------------------------------------------- what the scheduler guarantees

  /** Only the process picked changes, and a sleeper only when its time has come. */
  lemma {:induction false} ChosenIsRotation(l: seq<Process>, clock: nat -> nat, k: nat, i: nat)
    requires Picks(l, clock, k) && i < |l|
    ensures var r := Rotated(l, Slot(|l|, k));
            && Chosen(l, k)[i] == (if i == 0 then r[0].(state := Running) else r[i])
            && r[i] == l[if Slot(|l|, k) + i < |l| then Slot(|l|, k) + i else Slot(|l|, k) + i - |l|]
            && multiset(r) == multiset(l)
    ensures l[i].state == Sleeping && l[i].sleepUntil > clock(k) ==> l[i] in Chosen(l, k)
  {
    var n := Slot(|l|, k);
    var r := Rotated(l, n);
    assert l == l[..n] + l[n..];
    if l[i].state == Sleeping && l[i].sleepUntil > clock(k) {
      var j := if i < n then i + |l| - n else i - n;
      assert r[j] == l[i];
      assert Chosen(l, k)[j] == l[i];
    }
  }

  /** One call of schedule: the list it finds, its clock, and the turn in which it succeeds. */
  datatype Call = Call(list: seq<Process>, clock: nat -> nat, k: nat)

  /** m is l with states changed and processes appended, nothing deleted. */
  predicate Extends(l: seq<Process>, m: seq<Process>)
  {
    |l| <= |m| && forall i :: 0 <= i < |l| ==> m[i].pid == l[i].pid
  }

  ghost predicate IsRun(calls: seq<Call>)
  {
    && (forall i :: 0 <= i < |calls| ==> Monotone(calls[i].clock) && Picks(calls[i].list, calls[i].clock, calls[i].k))
    && (forall i :: 0 < i < |calls| ==> Extends(Chosen(calls[i - 1].list, calls[i - 1].k), calls[i].list))
  }

  /** Whenever schedule looks, every process with this PID can run. */
  ghost predicate AlwaysRunnable(calls: seq<Call>, pid: nat)
  {
    forall i, j :: 0 <= i < |calls| && 0 <= j < |calls[i].list| && calls[i].list[j].pid == pid ==>
      Runnable(calls[i].list[j], calls[i].clock(1))
  }

  /** A runnable process at position pos is reached in turn pos at the latest. */
  lemma {:induction false} ReachedInTurn(c: Call, pos: nat)
    requires Monotone(c.clock) && Picks(c.list, c.clock, c.k)
    requires 0 < pos < |c.list| && Runnable(c.list[pos], c.clock(1))
    ensures c.k <= pos
    ensures c.k < pos ==> Chosen(c.list, c.k)[pos - c.k] == c.list[pos]
    ensures c.k == pos ==> Chosen(c.list, c.k)[0].pid == c.list[pos].pid
  {
    assert c.clock(1) <= c.clock(pos);
    SlotAfter(|c.list|, 0, pos);
    SlotAfter(|c.list|, 0, c.k);
    assert Runnable(At(c.list, pos), c.clock(pos));
  }

  /**
   With no deletions, a process that stays runnable and stands at position pos > 0 is run by
   one of the next pos calls, however many processes are appended in the meantime.
   */
  lemma {:induction false} RunsWithin(calls: seq<Call>, pid: nat, pos: nat) returns (i: nat)
    requires IsRun(calls) && AlwaysRunnable(calls, pid) && pos <= |calls|
    requires 0 < pos && 0 < |calls| && pos < |calls[0].list| && calls[0].list[pos].pid == pid
    ensures i < pos && Chosen(calls[i].list, calls[i].k)[0].pid == pid
    decreases pos
  {
    var c := calls[0];
    ReachedInTurn(c, pos);
    if c.k == pos {
      i := 0;
    } else {
      var rest := calls[1..];
      assert Extends(Chosen(c.list, c.k), calls[1].list);
      assert forall n :: 0 <= n < |rest| ==> rest[n] == calls[n + 1];
      assert IsRun(rest) && AlwaysRunnable(rest, pid);
      var j := RunsWithin(rest, pid, pos - c.k);
      i := j + 1;
    }
  }

  /** None but the front of m is runnable in the turn that looks at it first. */
  predicate OnlyFront(m: seq<Process>, clock: nat -> nat)
  {
    forall j :: 1 <= j < |m| ==> !Runnable(m[j], clock(j))
  }

  /**
   After the front process is deleted, its successor l[1] stands at the front and is looked at
   last: although it can run, schedule picks it exactly when none of the others can when its
   turn comes.
   */
  lemma {:induction false} DeletionSkipsSuccessor(l: seq<Process>, clock: nat -> nat, k: nat)
    requires Monotone(clock) && |l| >= 2 && Runnable(l[1], clock(1)) && Picks(Without(l, l[0].pid), clock, k)
    ensures Without(l, l[0].pid) == l[1..]
    ensures Slot(|l[1..]|, k) == 0 <==> OnlyFront(l[1..], clock)
    ensures Chosen(l[1..], k)[0] == l[1..][Slot(|l[1..]|, k)].(state := Running)
  {
    WithoutFirst(l);
    FrontIsLast(l[1..], clock, k);
  }

  lemma {:induction false} WithoutFirst(l: seq<Process>)
    requires l != []
    ensures Without(l, l[0].pid) == l[1..]
  {
    assert Find(l, l[0].pid) == 0;
  }

  lemma {:induction false} FrontIsLast(m: seq<Process>, clock: nat -> nat, k: nat)
    requires Monotone(clock) && m != [] && Runnable(m[0], clock(1)) && Picks(m, clock, k)
    ensures Slot(|m|, k) == 0 <==> OnlyFront(m, clock)
    ensures Chosen(m, k)[0] == m[Slot(|m|, k)].(state := Running)
  {
    hide Slot, Runnable;
    SlotZero(|m|);
    PickedByEnd(m, clock, k);
    SlotAfter(|m|, 0, k);
    forall j | 1 <= j < |m| ensures At(m, j) == m[j] { SlotAfter(|m|, 0, j); }
    if k < |m| { assert Runnable(m[k], clock(k)); }
  }

  lemma {:induction false} SlotZero(n: nat)
    ensures Slot(n, 0) == 0
  {
  }

  /** A front that can run is reached in turn |m| at the latest. */
  lemma {:induction false} PickedByEnd(m: seq<Process>, clock: nat -> nat, k: nat)
    requires Monotone(clock) && m != [] && Runnable(m[0], clock(1)) && Picks(m, clock, k)
    ensures k <= |m|
  {
    var n := |m|;
    assert clock(1) <= clock(n);
    SlotAfter(n, 0, n);
    assert Runnable(At(m, n), clock(n));
  }

  // ---------------------------------------------------------------- PIDs

  predicate UniquePids(l: seq<Process>, nextPid: nat)
  {
    && (forall i :: 0 <= i < |l| ==> 0 < l[i].pid < nextPid)
    && (forall i, j :: 0 <= i < j < |l| ==> l[i].pid != l[j].pid)
  }

  datatype Creation = OfKernel(frame: nat) | OfImage(frame: nat)

  /** The PID of the i-th process created: load_proc takes NEXT_PID + 1, and both advance NEXT_PID by one. */
  function PidOf(cs: seq<Creation>, nextPid: nat, i: nat): nat
    requires i < |cs|
  {
    nextPid + i + if cs[i].OfImage? then 1 else 0
  }

  /**
   The PIDs handed out are pairwise distinct exactly when no kernel process is created right
   after a load.
   */
  lemma {:induction false} PidsDistinctIff(cs: seq<Creation>, nextPid: nat)
    ensures (forall i, j :: 0 <= i < j < |cs| ==> PidOf(cs, nextPid, i) != PidOf(cs, nextPid, j))
            <==> (forall i :: 0 < i < |cs| ==> !(cs[i - 1].OfImage? && cs[i].OfKernel?))
  {
    if i :| 0 < i < |cs| && cs[i - 1].OfImage? && cs[i].OfKernel? {
      assert PidOf(cs, nextPid, i - 1) == PidOf(cs, nextPid, i);
    }
    if i, j :| 0 <= i < j < |cs| && PidOf(cs, nextPid, i) == PidOf(cs, nextPid, j) {
      assert j == i + 1 && cs[j - 1].OfImage? && cs[j].OfKernel?;
    }
  }

  /** Added to a list of unique PIDs, they leave it so under the same condition, and only then. */
  lemma {:induction false} CreationsKeepUnique(l: seq<Process>, nextPid: nat, m: seq<Process>, cs: seq<Creation>)
    requires UniquePids(l, nextPid) && 0 < nextPid && |m| == |l| + |cs| && m[..|l|] == l
    requires forall i :: 0 <= i < |cs| ==> m[|l| + i].pid == PidOf(cs, nextPid, i)
    ensures UniquePids(m, nextPid + |cs| + 1) <==> forall i :: 0 < i < |cs| ==> !(cs[i - 1].OfImage? && cs[i].OfKernel?)
  {
    PidsDistinctIff(cs, nextPid);
    assert forall i :: 0 <= i < |l| ==> m[i] == l[i];
    if UniquePids(m, nextPid + |cs| + 1) {
      forall i, j | 0 <= i < j < |cs| ensures PidOf(cs, nextPid, i) != PidOf(cs, nextPid, j) {
        assert m[|l| + i].pid != m[|l| + j].pid;
      }
    } else if forall i :: 0 < i < |cs| ==> !(cs[i - 1].OfImage? && cs[i].OfKernel?) {
      forall i, j | 0 <= i < j < |m| ensures m[i].pid != m[j].pid {
        if |l| <= i { assert PidOf(cs, nextPid, i - |l|) != PidOf(cs, nextPid, j - |l|); }
        else if |l| <= j { assert m[j].pid == PidOf(cs, nextPid, j - |l|) >= nextPid; }
      }
      forall i | 0 <= i < |m| ensures 0 < m[i].pid < nextPid + |cs| + 1 {
        if |l| <= i { assert m[i].pid == PidOf(cs, nextPid, i - |l|); }
      }
    }
  }
}
