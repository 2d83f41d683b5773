/** Priority round-robin scheduler (kernel/src/proc/scheduler.rs).

    The scheduler's global state (`SCHEDULER`, `SCHEDULER_ENABLED`,
    `TICK_COUNT`) and the process table (`PROCESSES`, kernel/src/proc/mod.rs)
    are one immutable `Kernel` value; every operation returns the next
    value. The run queue with the HIGHEST index (`Realtime` = 4) is served
    first. The register switch itself is not modelled: `Schedule` reports
    whether it would be attempted. */
module Scheduler {
  import opened Common
  import opened Proc

  const NUM_QUEUES: nat := 5

  datatype Sched = Sched(
    runQueues: seq<seq<Pid>>,
    current: Option<Pid>,
    idlePid: Option<Pid>,
    running: bool,
    ticks: nat)

  datatype Kernel = Kernel(
    procs: map<Pid, Process>,
    sched: Sched,
    enabled: bool,
    tickCount: nat,
    nextPid: Pid)

  predicate Valid(k: Kernel)
  {
    |k.sched.runQueues| == NUM_QUEUES
  }

  /** `Scheduler::new()`. */
  function NewSched(): (s: Sched)
    ensures |s.runQueues| == NUM_QUEUES
    ensures forall i :: 0 <= i < |s.runQueues| ==> s.runQueues[i] == []
    ensures s.current == None && s.idlePid == None && s.ticks == 0
  {
    Sched(seq(NUM_QUEUES, _ => []), None, None, false, 0)
  }

  /** Every pid waiting in some run queue, with multiplicity. */
  function Queued(qs: seq<seq<Pid>>): multiset<Pid>
  {
    if qs == [] then multiset{} else multiset(qs[0]) + Queued(qs[1..])
  }

  /** Lengths of the run queues, in queue order. */
  function Lengths(qs: seq<seq<Pid>>): (r: seq<nat>)
    ensures |r| == |qs|
  {
    if qs == [] then [] else [|qs[0]|] + Lengths(qs[1..])
  }

  /** Replacing one queue changes the queued multiset by exactly that queue's
      difference. */
  lemma {:induction false} QueuedUpdate(qs: seq<seq<Pid>>, i: nat, q: seq<Pid>)
    requires i < |qs|
    ensures Queued(qs[i := q]) + multiset(qs[i]) == Queued(qs) + multiset(q)
  {
    if i == 0 {
      assert qs[i := q][1..] == qs[1..];
    } else {
      var u := qs[i := q];
      assert u[0] == qs[0];
      assert u[1..] == qs[1..][i - 1 := q];
      assert qs[1..][i - 1] == qs[i];
      QueuedUpdate(qs[1..], i - 1, q);
      calc {
        Queued(u) + multiset(qs[i]);
        multiset(qs[0]) + Queued(u[1..]) + multiset(qs[i]);
        multiset(qs[0]) + (Queued(qs[1..][i - 1 := q]) + multiset(qs[1..][i - 1]));
        multiset(qs[0]) + (Queued(qs[1..]) + multiset(q));
        Queued(qs) + multiset(q);
      }
    }
  }

  /** Appending to one queue queues exactly one more entry. */
  lemma QueuedAppend(qs: seq<seq<Pid>>, i: nat, x: Pid)
    requires i < |qs|
    ensures Queued(qs[i := qs[i] + [x]]) == Queued(qs) + multiset{x}
  {
    QueuedUpdate(qs, i, qs[i] + [x]);
    assert multiset(qs[i] + [x]) == multiset(qs[i]) + multiset{x};
    var a := Queued(qs[i := qs[i] + [x]]);
    forall y
      ensures a[y] == (Queued(qs) + multiset{x})[y]
    {
      assert (a + multiset(qs[i]))[y] == (Queued(qs) + multiset(qs[i] + [x]))[y];
    }
  }

  /** Popping the head of one queue removes exactly that entry. */
  lemma QueuedPop(qs: seq<seq<Pid>>, i: nat)
    requires i < |qs| && qs[i] != []
    ensures Queued(qs[i := qs[i][1..]]) + multiset{qs[i][0]} == Queued(qs)
  {
    QueuedUpdate(qs, i, qs[i][1..]);
    assert qs[i] == [qs[i][0]] + qs[i][1..];
    assert multiset(qs[i]) == multiset{qs[i][0]} + multiset(qs[i][1..]);
    var a := Queued(qs[i := qs[i][1..]]);
    forall y
      ensures (a + multiset{qs[i][0]})[y] == Queued(qs)[y]
    {
      assert (a + multiset(qs[i]))[y] == (Queued(qs) + multiset(qs[i][1..]))[y];
    }
  }

  /** The sum of the queue lengths is the number of queued entries. */
  lemma {:induction false} LengthsCountQueued(qs: seq<seq<Pid>>)
    ensures Sum(Lengths(qs)) == |Queued(qs)|
  {
    if qs != [] {
      LengthsCountQueued(qs[1..]);
    }
  }

  /** A queue display with every queue empty queues nothing. */
  lemma {:induction false} QueuedEmpty(qs: seq<seq<Pid>>)
    ensures Queued(qs) == multiset{} <==> forall i :: 0 <= i < |qs| ==> qs[i] == []
  {
    if qs != [] {
      QueuedEmpty(qs[1..]);
      if Queued(qs) == multiset{} {
        assert multiset(qs[0]) == multiset{};
        assert forall i :: 1 <= i < |qs| ==> qs[i] == qs[1..][i - 1];
      } else {
        assert forall i :: 1 <= i < |qs| ==> qs[1..][i - 1] == qs[i];
      }
    }
  }

  // ---------------------------------------------------------------------
  // add_process / remove_process

  /** `scheduler::add_process`: push the pid at the tail of the queue of
      its priority; a pid missing from the process table is ignored. */
  function AddProcess(k: Kernel, pid: Pid): (r: Kernel)
    requires Valid(k)
    ensures Valid(r)
    ensures pid !in k.procs ==> r == k
    ensures pid in k.procs ==>
      var q := k.procs[pid].priority.Index();
      && r.sched.runQueues[q] == k.sched.runQueues[q] + [pid]
      && (forall i :: 0 <= i < NUM_QUEUES && i != q ==> r.sched.runQueues[i] == k.sched.runQueues[i])
      && r == k.(sched := r.sched)
      && r.sched == k.sched.(runQueues := r.sched.runQueues)
  {
    if pid !in k.procs then k
    else
      var q := k.procs[pid].priority.Index();
      var qs := k.sched.runQueues;
      k.(sched := k.sched.(runQueues := qs[q := qs[q] + [pid]]))
  }

  /** Adding a known pid queues exactly one more entry of it. */
  lemma AddProcessQueues(k: Kernel, pid: Pid)
    requires Valid(k) && pid in k.procs
    ensures Queued(AddProcess(k, pid).sched.runQueues) == Queued(k.sched.runQueues) + multiset{pid}
  {
    var q := k.procs[pid].priority.Index();
    var qs := k.sched.runQueues;
    assert AddProcess(k, pid).sched.runQueues == qs[q := qs[q] + [pid]];
    QueuedAppend(qs, q, pid);
  }

  /** Every queue with all copies of `pid` dropped. */
  function PurgeAll(qs: seq<seq<Pid>>, pid: Pid): (r: seq<seq<Pid>>)
    ensures |r| == |qs|
    ensures forall i :: 0 <= i < |qs| ==> r[i] == Without(qs[i], pid)
  {
    if qs == [] then [] else [Without(qs[0], pid)] + PurgeAll(qs[1..], pid)
  }

  /** `scheduler::remove_process`: drop the pid from every run queue
      (keeping the order of the others) and clear `current` if it is it. */
  function RemoveProcess(k: Kernel, pid: Pid): (r: Kernel)
    requires Valid(k)
    ensures Valid(r)
    ensures forall i :: 0 <= i < NUM_QUEUES ==>
      pid !in r.sched.runQueues[i] && r.sched.runQueues[i] == Without(k.sched.runQueues[i], pid)
    ensures r.sched.current == (if k.sched.current == Some(pid) then None else k.sched.current)
    ensures r.procs == k.procs && r.enabled == k.enabled && r.sched.ticks == k.sched.ticks
  {
    var s := k.sched;
    k.(sched := s.(runQueues := PurgeAll(s.runQueues, pid),
                   current := if s.current == Some(pid) then None else s.current))
  }

  /** Removal deletes every queued copy of the pid and no other entry. */
  lemma {:induction false} PurgeAllQueued(qs: seq<seq<Pid>>, pid: Pid)
    ensures Queued(PurgeAll(qs, pid))[pid] == 0
    ensures forall x :: x != pid ==> Queued(PurgeAll(qs, pid))[x] == Queued(qs)[x]
  {
    if qs != [] {
      PurgeAllQueued(qs[1..], pid);
      WithoutMultiset(qs[0], pid);
      assert PurgeAll(qs, pid)[1..] == PurgeAll(qs[1..], pid);
    }
  }

  lemma {:induction false} WithoutMultiset(s: seq<Pid>, x: Pid)
    ensures multiset(Without(s, x))[x] == 0
    ensures forall y :: y != x ==> multiset(Without(s, x))[y] == multiset(s)[y]
  {
    if s != [] {
      WithoutMultiset(s[1..], x);
      assert s == [s[0]] + s[1..];
    }
  }

  // ---------------------------------------------------------------------
  // select_next

  /** The highest queue index below `i` whose queue is non-empty. */
  function HighestNonEmpty(qs: seq<seq<Pid>>, i: nat): (r: Option<nat>)
    requires i <= |qs|
    ensures r.Some? ==> (r.value < i && qs[r.value] != [] &&
                         forall j :: r.value < j < i ==> qs[j] == [])
    ensures r.None? ==> forall j :: 0 <= j < i ==> qs[j] == []
  {
    if i == 0 then None
    else if qs[i - 1] != [] then Some(i - 1)
    else HighestNonEmpty(qs, i - 1)
  }

  /** `select_next`: pop the head of the highest-index non-empty queue, or
      fall back to the idle pid with every queue untouched. */
  function SelectNext(s: Sched): (r: (Option<Pid>, Sched))
    requires |s.runQueues| == NUM_QUEUES
    ensures |r.1.runQueues| == NUM_QUEUES
    ensures forall h :: (0 <= h < NUM_QUEUES && s.runQueues[h] != [] &&
                         (forall j :: h < j < NUM_QUEUES ==> s.runQueues[j] == [])) ==>
        && r.0 == Some(s.runQueues[h][0])
        && r.1 == s.(runQueues := s.runQueues[h := s.runQueues[h][1..]])
    ensures (forall j :: 0 <= j < NUM_QUEUES ==> s.runQueues[j] == []) ==> r == (s.idlePid, s)
  {
    match HighestNonEmpty(s.runQueues, NUM_QUEUES)
    case None => (s.idlePid, s)
    case Some(h) => (Some(s.runQueues[h][0]), s.(runQueues := s.runQueues[h := s.runQueues[h][1..]]))
  }

  /** A selection from the queues removes exactly the selected entry. */
  lemma SelectNextQueued(s: Sched)
    requires |s.runQueues| == NUM_QUEUES
    ensures var r := SelectNext(s);
      if Queued(s.runQueues) == multiset{} then r == (s.idlePid, s)
      else r.0.Some? && Queued(r.1.runQueues) + multiset{r.0.value} == Queued(s.runQueues)
  {
    QueuedEmpty(s.runQueues);
    var qs := s.runQueues;
    match HighestNonEmpty(qs, NUM_QUEUES)
    case None =>
    case Some(h) =>
      assert SelectNext(s) == (Some(qs[h][0]), s.(runQueues := qs[h := qs[h][1..]]));
      QueuedPop(qs, h);
  }

  // ---------------------------------------------------------------------
  // schedule

  /** The previous current process was still `Running` (not blocked,
      sleeping or a zombie) and is in the table. */
  predicate WasRunning(k: Kernel)
  {
    k.sched.current.Some? && k.sched.current.value in k.procs &&
    k.procs[k.sched.current.value].state == Running
  }

  /** First half of `schedule`: a still-Running current process goes back
      to the tail of its own queue as Ready with a fresh time slice;
      anything else is left where it is. */
  function Requeue(k: Kernel): (r: Kernel)
    requires Valid(k)
    ensures Valid(r)
    ensures !WasRunning(k) ==> r == k
    ensures WasRunning(k) ==>
      var pid := k.sched.current.value;
      var p := k.procs[pid];
      var q := p.priority.Index();
      && r.sched.runQueues == k.sched.runQueues[q := k.sched.runQueues[q] + [pid]]
      && r.procs == k.procs[pid := p.(state := Ready, timeSlice := 10)]
      && r.sched.current == k.sched.current
  {
    if !WasRunning(k) then k
    else
      var pid := k.sched.current.value;
      var p := k.procs[pid];
      var q := p.priority.Index();
      var qs := k.sched.runQueues;
      k.(procs := k.procs[pid := p.(state := Ready, timeSlice := DEFAULT_TIME_SLICE)],
         sched := k.sched.(runQueues := qs[q := qs[q] + [pid]]))
  }

  /** `schedule` (minus `context_switch`): returns the next kernel state and
      whether a context switch is attempted. */
  function Schedule(k: Kernel): (r: (Kernel, bool))
    requires Valid(k)
    ensures Valid(r.0)
    ensures !k.enabled ==> r == (k, false)
    ensures k.enabled ==> r.1 == (k.sched.current != r.0.sched.current)
    ensures r.0.procs.Keys == k.procs.Keys
    ensures k.enabled && r.0.sched.current.Some? && r.0.sched.current.value in k.procs ==>
      r.0.procs[r.0.sched.current.value].state == Running
    ensures r.0.enabled == k.enabled && r.0.tickCount == k.tickCount && r.0.nextPid == k.nextPid
    ensures r.0.sched.ticks == k.sched.ticks && r.0.sched.idlePid == k.sched.idlePid
  {
    if !k.enabled then (k, false)
    else
      var k1 := Requeue(k);
      var (next, s2) := SelectNext(k1.sched);
      var procs2 := if next.Some? && next.value in k1.procs
                    then k1.procs[next.value := k1.procs[next.value].(state := Running)]
                    else k1.procs;
      (k1.(procs := procs2, sched := s2.(current := next)), k.sched.current != next)
  }

  /** `yield_now` is `schedule`. */
  function YieldNow(k: Kernel): (r: Kernel)
    requires Valid(k)
    ensures Valid(r)
    ensures !k.enabled ==> r == k
  {
    Schedule(k).0
  }

  /** Conservation across `schedule`: the queues lose the dispatched entry
      (if it came from a queue) and gain the previous process only when it
      was still Running. A Blocked, Sleeping or Zombie process is never
      re-queued. */
  lemma ScheduleQueued(k: Kernel)
    requires Valid(k) && k.enabled
    ensures var r := Schedule(k).0;
      var back := if WasRunning(k) then multiset{k.sched.current.value} else multiset{};
      var before := Queued(k.sched.runQueues) + back;
      if before == multiset{} then r.sched.current == k.sched.idlePid && r.sched.runQueues == k.sched.runQueues
      else r.sched.current.Some? && Queued(r.sched.runQueues) + multiset{r.sched.current.value} == before
  {
    var k1 := Requeue(k);
    if WasRunning(k) {
      var pid := k.sched.current.value;
      var q := k.procs[pid].priority.Index();
      QueuedAppend(k.sched.runQueues, q, pid);
    }
    SelectNextQueued(k1.sched);
  }

  /** A process that was not Running when `schedule` began gains no run
      queue entry from it. */
  lemma ScheduleNoRequeue(k: Kernel, pid: Pid)
    requires Valid(k) && k.enabled
    requires !(WasRunning(k) && k.sched.current == Some(pid))
    ensures Queued(Schedule(k).0.sched.runQueues)[pid] <= Queued(k.sched.runQueues)[pid]
  {
    ScheduleQueued(k);
    var r := Schedule(k).0;
    var back := if WasRunning(k) then multiset{k.sched.current.value} else multiset{};
    var before := Queued(k.sched.runQueues) + back;
    assert back[pid] == 0;
    if before != multiset{} {
      assert (Queued(r.sched.runQueues) + multiset{r.sched.current.value})[pid] == before[pid];
    }
  }

  /** Strict priority: the dispatched process is the head of a queue with no
      non-empty queue above it (after the previous process was re-queued). */
  lemma ScheduleStrictPriority(k: Kernel)
    requires Valid(k) && k.enabled
    ensures var qs := Requeue(k).sched.runQueues;
      forall h :: 0 <= h < NUM_QUEUES && qs[h] != [] && (forall j :: h < j < NUM_QUEUES ==> qs[j] == []) ==>
        Schedule(k).0.sched.current == Some(qs[h][0])
  {
  }

  /** Round robin: the current process `a` and one other process `b`,
      alone in the same queue, swap places on each `schedule`. */
  lemma ScheduleAlternates(k: Kernel, a: Pid, b: Pid)
    requires Valid(k) && k.enabled && a != b
    requires a in k.procs && b in k.procs
    requires k.sched.current == Some(a) && k.procs[a].state == Running
    requires var q := k.procs[a].priority.Index();
      && k.sched.runQueues[q] == [b]
      && forall i :: 0 <= i < NUM_QUEUES && i != q ==> k.sched.runQueues[i] == []
    ensures var r := Schedule(k);
      var q := k.procs[a].priority.Index();
      && r.1
      && r.0.sched.current == Some(b)
      && r.0.procs[b].state == Running
      && r.0.procs[a].state == Ready && r.0.procs[a].timeSlice == 10
      && r.0.procs[a].priority == k.procs[a].priority
      && r.0.sched.runQueues[q] == [a]
      && forall i :: 0 <= i < NUM_QUEUES && i != q ==> r.0.sched.runQueues[i] == []
  {
    var q := k.procs[a].priority.Index();
    var k1 := Requeue(k);
    assert k1.sched.runQueues[q] == [b, a];
    assert forall j :: q < j < NUM_QUEUES ==> k1.sched.runQueues[j] == [];
    assert k1.sched.runQueues[q][1..] == [a];
  }

  /** Two `schedule` calls on that configuration give the CPU back to `a`,
      provided `b` shares `a`'s priority. */
  lemma RoundRobinTwoRounds(k: Kernel, a: Pid, b: Pid)
    requires Valid(k) && k.enabled && a != b
    requires a in k.procs && b in k.procs
    requires k.procs[b].priority == k.procs[a].priority
    requires k.sched.current == Some(a) && k.procs[a].state == Running
    requires var q := k.procs[a].priority.Index();
      && k.sched.runQueues[q] == [b]
      && forall i :: 0 <= i < NUM_QUEUES && i != q ==> k.sched.runQueues[i] == []
    ensures var k2 := Schedule(Schedule(k).0);
      && k2.1 && k2.0.sched.current == Some(a)
      && k2.0.sched.runQueues[k.procs[a].priority.Index()] == [b]
  {
    ScheduleAlternates(k, a, b);
    var k1 := Schedule(k).0;
    ScheduleAlternates(k1, b, a);
  }

  // ---------------------------------------------------------------------
  // timer_tick, stats

  /** The accounting half of `timer_tick` when the scheduler is enabled:
      one more scheduler tick, and the current process (if known) loses one
      unit of its time slice (saturating at 0) and gains one tick of CPU
      time. */
  function Charge(k: Kernel): (r: Kernel)
    ensures r.sched == k.sched.(ticks := k.sched.ticks + 1)
    ensures r.procs.Keys == k.procs.Keys
    ensures forall pid :: pid in k.procs && Some(pid) != k.sched.current ==> r.procs[pid] == k.procs[pid]
    ensures k.sched.current.Some? && k.sched.current.value in k.procs ==>
      var p := k.procs[k.sched.current.value];
      r.procs[k.sched.current.value] ==
        p.(timeSlice := if p.timeSlice > 0 then p.timeSlice - 1 else 0, cpuTime := p.cpuTime + 1)
  {
    var k1 := k.(sched := k.sched.(ticks := k.sched.ticks + 1));
    match k.sched.current
    case None => k1
    case Some(pid) =>
      if pid !in k.procs then k1
      else
        var p := k.procs[pid];
        var slice := if p.timeSlice > 0 then p.timeSlice - 1 else 0;
        k1.(procs := k.procs[pid := p.(timeSlice := slice, cpuTime := p.cpuTime + 1)])
  }

  /** `should_schedule`: no current process, an unknown one, or one whose
      slice has run out. */
  predicate SliceExpired(k: Kernel)
  {
    k.sched.current.None? || k.sched.current.value !in k.procs ||
    k.procs[k.sched.current.value].timeSlice == 0
  }

  /** `timer_tick`: count the tick; when enabled, charge the current process
      and reschedule iff its slice is exhausted (or there is none). */
  function TimerTick(k: Kernel): (r: Kernel)
    requires Valid(k)
    ensures Valid(r)
    ensures r.tickCount == k.tickCount + 1
    ensures !k.enabled ==> r == k.(tickCount := k.tickCount + 1)
    ensures k.enabled ==> r.sched.ticks == k.sched.ticks + 1
  {
    var k0 := k.(tickCount := k.tickCount + 1);
    if !k.enabled then k0
    else
      var k1 := Charge(k0);
      if SliceExpired(k1) then Schedule(k1).0 else k1
  }

  /** A tick that leaves time in the slice neither dispatches nor touches
      the queues; it only charges the current process. */
  lemma TimerTickKeepsCurrent(k: Kernel)
    requires Valid(k) && k.enabled
    requires k.sched.current.Some? && k.sched.current.value in k.procs
    requires k.procs[k.sched.current.value].timeSlice > 1
    ensures var r := TimerTick(k);
      var pid := k.sched.current.value;
      && r.sched.current == k.sched.current
      && r.sched.runQueues == k.sched.runQueues
      && r.procs[pid].timeSlice == k.procs[pid].timeSlice - 1
      && r.procs[pid].cpuTime == k.procs[pid].cpuTime + 1
      && r.procs[pid].state == k.procs[pid].state
  {
  }

  /** A tick that exhausts the slice of a Running process preempts it: it
      is charged, queued at the tail of its priority's queue, and the slice
      reset to 10. */
  lemma TimerTickPreempts(k: Kernel)
    requires Valid(k) && k.enabled
    requires k.sched.current.Some? && k.sched.current.value in k.procs
    requires k.procs[k.sched.current.value].state == Running
    requires k.procs[k.sched.current.value].timeSlice <= 1
    ensures var pid := k.sched.current.value;
      var k1 := Charge(k.(tickCount := k.tickCount + 1));
      && SliceExpired(k1) && WasRunning(k1)
      && TimerTick(k) == Schedule(k1).0
      && Requeue(k1).procs[pid].timeSlice == 10
      && Requeue(k1).procs[pid].cpuTime == k.procs[pid].cpuTime + 1
      && var q := k.procs[pid].priority.Index();
         Requeue(k1).sched.runQueues[q] == k.sched.runQueues[q] + [pid]
  {
  }

  /** `stats`: (number of queued entries, 1 iff a process is current,
      scheduler ticks). */
  function Stats(k: Kernel): (r: (nat, nat, nat))
    requires Valid(k)
    ensures r.0 == |Queued(k.sched.runQueues)|
    ensures r.1 == 1 <==> k.sched.current.Some?
    ensures r.1 <= 1 && r.2 == k.sched.ticks
  {
    LengthsCountQueued(k.sched.runQueues);
    (Sum(Lengths(k.sched.runQueues)), if k.sched.current.Some? then 1 else 0, k.sched.ticks)
  }
}
