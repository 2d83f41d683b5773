/** The process table (kernel/src/proc/mod.rs): pid allocation, insertion
    and removal, `fork`, `exit`, `wait` and the table queries, over the
    `Kernel` value of the scheduler model. */
module ProcTable {
  import opened Common
  import opened Proc
  import opened Scheduler

  /** Every pid in the table (and the idle pid) was handed out by
      `alloc_pid`, so lies below the next pid. */
  predicate PidsIssued(k: Kernel)
  {
    && (forall pid :: pid in k.procs ==> pid < k.nextPid)
    && (k.sched.idlePid.Some? ==> k.sched.idlePid.value < k.nextPid)
  }

  /** `alloc_pid`: hand out `NEXT_PID` and advance it. */
  function AllocPid(k: Kernel): (r: (Pid, Kernel))
    ensures r.1 == k.(nextPid := r.1.nextPid)
    ensures PidsIssued(k) ==> r.0 !in k.procs
    ensures PidsIssued(k) ==> PidsIssued(r.1)
    ensures k.nextPid <= r.0 < r.1.nextPid
  {
    (k.nextPid, k.(nextPid := k.nextPid + 1))
  }

  /** `n` successive calls of `alloc_pid`. */
  function AllocPids(k: Kernel, n: nat): (r: (seq<Pid>, Kernel))
    ensures |r.0| == n
    ensures r.1 == k.(nextPid := r.1.nextPid)
    decreases n
  {
    if n == 0 then ([], k)
    else
      var (p, k1) := AllocPid(k);
      var (ps, k2) := AllocPids(k1, n - 1);
      ([p] + ps, k2)
  }

  /** Allocated pids strictly increase, are never repeated, and never reuse
      a pid handed out before. */
  lemma {:induction false} AllocPidsIncreasing(k: Kernel, n: nat)
    ensures forall i, j :: 0 <= i < j < n ==> AllocPids(k, n).0[i] < AllocPids(k, n).0[j]
    ensures forall i :: 0 <= i < n ==> k.nextPid <= AllocPids(k, n).0[i] < AllocPids(k, n).1.nextPid
    decreases n
  {
    if n > 0 {
      var k1 := k.(nextPid := k.nextPid + 1);
      AllocPidsIncreasing(k1, n - 1);
      var rest := AllocPids(k1, n - 1);
      assert AllocPids(k, n) == ([k.nextPid] + rest.0, rest.1);
      if n == 1 {
        assert rest.1 == k1;
      } else {
        assert k1.nextPid <= rest.0[0] < rest.1.nextPid;
      }
    }
  }

  /** `proc::init` followed by `scheduler::init`: the init process takes
      pid 1 and enters the table (but no run queue); the idle process takes
      pid 2 and is remembered as `idle_pid` but never enters the table.
      `None` is the kernel panic raised when init's stack cannot be
      allocated. */
  function Boot(initFrames: Option<u64>, idleFrames: Option<u64>): (r: Option<Kernel>)
    ensures r.Some? <==> initFrames.Some?
    ensures r.Some? ==>
      && Valid(r.value) && PidsIssued(r.value)
      && r.value.procs.Keys == {1}
      && r.value.procs[1].name == "init" && r.value.procs[1].state == Created
      && Queued(r.value.sched.runQueues) == multiset{}
      && r.value.sched.current == None
      && r.value.sched.idlePid == (if idleFrames.Some? then Some(2) else None)
      && !r.value.enabled && r.value.nextPid == 3
  {
    var k0 := Kernel(map[], NewSched(), false, 0, 1);
    var (pid1, k1) := AllocPid(k0);
    match NewKernel(pid1, "init", initFrames)
    case None => None
    case Some(init) =>
      var k2 := k1.(procs := k1.procs[pid1 := init]);
      var (pid2, k3) := AllocPid(k2);
      var idle := NewKernel(pid2, "idle", idleFrames);
      QueuedEmpty(k3.sched.runQueues);
      Some(k3.(sched := k3.sched.(idlePid := if idle.Some? then Some(pid2) else None)))
  }

  /** `scheduler::start`: set `SCHEDULER_ENABLED`. */
  function Start(k: Kernel): (r: Kernel)
    ensures r.enabled && r == k.(enabled := true)
  {
    k.(enabled := true)
  }

  /** `add_process`: insert into the table, then enqueue by priority. */
  function AddProcess(k: Kernel, p: Process): (r: Kernel)
    requires Valid(k)
    ensures Valid(r)
    ensures r.procs == k.procs[p.pid := p]
    ensures Queued(r.sched.runQueues) == Queued(k.sched.runQueues) + multiset{p.pid}
    ensures r.sched.runQueues[p.priority.Index()] == k.sched.runQueues[p.priority.Index()] + [p.pid]
    ensures r.sched.current == k.sched.current && r.enabled == k.enabled && r.nextPid == k.nextPid
  {
    var k1 := k.(procs := k.procs[p.pid := p]);
    AddProcessQueues(k1, p.pid);
    Scheduler.AddProcess(k1, p.pid)
  }

  /** `remove_process`: drop the table entry and purge the run queues. */
  function RemoveProcess(k: Kernel, pid: Pid): (r: Kernel)
    requires Valid(k)
    ensures Valid(r)
    ensures r.procs == k.procs - {pid}
    ensures Queued(r.sched.runQueues)[pid] == 0
    ensures forall x :: x != pid ==> Queued(r.sched.runQueues)[x] == Queued(k.sched.runQueues)[x]
    ensures r.sched.current == (if k.sched.current == Some(pid) then None else k.sched.current)
  {
    var k1 := k.(procs := k.procs - {pid});
    PurgeAllQueued(k1.sched.runQueues, pid);
    Scheduler.RemoveProcess(k1, pid)
  }

  /** `current()`: the table entry of the current pid, if any. */
  function Current(k: Kernel): (r: Option<Process>)
    ensures r.Some? <==> k.sched.current.Some? && k.sched.current.value in k.procs
    ensures r.Some? ==> r.value == k.procs[k.sched.current.value]
  {
    match k.sched.current
    case None => None
    case Some(pid) => if pid in k.procs then Some(k.procs[pid]) else None
  }

  /** `fork`: clone the current process under a fresh pid and add it. The
      pid is consumed even when the child's allocation fails. */
  function Fork(k: Kernel, a: ForkAllocs): (r: (Option<Pid>, Kernel))
    requires Valid(k)
    ensures Valid(r.1)
    ensures Current(k).None? ==> r == (None, k)
    ensures r.0.Some? && PidsIssued(k) ==> r.0.value !in k.procs
    ensures r.0.Some? ==>
      && r.0.value == k.nextPid
      && r.0.value in r.1.procs
      && r.1.procs == k.procs[r.0.value := r.1.procs[r.0.value]]
      && r.1.procs[r.0.value].context == Current(k).value.context
      && r.1.procs[r.0.value].priority == Current(k).value.priority
      && Queued(r.1.sched.runQueues) == Queued(k.sched.runQueues) + multiset{r.0.value}
    ensures PidsIssued(k) ==> PidsIssued(r.1)
  {
    match Current(k)
    case None => (None, k)
    case Some(p) =>
      var (cpid, k1) := AllocPid(k);
      match Proc.Fork(p, cpid, a)
      case None => (None, k1)
      case Some(child) => (Some(cpid), AddProcess(k1, child))
  }

  /** `exit`: record the status and mark the current process a Zombie, then
      `schedule`. */
  function Exit(k: Kernel, status: int): (r: Kernel)
    requires Valid(k)
    ensures Valid(r)
    ensures r.procs.Keys == k.procs.Keys
  {
    var k1 := match k.sched.current
      case None => k
      case Some(pid) =>
        if pid !in k.procs then k
        else k.(procs := k.procs[pid := k.procs[pid].(exitStatus := Some(status), state := Zombie)]);
    Schedule(k1).0
  }

  /** The exiting process keeps its status as a Zombie and is neither
      re-queued nor left current (unless it was queued elsewhere already or
      is the idle pid, which the table never holds). */
  lemma ExitMakesZombie(k: Kernel, status: int)
    requires Valid(k) && k.sched.current.Some? && k.sched.current.value in k.procs
    requires Queued(k.sched.runQueues)[k.sched.current.value] == 0
    requires k.sched.idlePid != k.sched.current
    ensures var pid := k.sched.current.value;
      var r := Exit(k, status);
      && r.procs[pid].state == Zombie
      && r.procs[pid].exitStatus == Some(status)
      && Queued(r.sched.runQueues)[pid] == 0
      && (k.enabled ==> r.sched.current != Some(pid))
  {
    var pid := k.sched.current.value;
    var k1 := k.(procs := k.procs[pid := k.procs[pid].(exitStatus := Some(status), state := Zombie)]);
    if k.enabled {
      assert !WasRunning(k1);
      ScheduleQueued(k1);
      ScheduleNoRequeue(k1, pid);
      var r := Schedule(k1).0;
      var before := Queued(k1.sched.runQueues);
      if before != multiset{} {
        assert (Queued(r.sched.runQueues) + multiset{r.sched.current.value})[pid] == 0;
      }
    }
  }

  datatype WaitStep = Returned(status: Option<int>) | Pending

  /** One iteration of `wait`'s loop: an unknown pid returns `None`; a
      Zombie is reaped (its table entry, and nothing else, removed) and its
      status returned; otherwise the caller `schedule`s and tries again. */
  function WaitOnce(k: Kernel, pid: Pid): (r: (WaitStep, Kernel))
    requires Valid(k)
    ensures Valid(r.1)
    ensures pid !in k.procs ==> r == (Returned(None), k)
    ensures pid in k.procs && k.procs[pid].state == Zombie ==>
      r == (Returned(k.procs[pid].exitStatus), k.(procs := k.procs - {pid}))
    ensures pid in k.procs && k.procs[pid].state != Zombie ==> r.0 == Pending && pid in r.1.procs
  {
    if pid !in k.procs then (Returned(None), k)
    else if k.procs[pid].state == Zombie then
      (Returned(k.procs[pid].exitStatus), k.(procs := k.procs - {pid}))
    else (Pending, Schedule(k).0)
  }

  /** Reaping is single-shot: a second wait finds no such process. */
  lemma WaitTwice(k: Kernel, pid: Pid)
    requires Valid(k) && pid in k.procs && k.procs[pid].state == Zombie
    ensures WaitOnce(k, pid).0 == Returned(k.procs[pid].exitStatus)
    ensures WaitOnce(WaitOnce(k, pid).1, pid).0 == Returned(None)
  {
  }

  /** `wait`'s reap leaves the run queues and `current` alone, whereas
      `remove_process` also purges every queued copy of the pid. */
  lemma ReapVersusRemove(k: Kernel, pid: Pid)
    requires Valid(k) && pid in k.procs && k.procs[pid].state == Zombie
    requires pid in k.sched.runQueues[0]
    ensures WaitOnce(k, pid).1.sched == k.sched
    ensures Queued(WaitOnce(k, pid).1.sched.runQueues)[pid] > 0
    ensures Queued(RemoveProcess(k, pid).sched.runQueues)[pid] == 0
    ensures WaitOnce(k, pid).1.procs == RemoveProcess(k, pid).procs
  {
    var qs := k.sched.runQueues;
    assert Queued(qs) == multiset(qs[0]) + Queued(qs[1..]);
  }

  /** `process_count`. */
  function ProcessCount(k: Kernel): (n: nat)
    ensures n == |k.procs.Keys|
  {
    |k.procs|
  }

  lemma {:induction false} SetHasMax(s: set<Pid>)
    requires s != {}
    ensures exists m :: m in s && forall y :: y in s ==> y <= m
  {
    var x :| x in s;
    if s != {x} {
      SetHasMax(s - {x});
      var m :| m in s - {x} && forall y :: y in s - {x} ==> y <= m;
      assert forall y :: y in s ==> y == x || y in s - {x};
      if x > m {
        assert forall y :: y in s ==> y <= x;
      } else {
        assert forall y :: y in s ==> y <= m;
      }
    } else {
      assert forall y :: y in s ==> y <= x;
    }
  }

  /** `all_pids`: the table's keys in ascending (BTreeMap) order. */
  method AllPids(k: Kernel) returns (r: seq<Pid>)
    ensures |r| == |k.procs|
    ensures forall i :: 0 <= i < |r| ==> r[i] in k.procs
    ensures forall pid :: pid in k.procs ==> pid in r
    ensures forall i, j :: 0 <= i < j < |r| ==> r[i] < r[j]
  {
    var rest := k.procs.Keys;
    r := [];
    while rest != {}
      invariant rest <= k.procs.Keys
      invariant forall i :: 0 <= i < |r| ==> r[i] in k.procs && r[i] !in rest
      invariant forall pid :: pid in k.procs ==> pid in r || pid in rest
      invariant forall i, j :: 0 <= i < j < |r| ==> r[i] < r[j]
      invariant forall i, y :: 0 <= i < |r| && y in rest ==> y < r[i]
      invariant |r| + |rest| == |k.procs.Keys|
      decreases rest
    {
      SetHasMax(rest);
      var m :| m in rest && forall y :: y in rest ==> y <= m;
      r := [m] + r;
      rest := rest - {m};
    }
    assert |k.procs.Keys| == |k.procs|;
  }
}
