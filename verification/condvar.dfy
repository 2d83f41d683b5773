/** Condition variable, barrier and one-time initialisation
    (kernel/src/sync/condvar.rs) as state machines on one core.

    `CondVar::wait` queues the caller and releases the mutex; what follows
    in the source is an unimplemented `todo!()`, so the model stops there.
    Wake-ups are TODOs too: notifying only removes pids from the queue. */
module SyncCondvar {
  import opened Common
  import SyncMutex

  type Pid = nat

  // ---------------------------------------------------------------------
  // CondVar

  datatype CondVar = CondVar(waiters: seq<Pid>)

  const NewCondVar: CondVar := CondVar([])

  /** The first half of `wait`: the caller's pid (if any) joins the tail. */
  function Enqueue(cv: CondVar, current: Option<Pid>): (r: CondVar)
    ensures current.Some? ==> r.waiters == cv.waiters + [current.value]
    ensures current.None? ==> r == cv
  {
    if current.Some? then CondVar(cv.waiters + [current.value]) else cv
  }

  /** `wait` up to the unimplemented tail: queue the caller, then drop the
      guard. Also returns the state between the two steps, in which the
      caller is already queued and the mutex still held. */
  function Wait(cv: CondVar, m: SyncMutex.Mutex, current: Option<Pid>): (r: (CondVar, SyncMutex.Mutex, CondVar))
    ensures r.2 == Enqueue(cv, current) && r.0 == r.2
    ensures r.1 == SyncMutex.Unlock(m)
    ensures current.Some? ==> r.0.waiters == cv.waiters + [current.value]
  {
    var queued := Enqueue(cv, current);
    (queued, SyncMutex.Unlock(m), queued)
  }

  /** `notify_one`: the oldest waiter leaves the queue. */
  function NotifyOne(cv: CondVar): (r: CondVar)
    ensures cv.waiters == [] ==> r == cv
    ensures cv.waiters != [] ==> [cv.waiters[0]] + r.waiters == cv.waiters
  {
    if cv.waiters == [] then cv else CondVar(cv.waiters[1..])
  }

  /** `notify_all`: the queue is drained. */
  function NotifyAll(cv: CondVar): (r: CondVar)
    ensures r.waiters == []
  {
    CondVar([])
  }

  /** `has_waiters`. */
  function HasWaiters(cv: CondVar): (b: bool)
    ensures b <==> |cv.waiters| > 0
  {
    cv.waiters != []
  }

  /** `notify_one` repeated once per waiter has the effect of `notify_all`. */
  function NotifyN(cv: CondVar, n: nat): CondVar
    decreases n
  {
    if n == 0 then cv else NotifyN(NotifyOne(cv), n - 1)
  }

  lemma {:induction false} NotifyOneDrains(cv: CondVar)
    ensures NotifyN(cv, |cv.waiters|) == NotifyAll(cv)
    ensures !HasWaiters(NotifyAll(cv))
    decreases |cv.waiters|
  {
    if cv.waiters != [] {
      NotifyOneDrains(NotifyOne(cv));
    }
  }

  /** No lost wake-up: the caller is queued before the mutex is released,
      so a notifier that takes the mutex afterwards finds it queued, and
      `notify_one` removes it once every earlier waiter has been removed. */
  lemma NoLostWakeup(cv: CondVar, m: SyncMutex.Mutex, pid: Pid)
    requires m.locked
    ensures var (after, released, between) := Wait(cv, m, Some(pid));
      && between.waiters[|between.waiters| - 1] == pid
      && HasWaiters(after) && !released.locked
      && NotifyN(after, |cv.waiters|).waiters == [pid]
      && NotifyOne(NotifyN(after, |cv.waiters|)).waiters == []
  {
    var after := Wait(cv, m, Some(pid)).0;
    NotifyPrefix(cv.waiters, [pid]);
  }

  lemma {:induction false} NotifyPrefix(front: seq<Pid>, back: seq<Pid>)
    ensures NotifyN(CondVar(front + back), |front|) == CondVar(back)
    decreases |front|
  {
    if front != [] {
      assert (front + back)[1..] == front[1..] + back;
      NotifyPrefix(front[1..], back);
    }
  }

  // ---------------------------------------------------------------------
  // Barrier

  /** `count` arrivals release one generation; `current` counts the
      arrivals of the present generation. */
  datatype Barrier = Barrier(count: nat, current: nat, generation: nat, waiters: seq<Pid>)

  function NewBarrier(count: nat): (b: Barrier)
    ensures b.count == count && b.current == 0 && b.generation == 0 && b.waiters == []
  {
    Barrier(count, 0, 0, [])
  }

  /** The arrival step of `Barrier::wait`, under the `current` lock: the
      arrival that makes `current == count` is the leader: it resets
      `current`, opens the next generation and drains the waiters. */
  function Arrive(b: Barrier): (r: (bool, Barrier))
    ensures r.0 <==> b.current + 1 == b.count
    ensures r.0 ==> r.1 == b.(current := 0, generation := b.generation + 1, waiters := [])
    ensures !r.0 ==> r.1 == b.(current := b.current + 1)
  {
    if b.current + 1 == b.count then (true, b.(current := 0, generation := b.generation + 1, waiters := []))
    else (false, b.(current := b.current + 1))
  }

  /** A follower registers its pid (if any) after releasing `current`. */
  function Register(b: Barrier, current: Option<Pid>): (r: Barrier)
    ensures r.(waiters := b.waiters) == b
    ensures current.Some? ==> r.waiters == b.waiters + [current.value]
  {
    if current.Some? then b.(waiters := b.waiters + [current.value]) else b
  }

  /** One poll of the follower loop: done iff the generation moved on from
      the caller's snapshot. */
  function Poll(b: Barrier, snapshot: nat): (done: bool)
    ensures done <==> b.generation != snapshot
  {
    b.generation != snapshot
  }

  /** A barrier for zero tasks never has a leader, so its followers wait
      forever. */
  lemma ZeroBarrierNeverReleases(b: Barrier)
    requires b.count == 0
    ensures !Arrive(b).0 && Arrive(b).1.generation == b.generation
  {
  }

  /** Where task `i` (pid `i + 1`) is in `Barrier::wait`; `g` is the
      generation snapshot it took. */
  datatype BarrierPc =
    | Outside
    | Snapped(g: nat)
    | Registering(g: nat)
    | Polling(g: nat)
    | Returned(leader: bool)

  datatype BarrierSystem = BarrierSystem(b: Barrier, pcs: seq<BarrierPc>)

  /** One step of task `i` with the code as written: the generation is
      read (line 79) in a step of its own, before `current` is locked. */
  function BarrierStep(sys: BarrierSystem, i: nat): BarrierSystem
  {
    if i >= |sys.pcs| then sys
    else
      var b := sys.b;
      match sys.pcs[i]
      case Outside => sys.(pcs := sys.pcs[i := Snapped(b.generation)])
      case Snapped(g) =>
        var (leader, b1) := Arrive(b);
        BarrierSystem(b1, sys.pcs[i := if leader then Returned(true) else Registering(g)])
      case Registering(g) => BarrierSystem(Register(b, Some(i + 1)), sys.pcs[i := Polling(g)])
      case Polling(g) => if Poll(b, g) then sys.(pcs := sys.pcs[i := Returned(false)]) else sys
      case Returned(_) => sys.(pcs := sys.pcs[i := Outside])
  }

  /** One step of task `i` when the snapshot is taken in the same step as
      the arrival, under the `current` lock. */
  function BarrierStepFixed(sys: BarrierSystem, i: nat): BarrierSystem
  {
    if i >= |sys.pcs| then sys
    else
      var b := sys.b;
      match sys.pcs[i]
      case Outside =>
        var (leader, b1) := Arrive(b);
        BarrierSystem(b1, sys.pcs[i := if leader then Returned(true) else Registering(b.generation)])
      case Snapped(g) => sys
      case Registering(g) => BarrierSystem(Register(b, Some(i + 1)), sys.pcs[i := Polling(g)])
      case Polling(g) => if Poll(b, g) then sys.(pcs := sys.pcs[i := Returned(false)]) else sys
      case Returned(_) => sys.(pcs := sys.pcs[i := Outside])
  }

  function BarrierRun(sys: BarrierSystem, tasks: seq<nat>, fixed: bool): BarrierSystem
    decreases |tasks|
  {
    if tasks == [] then sys
    else
      var next := if fixed then BarrierStepFixed(sys, tasks[0]) else BarrierStep(sys, tasks[0]);
      BarrierRun(next, tasks[1..], fixed)
  }

  /** Waiting in generation `gen`: arrived, counted, not yet released. */
  function WaitingIn(gen: nat): BarrierPc -> bool
  {
    (pc: BarrierPc) => (pc.Registering? || pc.Polling?) && pc.g == gen
  }

  /** The barrier's intended meaning: `current` is exactly the number of
      tasks waiting in the present generation, no snapshot is from the
      future, and a generation is released before `current` reaches
      `count`. */
  ghost predicate BarrierInv(sys: BarrierSystem)
  {
    && sys.b.count > 0
    && sys.b.current < sys.b.count
    && sys.b.current == CountWhere(sys.pcs, WaitingIn(sys.b.generation))
    && (forall i :: 0 <= i < |sys.pcs| && !sys.pcs[i].Outside? && !sys.pcs[i].Returned?
          ==> sys.pcs[i].g <= sys.b.generation)
    && (forall i :: 0 <= i < |sys.pcs| ==> !sys.pcs[i].Snapped?)
  }

  lemma {:induction false} NoneWaitingIn(pcs: seq<BarrierPc>, gen: nat)
    requires forall i :: 0 <= i < |pcs| && !pcs[i].Outside? && !pcs[i].Returned? ==> pcs[i].g < gen
    ensures CountWhere(pcs, WaitingIn(gen)) == 0
    decreases |pcs|
  {
    if pcs != [] {
      NoneWaitingIn(pcs[1..], gen);
    }
  }

  lemma BarrierInitial(count: nat, n: nat)
    requires count > 0
    ensures BarrierInv(BarrierSystem(NewBarrier(count), seq(n, _ => Outside)))
  {
    NoneWaitingIn(seq(n, _ => Outside), 0);
  }

  lemma BarrierFixedPreserves(sys: BarrierSystem, i: nat)
    requires BarrierInv(sys)
    ensures BarrierInv(BarrierStepFixed(sys, i))
  {
    if i < |sys.pcs| {
      var b := sys.b;
      var f := WaitingIn(b.generation);
      match sys.pcs[i]
      case Outside =>
        var (leader, b1) := Arrive(b);
        if leader {
          var pcs1 := sys.pcs[i := Returned(true)];
          NoneWaitingIn(pcs1, b1.generation);
        } else {
          CountWhereUpdate(sys.pcs, f, i, Registering(b.generation));
        }
      case Snapped(g) =>
      case Registering(g) =>
        CountWhereUpdate(sys.pcs, f, i, Polling(g));
      case Polling(g) =>
        CountWhereUpdate(sys.pcs, f, i, Returned(false));
      case Returned(l) =>
        CountWhereUpdate(sys.pcs, f, i, Outside);
    }
  }

  lemma {:induction false} BarrierFixedRun(sys: BarrierSystem, tasks: seq<nat>)
    requires BarrierInv(sys)
    ensures BarrierInv(BarrierRun(sys, tasks, true))
    ensures BarrierRun(sys, tasks, true).b.count == sys.b.count
    decreases |tasks|
  {
    if tasks != [] {
      BarrierFixedPreserves(sys, tasks[0]);
      BarrierFixedRun(BarrierStepFixed(sys, tasks[0]), tasks[1..]);
    }
  }

  /** With the snapshot taken under the lock, after any interleaving of
      any number of tasks, every arrival still counted in `current` belongs
      to a task that is still waiting, and a follower that has returned did
      so from a generation that has been released. */
  lemma BarrierFixedSound(count: nat, n: nat, tasks: seq<nat>)
    requires count > 0
    ensures var sys := BarrierRun(BarrierSystem(NewBarrier(count), seq(n, _ => Outside)), tasks, true);
      && sys.b.current == CountWhere(sys.pcs, WaitingIn(sys.b.generation))
      && sys.b.current < count
  {
    BarrierInitial(count, n);
    BarrierFixedRun(BarrierSystem(NewBarrier(count), seq(n, _ => Outside)), tasks);
  }

  /** As written, a task whose snapshot went stale before it arrived is
      counted in the next generation but leaves at once: with a barrier
      for two and three tasks, task 0 passes alone and leaves `current`
      at 1 with nobody waiting in the present generation. */
  lemma BarrierStaleSnapshot()
    ensures var sys := BarrierRun(StaleState(0), [0, 1, 1, 1, 2, 2, 0, 0, 0], false);
      && |sys.pcs| == 3
      && sys.pcs[0] == Returned(false)
      && sys.b.current == 1
      && CountWhere(sys.pcs, WaitingIn(sys.b.generation)) == 0
  {
    StaleRunFrom(0);
    assert StaleTasks()[0..] == StaleTasks();
    NoneWaitingIn(StaleState(9).pcs, 1);
  }

  /** Running the rest of the schedule from its `k`-th state ends in its
      last state. */
  lemma {:induction false} StaleRunFrom(k: nat)
    requires k <= 9
    ensures BarrierRun(StaleState(k), StaleTasks()[k..], false) == StaleState(9)
    decreases 9 - k
  {
    var t := StaleTasks()[k..];
    if k < 9 {
      StaleStep(k);
      assert t[0] == StaleTask(k);
      assert t[1..] == StaleTasks()[k + 1..];
      StaleRunFrom(k + 1);
    } else {
      assert t == [];
    }
  }

  /** The states of that schedule, and the task that moves from each. */
  function StaleState(k: nat): BarrierSystem
  {
    var O, S, R, P := Outside, Snapped(0), Registering(0), Polling(0);
    if k == 0 then BarrierSystem(Barrier(2, 0, 0, []), [O, O, O])
    else if k == 1 then BarrierSystem(Barrier(2, 0, 0, []), [S, O, O])
    else if k == 2 then BarrierSystem(Barrier(2, 0, 0, []), [S, S, O])
    else if k == 3 then BarrierSystem(Barrier(2, 1, 0, []), [S, R, O])
    else if k == 4 then BarrierSystem(Barrier(2, 1, 0, [2]), [S, P, O])
    else if k == 5 then BarrierSystem(Barrier(2, 1, 0, [2]), [S, P, S])
    else if k == 6 then BarrierSystem(Barrier(2, 0, 1, []), [S, P, Returned(true)])
    else if k == 7 then BarrierSystem(Barrier(2, 1, 1, []), [R, P, Returned(true)])
    else if k == 8 then BarrierSystem(Barrier(2, 1, 1, [1]), [P, P, Returned(true)])
    else BarrierSystem(Barrier(2, 1, 1, [1]), [Returned(false), P, Returned(true)])
  }

  function StaleTasks(): seq<nat>
  {
    [0, 1, 1, 1, 2, 2, 0, 0, 0]
  }

  function StaleTask(k: nat): nat
  {
    if k < 9 then StaleTasks()[k] else 0
  }

  lemma StaleStep(k: nat)
    requires k < 9
    ensures BarrierStep(StaleState(k), StaleTask(k)) == StaleState(k + 1)
  {
    if k == 0 {
    } else if k == 1 {
    } else if k == 2 {
    } else if k == 3 {
    } else if k == 4 {
    } else if k == 5 {
    } else if k == 6 {
    } else if k == 7 {
    } else {
      assert k == 8;
    }
  }

  // ---------------------------------------------------------------------
  // Once

  datatype Once = Once(done: bool, running: bool)

  const NewOnce: Once := Once(false, false)

  /** `is_completed`. */
  function IsCompleted(o: Once): bool { o.done }

  /** Where task `i` is in `call_once`: outside, past the first `done`
      check, about to run `f`, about to publish `done`, spinning on `done`
      behind another initialiser, or returned. */
  datatype OncePc = OnceOutside | OnceLocking | OnceRunning | OncePublishing | OnceSpinning | OnceReturned

  /** The system also counts how many times `f` has run. */
  datatype OnceSystem = OnceSystem(o: Once, pcs: seq<OncePc>, runs: nat)

  /** One step of task `i`; the section under the `running` lock is one
      step. */
  function OnceStep(sys: OnceSystem, i: nat): (r: OnceSystem)
    ensures i < |sys.pcs| && sys.pcs[i] == OnceOutside && sys.o.done ==> r == sys.(pcs := sys.pcs[i := OnceReturned])
    ensures r.runs == sys.runs + (if i < |sys.pcs| && sys.pcs[i] == OnceRunning then 1 else 0)
  {
    if i >= |sys.pcs| then sys
    else
      var o := sys.o;
      match sys.pcs[i]
      case OnceOutside => sys.(pcs := sys.pcs[i := if o.done then OnceReturned else OnceLocking])
      case OnceLocking =>
        if o.done then sys.(pcs := sys.pcs[i := OnceReturned])
        else if !o.running then OnceSystem(o.(running := true), sys.pcs[i := OnceRunning], sys.runs)
        else sys.(pcs := sys.pcs[i := OnceSpinning])
      case OnceRunning => sys.(pcs := sys.pcs[i := OncePublishing], runs := sys.runs + 1)
      case OncePublishing => OnceSystem(o.(done := true), sys.pcs[i := OnceReturned], sys.runs)
      case OnceSpinning => if o.done then sys.(pcs := sys.pcs[i := OnceReturned]) else sys
      case OnceReturned => sys.(pcs := sys.pcs[i := OnceOutside])
  }

  predicate AboutToRun(pc: OncePc) { pc == OnceRunning }
  predicate Initialising(pc: OncePc) { pc in {OnceRunning, OncePublishing} }

  /** `running` is set exactly when `f` has run or one task is about to run
      it; `done` is set only after `f` has run. */
  ghost predicate OnceInv(sys: OnceSystem)
  {
    && sys.runs + CountWhere(sys.pcs, AboutToRun) == (if sys.o.running then 1 else 0)
    && CountWhere(sys.pcs, Initialising) <= (if sys.o.running && !sys.o.done then 1 else 0)
    && (sys.o.done ==> sys.o.running && sys.runs == 1)
    && (forall i :: 0 <= i < |sys.pcs| && sys.pcs[i] == OncePublishing ==> sys.runs == 1)
  }

  lemma OnceStepPreserves(sys: OnceSystem, i: nat)
    requires OnceInv(sys)
    ensures OnceInv(OnceStep(sys, i))
  {
    if i < |sys.pcs| {
      var pc := sys.pcs[i];
      var next := OnceStep(sys, i);
      CountWhereUpdate(sys.pcs, AboutToRun, i, next.pcs[i]);
      CountWhereUpdate(sys.pcs, Initialising, i, next.pcs[i]);
      if Initialising(pc) {
        CountWhereBound(sys.pcs, Initialising, i, i);
      }
      if AboutToRun(pc) {
        CountWhereBound(sys.pcs, AboutToRun, i, i);
      }
    }
  }

  function OnceRun(sys: OnceSystem, tasks: seq<nat>): OnceSystem
    decreases |tasks|
  {
    if tasks == [] then sys else OnceRun(OnceStep(sys, tasks[0]), tasks[1..])
  }

  lemma {:induction false} OnceRunPreserves(sys: OnceSystem, tasks: seq<nat>)
    requires OnceInv(sys)
    ensures OnceInv(OnceRun(sys, tasks))
    decreases |tasks|
  {
    if tasks != [] {
      OnceStepPreserves(sys, tasks[0]);
      OnceRunPreserves(OnceStep(sys, tasks[0]), tasks[1..]);
    }
  }

  lemma {:induction false} OnceStartsIdle(pcs: seq<OncePc>)
    requires forall i :: 0 <= i < |pcs| ==> pcs[i] == OnceOutside
    ensures CountWhere(pcs, AboutToRun) == 0 && CountWhere(pcs, Initialising) == 0
    decreases |pcs|
  {
    if pcs != [] {
      OnceStartsIdle(pcs[1..]);
    }
  }

  /** `f` runs at most once over any interleaving of any number of
      `call_once` calls; once `is_completed` holds it has run exactly once,
      and a later call returns in one step without running it. */
  lemma OnceAtMostOnce(n: nat, tasks: seq<nat>)
    ensures var sys := OnceRun(OnceSystem(NewOnce, seq(n, _ => OnceOutside), 0), tasks);
      && sys.runs <= 1
      && (IsCompleted(sys.o) ==> sys.runs == 1)
      && (forall i :: 0 <= i < |sys.pcs| && sys.pcs[i] == OnceOutside && IsCompleted(sys.o)
            ==> OnceStep(sys, i).runs == 1 && OnceStep(sys, i).pcs[i] == OnceReturned)
  {
    var init := OnceSystem(NewOnce, seq(n, _ => OnceOutside), 0);
    OnceStartsIdle(init.pcs);
    OnceRunPreserves(init, tasks);
  }
}
