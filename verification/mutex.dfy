/** Blocking mutex, recursive mutex and reader-writer lock
    (kernel/src/sync/mutex.rs) as state machines on one core.

    Each atomic access of the source is one step. Unlocking happens only
    when a guard is dropped, so only the holder can unlock; `unlock` itself
    checks nothing about its caller, and the oldest waiter is dropped from
    the queue without being woken (the wake-up is a TODO): a blocked
    `lock` simply retries after yielding. Owners are pids, 0 meaning "no
    owner". Mutual exclusion is proved over any interleaving of any number
    of tasks. */
module SyncMutex {
  import opened Common

  type Pid = nat

  /** `current_pid().map(as_u32).unwrap_or(0)`. */
  function CallerId(current: Option<Pid>): Pid
  {
    if current.Some? then current.value else 0
  }

  // ---------------------------------------------------------------------
  // Mutex

  datatype Mutex = Mutex(locked: bool, owner: Pid, waiters: seq<Pid>)

  const NewMutex: Mutex := Mutex(false, 0, [])

  /** `try_lock`: the CAS on `locked` succeeds iff the mutex is free; the
      owner is then the current pid (left as it was when there is no
      current process). A failed attempt changes nothing. */
  function TryLock(m: Mutex, current: Option<Pid>): (r: (bool, Mutex))
    ensures r.0 <==> !m.locked
    ensures r.0 ==> r.1.locked && r.1.waiters == m.waiters
    ensures r.0 && current.Some? ==> r.1.owner == current.value
    ensures r.0 && current.None? ==> r.1.owner == m.owner
    ensures !r.0 ==> r.1 == m
  {
    if m.locked then (false, m)
    else (true, m.(locked := true, owner := if current.Some? then current.value else m.owner))
  }

  /** One iteration of `lock`'s loop: try, and on failure append the
      current pid to the waiters (a pid retrying again is appended again). */
  function LockStep(m: Mutex, current: Option<Pid>): (r: (bool, Mutex))
    ensures r.0 <==> !m.locked
    ensures r.0 ==> r.1 == TryLock(m, current).1
    ensures !r.0 ==> r.1 == m.(waiters := m.waiters + (if current.Some? then [current.value] else []))
  {
    var (ok, m1) := TryLock(m, current);
    if ok then (true, m1)
    else (false, m1.(waiters := m1.waiters + (if current.Some? then [current.value] else [])))
  }

  /** `unlock` (run by `MutexGuard::drop`): clear owner and lock, drop the
      oldest waiter. */
  function Unlock(m: Mutex): (r: Mutex)
    ensures !r.locked && r.owner == 0
    ensures m.waiters == [] ==> r.waiters == []
    ensures m.waiters != [] ==> [m.waiters[0]] + r.waiters == m.waiters
  {
    Mutex(false, 0, if m.waiters == [] then [] else m.waiters[1..])
  }

  /** `is_locked`. */
  function IsLocked(m: Mutex): bool { m.locked }

  /** A caller that fails twice is queued twice: duplicates are possible. */
  lemma LockRetryDuplicates(m: Mutex, pid: Pid)
    requires m.locked
    ensures var m2 := LockStep(LockStep(m, Some(pid)).1, Some(pid)).1;
      m2.waiters == m.waiters + [pid, pid] && Count(m2.waiters, pid) == Count(m.waiters, pid) + 2
  {
    var m2 := LockStep(LockStep(m, Some(pid)).1, Some(pid)).1;
    assert m2.waiters == m.waiters + [pid] + [pid];
    CountAppend(m.waiters, [pid], pid);
    CountAppend(m.waiters + [pid], [pid], pid);
    assert [pid] + [pid] == [pid, pid];
  }

  lemma {:induction false} CountAppend(a: seq<Pid>, b: seq<Pid>, x: Pid)
    ensures Count(a + b, x) == Count(a, x) + Count(b, x)
  {
    if a == [] {
      assert a + b == b;
    } else {
      assert (a + b)[0] == a[0];
      assert (a + b)[1..] == a[1..] + b;
      CountAppend(a[1..], b, x);
    }
  }

  /** Where task `i` (pid `i + 1`) is with respect to one mutex. */
  datatype MutexPc = Outside | Trying | Holding

  predicate IsHolding(pc: MutexPc) { pc == Holding }

  datatype MutexSystem = MutexSystem(m: Mutex, pcs: seq<MutexPc>)

  /** What a task does next: start `lock`, run one iteration of `lock`,
      call `try_lock`, or drop its guard. */
  datatype MutexEvent = Call(i: nat) | Attempt(i: nat) | TryOnce(i: nat) | Drop(i: nat)

  /** One step of the system; an event for a task that is not in the
      right place changes nothing. */
  function MutexStep(sys: MutexSystem, e: MutexEvent): MutexSystem
  {
    var m := sys.m;
    var pcs := sys.pcs;
    match e
    case Call(i) =>
      if i < |pcs| && pcs[i] == Outside then sys.(pcs := pcs[i := Trying]) else sys
    case Attempt(i) =>
      if i < |pcs| && pcs[i] == Trying then
        var (ok, m1) := LockStep(m, Some(i + 1));
        MutexSystem(m1, if ok then pcs[i := Holding] else pcs)
      else sys
    case TryOnce(i) =>
      if i < |pcs| && pcs[i] == Outside then
        var (ok, m1) := TryLock(m, Some(i + 1));
        MutexSystem(m1, if ok then pcs[i := Holding] else pcs)
      else sys
    case Drop(i) =>
      if i < |pcs| && pcs[i] == Holding then MutexSystem(Unlock(m), pcs[i := Outside]) else sys
  }

  /** The mutex is locked exactly when some task holds a guard, and every
      holder is the recorded owner (so there is only one). */
  ghost predicate MutexInv(sys: MutexSystem)
  {
    && CountWhere(sys.pcs, IsHolding) == (if sys.m.locked then 1 else 0)
    && (forall i :: 0 <= i < |sys.pcs| && sys.pcs[i] == Holding ==> sys.m.owner == i + 1)
  }

  lemma MutexInitial(n: nat)
    ensures MutexInv(MutexSystem(NewMutex, seq(n, _ => Outside)))
  {
    ZeroCount(seq(n, _ => Outside));
  }

  lemma {:induction false} ZeroCount(pcs: seq<MutexPc>)
    requires forall i :: 0 <= i < |pcs| ==> pcs[i] == Outside
    ensures CountWhere(pcs, IsHolding) == 0
  {
    if pcs != [] {
      ZeroCount(pcs[1..]);
    }
  }

  lemma MutexStepPreserves(sys: MutexSystem, e: MutexEvent)
    requires MutexInv(sys)
    ensures MutexInv(MutexStep(sys, e))
  {
    var pcs := sys.pcs;
    match e
    case Call(i) =>
      if i < |pcs| && pcs[i] == Outside {
        CountWhereUpdate(pcs, IsHolding, i, Trying);
      }
    case Attempt(i) =>
      if i < |pcs| && pcs[i] == Trying && !sys.m.locked {
        CountWhereUpdate(pcs, IsHolding, i, Holding);
        NoHolder(sys);
      }
    case TryOnce(i) =>
      if i < |pcs| && pcs[i] == Outside && !sys.m.locked {
        CountWhereUpdate(pcs, IsHolding, i, Holding);
        NoHolder(sys);
      }
    case Drop(i) =>
      if i < |pcs| && pcs[i] == Holding {
        CountWhereUpdate(pcs, IsHolding, i, Outside);
        CountWhereBound(pcs, IsHolding, i, i);
      }
  }

  lemma NoHolder(sys: MutexSystem)
    requires MutexInv(sys) && !sys.m.locked
    ensures forall j :: 0 <= j < |sys.pcs| ==> sys.pcs[j] != Holding
  {
    forall j | 0 <= j < |sys.pcs|
      ensures sys.pcs[j] != Holding
    {
      if sys.pcs[j] == Holding {
        CountWhereBound(sys.pcs, IsHolding, j, j);
      }
    }
  }

  function MutexRun(sys: MutexSystem, events: seq<MutexEvent>): MutexSystem
    decreases |events|
  {
    if events == [] then sys else MutexRun(MutexStep(sys, events[0]), events[1..])
  }

  lemma {:induction false} MutexRunPreserves(sys: MutexSystem, events: seq<MutexEvent>)
    requires MutexInv(sys)
    ensures MutexInv(MutexRun(sys, events))
    decreases |events|
  {
    if events != [] {
      MutexStepPreserves(sys, events[0]);
      MutexRunPreserves(MutexStep(sys, events[0]), events[1..]);
    }
  }

  /** Mutual exclusion: after any interleaving of lock, try_lock and guard
      drops by any number of tasks, at most one task holds the mutex, it is
      the recorded owner, and the mutex is locked iff someone holds it. */
  lemma MutualExclusion(n: nat, events: seq<MutexEvent>)
    ensures var sys := MutexRun(MutexSystem(NewMutex, seq(n, _ => Outside)), events);
      && (forall i, j :: 0 <= i < j < |sys.pcs| ==> !(sys.pcs[i] == Holding && sys.pcs[j] == Holding))
      && (forall i :: 0 <= i < |sys.pcs| && sys.pcs[i] == Holding ==> sys.m.locked && sys.m.owner == i + 1)
      && (!sys.m.locked ==> forall i :: 0 <= i < |sys.pcs| ==> sys.pcs[i] != Holding)
  {
    var init := MutexSystem(NewMutex, seq(n, _ => Outside));
    MutexInitial(n);
    MutexRunPreserves(init, events);
    var sys := MutexRun(init, events);
    forall i | 0 <= i < |sys.pcs| && sys.pcs[i] == Holding
      ensures sys.m.locked
    {
      CountWhereBound(sys.pcs, IsHolding, i, i);
    }
  }

  // ---------------------------------------------------------------------
  // RecursiveMutex

  const U32_MODULUS: int := 0x1_0000_0000

  datatype RecursiveMutex = RecursiveMutex(locked: bool, owner: Pid, count: u32)

  const NewRecursive: RecursiveMutex := RecursiveMutex(false, 0, 0)

  /** One iteration of `RecursiveMutex::lock`: a re-lock by the owner bumps
      the count (wrapping); a free mutex is taken with count 1; otherwise
      the caller yields and retries, changing nothing. */
  function RecursiveLockStep(m: RecursiveMutex, current: Option<Pid>): (r: (bool, RecursiveMutex))
    ensures r.0 <==> !m.locked || m.owner == CallerId(current)
    ensures r.0 ==> r.1.locked && r.1.owner == CallerId(current)
    ensures m.locked && r.0 ==> r.1.count == (m.count + 1) % U32_MODULUS
    ensures !m.locked ==> r.1.count == 1
    ensures !r.0 ==> r.1 == m
  {
    var me := CallerId(current);
    if m.locked && m.owner == me then (true, m.(count := (m.count + 1) % U32_MODULUS))
    else if !m.locked then (true, RecursiveMutex(true, me, 1))
    else (false, m)
  }

  /** `RecursiveMutex::unlock`: `fetch_sub(1)` (wrapping); the lock is
      released only when the count was exactly 1. */
  function RecursiveUnlock(m: RecursiveMutex): (r: RecursiveMutex)
    ensures r.count == (m.count - 1) % U32_MODULUS
    ensures m.count == 1 ==> !r.locked && r.owner == 0
    ensures m.count != 1 ==> r.locked == m.locked && r.owner == m.owner
  {
    var c := m.count;
    var m1 := m.(count := (c - 1) % U32_MODULUS);
    if c == 1 then m1.(owner := 0, locked := false) else m1
  }

  function LockN(m: RecursiveMutex, current: Option<Pid>, n: nat): RecursiveMutex
    decreases n
  {
    if n == 0 then m else LockN(RecursiveLockStep(m, current).1, current, n - 1)
  }

  function UnlockN(m: RecursiveMutex, n: nat): RecursiveMutex
    decreases n
  {
    if n == 0 then m else UnlockN(RecursiveUnlock(m), n - 1)
  }

  lemma {:induction false} LockNCount(m: RecursiveMutex, current: Option<Pid>, n: nat)
    requires m.locked && m.owner == CallerId(current) && m.count + n < U32_MODULUS
    ensures LockN(m, current, n) == m.(count := m.count + n)
    decreases n
  {
    if n > 0 {
      LockNCount(m.(count := m.count + 1), current, n - 1);
    }
  }

  lemma {:induction false} UnlockNCount(m: RecursiveMutex, n: nat)
    requires m.locked && n < m.count
    ensures UnlockN(m, n) == m.(count := m.count - n)
    decreases n
  {
    if n > 0 {
      UnlockNCount(m.(count := m.count - 1), n - 1);
    }
  }

  lemma {:induction false} UnlockNSplit(m: RecursiveMutex, n: nat)
    ensures UnlockN(m, n + 1) == RecursiveUnlock(UnlockN(m, n))
    decreases n
  {
    if n > 0 {
      UnlockNSplit(RecursiveUnlock(m), n - 1);
    }
  }

  /** n nested locks by one caller on a free mutex need exactly n unlocks:
      after n - 1 it is still held by that caller, after n it is free. */
  lemma NestedLocks(current: Option<Pid>, n: nat)
    requires 1 <= n < U32_MODULUS
    ensures var held := LockN(NewRecursive, current, n);
      && held == RecursiveMutex(true, CallerId(current), n)
      && UnlockN(held, n - 1) == RecursiveMutex(true, CallerId(current), 1)
      && UnlockN(held, n) == RecursiveMutex(false, 0, 0)
  {
    var me := CallerId(current);
    var first := RecursiveLockStep(NewRecursive, current).1;
    assert first == RecursiveMutex(true, me, 1);
    assert LockN(NewRecursive, current, n) == LockN(first, current, n - 1);
    LockNCount(first, current, n - 1);
    var held := RecursiveMutex(true, me, n);
    UnlockNCount(held, n - 1);
    var last := UnlockN(held, n - 1);
    assert last == RecursiveMutex(true, me, 1);
    UnlockNSplit(held, n - 1);
    assert UnlockN(held, n) == RecursiveUnlock(last);
  }

  /** A second caller cannot get in while the first holds the mutex at any
      depth. */
  lemma RecursiveExcludes(m: RecursiveMutex, me: Option<Pid>, other: Option<Pid>)
    requires m.locked && m.owner == CallerId(me) && CallerId(me) != CallerId(other)
    ensures RecursiveLockStep(m, other) == (false, m)
  {
  }

  // ---------------------------------------------------------------------
  // RwLock

  datatype RwLock = RwLock(readers: u32, writer: bool)

  const NewRwLock: RwLock := RwLock(0, false)

  /** Where a task is in `read`: outside, spinning on the writer flag,
      about to increment, about to re-check the writer flag, or holding a
      read guard. */
  datatype ReadPc = ReadOutside | ReadSpin | ReadIncrement | ReadRecheck | ReadHeld

  /** Where a task is in `write`: outside, trying the CAS, draining
      readers, or holding the write guard. */
  datatype WritePc = WriteOutside | WriteTry | WriteDrain | WriteHeld

  /** One atomic step of a reader; from `ReadHeld` the step is dropping the
      guard, which undoes this reader's increment. */
  function ReadStep(l: RwLock, pc: ReadPc): (r: (RwLock, ReadPc))
    ensures r.1 == ReadHeld ==> pc == ReadRecheck && !l.writer
    ensures r.0.writer == l.writer
    ensures pc == ReadIncrement ==> r == (l.(readers := (l.readers + 1) % U32_MODULUS), ReadRecheck)
    ensures pc == ReadRecheck && l.writer ==> r == (l.(readers := (l.readers - 1) % U32_MODULUS), ReadSpin)
    ensures pc == ReadHeld ==> r == (l.(readers := (l.readers - 1) % U32_MODULUS), ReadOutside)
    ensures pc in {ReadOutside, ReadSpin} ==> r.0 == l
  {
    match pc
    case ReadOutside => (l, ReadSpin)
    case ReadSpin => (l, if l.writer then ReadSpin else ReadIncrement)
    case ReadIncrement => (l.(readers := (l.readers + 1) % U32_MODULUS), ReadRecheck)
    case ReadRecheck =>
      if l.writer then (l.(readers := (l.readers - 1) % U32_MODULUS), ReadSpin) else (l, ReadHeld)
    case ReadHeld => (l.(readers := (l.readers - 1) % U32_MODULUS), ReadOutside)
  }

  /** One atomic step of a writer; from `WriteHeld` the step is dropping
      the guard, which clears the writer flag and nothing else. The drain
      loop does not look at the writer flag again. */
  function WriteStep(l: RwLock, pc: WritePc): (r: (RwLock, WritePc))
    ensures r.1 == WriteHeld ==> pc == WriteDrain && l.readers == 0
    ensures r.0.readers == l.readers
    ensures pc == WriteTry ==> r == (if l.writer then (l, WriteTry) else (l.(writer := true), WriteDrain))
    ensures pc == WriteHeld ==> r == (l.(writer := false), WriteOutside)
    ensures pc in {WriteOutside, WriteDrain} ==> r.0 == l
  {
    match pc
    case WriteOutside => (l, WriteTry)
    case WriteTry => if l.writer then (l, WriteTry) else (l.(writer := true), WriteDrain)
    case WriteDrain => (l, if l.readers > 0 then WriteDrain else WriteHeld)
    case WriteHeld => (l.(writer := false), WriteOutside)
  }

  /** A reader that finds a writer at the re-check backs out: its
      increment and back-out cancel. */
  lemma ReaderBacksOut(l: RwLock)
    requires l.writer && l.readers + 1 < U32_MODULUS
    ensures var s1 := ReadStep(l, ReadIncrement);
      ReadStep(s1.0, s1.1) == (l, ReadSpin)
  {
  }

  predicate CountsAsReader(pc: ReadPc) { pc in {ReadRecheck, ReadHeld} }
  predicate OwnsWriterFlag(pc: WritePc) { pc in {WriteDrain, WriteHeld} }

  datatype RwSystem = RwSystem(lock: RwLock, readers: seq<ReadPc>, writers: seq<WritePc>)

  datatype RwEvent = ReaderMoves(i: nat) | WriterMoves(i: nat)

  function RwStep(sys: RwSystem, e: RwEvent): RwSystem
  {
    match e
    case ReaderMoves(i) =>
      if i < |sys.readers| then
        var (l, pc) := ReadStep(sys.lock, sys.readers[i]);
        sys.(lock := l, readers := sys.readers[i := pc])
      else sys
    case WriterMoves(i) =>
      if i < |sys.writers| then
        var (l, pc) := WriteStep(sys.lock, sys.writers[i]);
        sys.(lock := l, writers := sys.writers[i := pc])
      else sys
  }

  /** The reader count is the number of readers past their increment, the
      writer flag belongs to exactly the one writer past its CAS, and no
      reader holds a guard while a writer does. */
  ghost predicate RwInv(sys: RwSystem)
  {
    && |sys.readers| < U32_MODULUS
    && sys.lock.readers == CountWhere(sys.readers, CountsAsReader)
    && CountWhere(sys.writers, OwnsWriterFlag) == (if sys.lock.writer then 1 else 0)
    && (forall i, j :: 0 <= i < |sys.writers| && 0 <= j < |sys.readers| && sys.writers[i] == WriteHeld
          ==> sys.readers[j] != ReadHeld)
  }

  lemma RwStepPreserves(sys: RwSystem, e: RwEvent)
    requires RwInv(sys)
    ensures RwInv(RwStep(sys, e))
  {
    match e
    case ReaderMoves(i) =>
      if i < |sys.readers| {
        var pc := ReadStep(sys.lock, sys.readers[i]).1;
        CountWhereUpdate(sys.readers, CountsAsReader, i, pc);
        if CountsAsReader(sys.readers[i]) {
          CountWhereBound(sys.readers, CountsAsReader, i, i);
        }
        if pc == ReadHeld {
          forall w | 0 <= w < |sys.writers| ensures sys.writers[w] != WriteHeld {
            if sys.writers[w] == WriteHeld {
              CountWhereBound(sys.writers, OwnsWriterFlag, w, w);
            }
          }
        }
      }
    case WriterMoves(i) =>
      if i < |sys.writers| {
        var pc := WriteStep(sys.lock, sys.writers[i]).1;
        CountWhereUpdate(sys.writers, OwnsWriterFlag, i, pc);
        if OwnsWriterFlag(sys.writers[i]) {
          CountWhereBound(sys.writers, OwnsWriterFlag, i, i);
        }
        if pc == WriteHeld {
          forall r | 0 <= r < |sys.readers| ensures sys.readers[r] != ReadHeld {
            if sys.readers[r] == ReadHeld {
              CountWhereBound(sys.readers, CountsAsReader, r, r);
            }
          }
        }
      }
  }

  function RwRun(sys: RwSystem, events: seq<RwEvent>): RwSystem
    decreases |events|
  {
    if events == [] then sys else RwRun(RwStep(sys, events[0]), events[1..])
  }

  lemma {:induction false} RwRunPreserves(sys: RwSystem, events: seq<RwEvent>)
    requires RwInv(sys)
    ensures RwInv(RwRun(sys, events))
    decreases |events|
  {
    if events != [] {
      RwStepPreserves(sys, events[0]);
      RwRunPreserves(RwStep(sys, events[0]), events[1..]);
    }
  }

  lemma {:induction false} ReadersStartOutside(pcs: seq<ReadPc>)
    requires forall i :: 0 <= i < |pcs| ==> pcs[i] == ReadOutside
    ensures CountWhere(pcs, CountsAsReader) == 0
  {
    if pcs != [] {
      ReadersStartOutside(pcs[1..]);
    }
  }

  lemma {:induction false} WritersStartOutside(pcs: seq<WritePc>)
    requires forall i :: 0 <= i < |pcs| ==> pcs[i] == WriteOutside
    ensures CountWhere(pcs, OwnsWriterFlag) == 0
  {
    if pcs != [] {
      WritersStartOutside(pcs[1..]);
    }
  }

  /** Reader-writer exclusion: from a fresh lock, after any interleaving of
      fewer than 2^32 readers and any number of writers, a write guard never
      coexists with a read guard or with another write guard. */
  lemma RwExclusion(nr: nat, nw: nat, events: seq<RwEvent>)
    requires nr < U32_MODULUS
    ensures var sys := RwRun(RwSystem(NewRwLock, seq(nr, _ => ReadOutside), seq(nw, _ => WriteOutside)), events);
      && (forall i, j :: 0 <= i < |sys.writers| && 0 <= j < |sys.readers| && sys.writers[i] == WriteHeld
            ==> sys.readers[j] != ReadHeld)
      && (forall i, j :: 0 <= i < j < |sys.writers| ==> !(sys.writers[i] == WriteHeld && sys.writers[j] == WriteHeld))
  {
    var init := RwSystem(NewRwLock, seq(nr, _ => ReadOutside), seq(nw, _ => WriteOutside));
    ReadersStartOutside(init.readers);
    WritersStartOutside(init.writers);
    RwRunPreserves(init, events);
    var sys := RwRun(init, events);
    forall i, j | 0 <= i < j < |sys.writers|
      ensures !(sys.writers[i] == WriteHeld && sys.writers[j] == WriteHeld)
    {
      if sys.writers[i] == WriteHeld && sys.writers[j] == WriteHeld {
        CountWhereBound(sys.writers, OwnsWriterFlag, i, j);
      }
    }
  }
}
