/** Counting and binary semaphores (kernel/src/sync/semaphore.rs) as
    single-step state machines on one core.

    One iteration of a compare-and-swap loop is one step: an iteration that
    wins the CAS is an atomic decrement-if-positive, and an iteration that
    loses it changes nothing (a stutter step), so the model omits it. As the
    code stands, `signal` always increments `count` and drops the oldest
    waiter without waking it (the wake-up is a TODO), and `wait` on a zero
    count parks the caller's pid and yields, then tries again. */
module SyncSemaphore {
  import opened Common

  type Pid = nat

  const ISIZE_MIN: int := -0x8000_0000_0000_0000
  const ISIZE_MAX: int := 0x7FFF_FFFF_FFFF_FFFF

  type isize = x: int | ISIZE_MIN <= x <= ISIZE_MAX

  /** `AtomicIsize::fetch_add(1)` wraps at the top of the range. */
  function WrappingInc(x: isize): (r: isize)
    ensures x < ISIZE_MAX ==> r == x + 1
    ensures x == ISIZE_MAX ==> r == ISIZE_MIN
  {
    if x == ISIZE_MAX then ISIZE_MIN else x + 1
  }

  datatype Semaphore = Semaphore(count: isize, waiters: seq<Pid>)

  function New(count: isize): (s: Semaphore)
    ensures s.count == count && s.waiters == []
  {
    Semaphore(count, [])
  }

  /** One iteration of `wait`'s loop: `(returned, next state)`. With a
      positive count the caller takes one unit and returns; otherwise its
      pid (if there is a current process) joins the tail of the waiters and
      it yields, leaving the count alone. */
  function WaitStep(s: Semaphore, current: Option<Pid>): (r: (bool, Semaphore))
    ensures r.0 <==> s.count > 0
    ensures r.0 ==> r.1 == s.(count := s.count - 1)
    ensures !r.0 ==> (r.1.count == s.count &&
                      r.1.waiters == s.waiters + (if current.Some? then [current.value] else []))
  {
    if s.count > 0 then (true, s.(count := s.count - 1))
    else (false, s.(waiters := s.waiters + (if current.Some? then [current.value] else [])))
  }

  /** `try_wait`: take a unit iff one is available; never enqueues. */
  function TryWait(s: Semaphore): (r: (bool, Semaphore))
    ensures r.0 <==> s.count > 0
    ensures r.0 ==> r.1 == s.(count := s.count - 1)
    ensures !r.0 ==> r.1 == s
  {
    if s.count > 0 then (true, s.(count := s.count - 1)) else (false, s)
  }

  /** `signal`: one more unit, and the oldest waiter (if any) is dropped. */
  function Signal(s: Semaphore): (r: Semaphore)
    ensures r.count == WrappingInc(s.count)
    ensures s.waiters == [] ==> r.waiters == []
    ensures s.waiters != [] ==> [s.waiters[0]] + r.waiters == s.waiters
  {
    Semaphore(WrappingInc(s.count), if s.waiters == [] then [] else s.waiters[1..])
  }

  /** `count()`. */
  function Count(s: Semaphore): isize { s.count }

  // ---------------------------------------------------------------------
  // Conservation over any run of operations

  datatype Op = WaitOp(caller: Option<Pid>) | TryWaitOp | SignalOp

  function Signals(ops: seq<Op>): nat
  {
    if ops == [] then 0 else (if ops[0].SignalOp? then 1 else 0) + Signals(ops[1..])
  }

  /** Applies the operations in order; also returns how many wait or
      try_wait steps took a unit. */
  function Run(s: Semaphore, ops: seq<Op>): (r: (Semaphore, nat))
    decreases |ops|
  {
    if ops == [] then (s, 0)
    else
      var (taken, s1) := match ops[0]
        case WaitOp(c) => WaitStep(s, c)
        case TryWaitOp => TryWait(s)
        case SignalOp => (false, Signal(s));
      var (s2, n) := Run(s1, ops[1..]);
      (s2, n + (if taken then 1 else 0))
  }

  /** Units are neither created nor lost: the final count is the initial
      count plus the signals minus the completed waits, and a count that
      starts non-negative stays non-negative (while it cannot wrap). */
  lemma {:induction false} Conservation(s: Semaphore, ops: seq<Op>)
    requires s.count + |ops| <= ISIZE_MAX
    ensures Run(s, ops).0.count == s.count + Signals(ops) - Run(s, ops).1
    ensures s.count >= 0 ==> Run(s, ops).0.count >= 0
    decreases |ops|
  {
    if ops != [] {
      var (taken, s1) := match ops[0]
        case WaitOp(c) => WaitStep(s, c)
        case TryWaitOp => TryWait(s)
        case SignalOp => (false, Signal(s));
      assert s1.count == s.count + (if ops[0].SignalOp? then 1 else 0) - (if taken then 1 else 0);
      Conservation(s1, ops[1..]);
    }
  }

  // ---------------------------------------------------------------------
  // BinarySemaphore

  /** `BinarySemaphore::new`: count 1 when available, else 0. */
  function NewBinary(available: bool): (s: Semaphore)
    ensures s.count == (if available then 1 else 0) && s.waiters == []
  {
    New(if available then 1 else 0)
  }

  /** `release`: signal only while the count is below 1. */
  function Release(s: Semaphore): (r: Semaphore)
    ensures s.count < 1 ==> r == Signal(s)
    ensures s.count >= 1 ==> r == s
  {
    if s.count < 1 then Signal(s) else s
  }

  predicate BinaryInv(s: Semaphore) { 0 <= s.count <= 1 }

  /** `acquire` (one step), `try_acquire` and `release` keep the count in
      {0, 1}. */
  lemma BinaryStaysBinary(s: Semaphore, current: Option<Pid>)
    requires BinaryInv(s)
    ensures BinaryInv(WaitStep(s, current).1)
    ensures BinaryInv(TryWait(s).1)
    ensures BinaryInv(Release(s))
    ensures Release(s).count == 1
  {
  }

  /** Over any run of binary-semaphore operations the count stays in {0, 1}. */
  lemma {:induction false} BinaryRun(s: Semaphore, ops: seq<BinaryOp>)
    requires BinaryInv(s)
    ensures BinaryInv(RunBinary(s, ops))
    decreases |ops|
  {
    if ops != [] {
      BinaryStaysBinary(s, if ops[0].AcquireOp? then ops[0].caller else None);
      var s1 := match ops[0]
        case AcquireOp(c) => WaitStep(s, c).1
        case TryAcquireOp => TryWait(s).1
        case ReleaseOp => Release(s);
      BinaryRun(s1, ops[1..]);
    }
  }

  datatype BinaryOp = AcquireOp(caller: Option<Pid>) | TryAcquireOp | ReleaseOp

  function RunBinary(s: Semaphore, ops: seq<BinaryOp>): Semaphore
    decreases |ops|
  {
    if ops == [] then s
    else
      var s1 := match ops[0]
        case AcquireOp(c) => WaitStep(s, c).1
        case TryAcquireOp => TryWait(s).1
        case ReleaseOp => Release(s);
      RunBinary(s1, ops[1..])
  }
}
