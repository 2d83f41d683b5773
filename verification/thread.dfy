/** Threads (kernel/src/proc/thread.rs): the `Thread` record, tid and
    TLS-key allocation from 64-bit atomic counters, the two constructors and
    the state transitions. */
module Thread {
  import opened Common
  import P = Proc

  type Tid = u64

  datatype ThreadState = Created | Ready | Running | Blocked | Sleeping | Terminated

  datatype Thread = Thread(
    tid: Tid,
    pid: P.Pid,
    name: string,
    state: ThreadState,
    priority: P.Priority,
    context: P.CpuContext,
    kernelStack: u64,
    userStack: u64,
    timeSlice: u32,
    cpuTime: nat,
    tls: u64,
    exitValue: Option<u64>,
    isMain: bool)

  /** Two 4 KiB frames per thread kernel stack. */
  const THREAD_STACK_SIZE: nat := 8192

  /** `AtomicU64::fetch_add(1)`: the old value, and the counter advanced
      with 64-bit wrap-around. */
  function FetchAdd(counter: u64): (r: (u64, u64))
    ensures r.0 == counter
    ensures counter < 0xFFFF_FFFF_FFFF_FFFF ==> r.1 == counter + 1
    ensures counter == 0xFFFF_FFFF_FFFF_FFFF ==> r.1 == 0
  {
    (counter, (counter + 1) % U64_MODULUS)
  }

  /** `alloc_tid` with `NEXT_TID == next` (it starts at 1). */
  function AllocTid(next: u64): (r: (Tid, u64))
    ensures r.0 == next
  {
    FetchAdd(next)
  }

  /** `alloc_tls_key`: the counter value truncated `as u32`. */
  function AllocTlsKey(next: u64): (r: (u32, u64))
    ensures next < 0x1_0000_0000 ==> r.0 == next
  {
    var (prev, n) := FetchAdd(next);
    (prev % 0x1_0000_0000, n)
  }

  /** Successive tids (and TLS keys) strictly increase until the 64-bit
      (respectively 32-bit) range is exhausted. */
  lemma AllocIncreasing(next: u64)
    requires next < 0xFFFF_FFFF
    ensures AllocTid(next).0 < AllocTid(AllocTid(next).1).0
    ensures AllocTlsKey(next).0 < AllocTlsKey(AllocTlsKey(next).1).0
  {
  }

  /** The TLS key wraps to 0 after 2^32 allocations although the counter
      itself keeps growing. */
  lemma TlsKeyTruncates()
    ensures AllocTlsKey(0x1_0000_0000).0 == 0
    ensures AllocTlsKey(0x1_0000_0000).1 == 0x1_0000_0001
  {
  }

  function ThreadStackTop(base: u64): u64
  {
    (base + THREAD_STACK_SIZE) % U64_MODULUS
  }

  /** `Thread::new_kernel`; `frames` is the result of `alloc_frames(2)`. */
  function NewKernelThread(tid: Tid, pid: P.Pid, name: string, entry: u64, arg: u64,
                           frames: Option<u64>): (r: Option<Thread>)
    ensures r.Some? <==> frames.Some?
    ensures r.Some? ==>
      var t := r.value;
      && t.tid == tid && t.pid == pid && t.state == Created && t.priority == P.Normal
      && t.kernelStack == ThreadStackTop(frames.value) && t.context.rsp == t.kernelStack
      && t.context.rip == entry && t.context.rdi == arg
      && t.context.cs == 0x08 && t.context.ss == 0x10 && t.context.rflags == 0x202
      && t.context.rax == 0 && t.context.rsi == 0
      && t.userStack == 0 && t.timeSlice == 10 && t.cpuTime == 0
      && t.exitValue == None && !t.isMain
  {
    match frames
    case None => None
    case Some(base) =>
      var top := ThreadStackTop(base);
      var ctx := P.ZeroContext.(rsp := top, rip := entry, rdi := arg, rflags := P.INITIAL_RFLAGS,
                              cs := P.KERNEL_CS, ss := P.KERNEL_SS);
      Some(Thread(tid, pid, name, Created, P.Normal, ctx, top, 0, P.DEFAULT_TIME_SLICE, 0, 0, None, false))
  }

  /** `Thread::new_user`: runs on the caller's `stack` in ring 3, with a
      kernel stack for system calls. */
  function NewUserThread(tid: Tid, pid: P.Pid, name: string, entry: u64, arg: u64, stack: u64,
                         frames: Option<u64>): (r: Option<Thread>)
    ensures r.Some? <==> frames.Some?
    ensures r.Some? ==>
      var t := r.value;
      && t.tid == tid && t.pid == pid && t.state == Created
      && t.context.rsp == stack && t.userStack == stack
      && t.context.rip == entry && t.context.rdi == arg
      && t.context.cs == 0x1B && t.context.ss == 0x23 && t.context.rflags == 0x202
      && t.kernelStack == ThreadStackTop(frames.value)
      && t.timeSlice == 10 && t.exitValue == None
  {
    match frames
    case None => None
    case Some(base) =>
      var ctx := P.ZeroContext.(rsp := stack, rip := entry, rdi := arg, rflags := P.INITIAL_RFLAGS,
                              cs := P.USER_CS, ss := P.USER_SS);
      Some(Thread(tid, pid, name, Created, P.Normal, ctx, ThreadStackTop(base), stack,
                  P.DEFAULT_TIME_SLICE, 0, 0, None, false))
  }

  /** `exit`: record the value and terminate. */
  function Exit(t: Thread, value: u64): (r: Thread)
    ensures r.state == Terminated && r.exitValue == Some(value)
    ensures r.(state := t.state, exitValue := t.exitValue) == t
  {
    t.(exitValue := Some(value), state := Terminated)
  }

  /** `yield_now`: Running becomes Ready; any other state is kept. */
  function YieldNow(t: Thread): (r: Thread)
    ensures r.(state := t.state) == t
    ensures r.state == Ready <==> t.state in {Running, Ready}
    ensures t.state != Running ==> r == t
  {
    if t.state == Running then t.(state := Ready) else t
  }

  /** `sleep`: unconditionally Sleeping. */
  function Sleep(t: Thread): (r: Thread)
    ensures r.state == Sleeping && r.(state := t.state) == t
  {
    t.(state := Sleeping)
  }

  /** `wake`: Sleeping or Blocked become Ready; any other state is kept. */
  function Wake(t: Thread): (r: Thread)
    ensures r.(state := t.state) == t
    ensures r.state == Ready <==> t.state in {Sleeping, Blocked, Ready}
    ensures t.state !in {Sleeping, Blocked} ==> r == t
  {
    if t.state == Sleeping || t.state == Blocked then t.(state := Ready) else t
  }

  /** `block`: unconditionally Blocked. */
  function Block(t: Thread): (r: Thread)
    ensures r.state == Blocked && r.(state := t.state) == t
  {
    t.(state := Blocked)
  }

  /** Sleeping or blocking and then waking always returns a thread to Ready;
      yield and wake are idempotent; neither can restart a terminated
      thread, but `sleep` and `block` can, since they do not look at the
      state. */
  lemma ThreadTransitions(t: Thread)
    ensures Wake(Sleep(t)).state == Ready && Wake(Block(t)).state == Ready
    ensures YieldNow(YieldNow(t)) == YieldNow(t) && Wake(Wake(t)) == Wake(t)
    ensures t.state == Terminated ==> YieldNow(t) == t && Wake(t) == t
    ensures t.state == Terminated ==> Sleep(t).state == Sleeping
  {
  }
}
