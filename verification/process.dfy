/** Process control block (kernel/src/proc/process.rs): the `Process`
    record, its priority levels, the saved x86_64 register context, and the
    constructors `new_kernel`, `new_user` and `fork`.

    The frame allocator and the address-space constructor are outside this
    module: their results are passed in as `Option` values, `None` standing
    for an allocation failure. The pid is passed in too; the process table
    allocates it before calling a constructor. */
module Proc {
  import opened Common

  type Pid = nat

  datatype ProcessState = Created | Ready | Running | Blocked | Sleeping | Zombie

  /** `Priority` with discriminants `Idle = 0` .. `Realtime = 4`. */
  datatype Priority = Idle | Low | Normal | High | Realtime
  {
    /** `priority as usize`: the index of the run queue. */
    function Index(): (i: nat)
      ensures i < 5
    {
      match this
      case Idle => 0
      case Low => 1
      case Normal => 2
      case High => 3
      case Realtime => 4
    }
  }

  /** `Priority::default()`. */
  function DefaultPriority(): (p: Priority)
    ensures p.Index() == 2
  {
    Normal
  }

  /** The discriminants are the numbers 0 to 4, one per level, ordered from
      `Idle` to `Realtime`. */
  lemma PriorityIndexInjective(p: Priority, q: Priority)
    ensures p.Index() == q.Index() <==> p == q
    ensures Idle.Index() < Low.Index() < Normal.Index() < High.Index() < Realtime.Index()
  {
  }

  /** x86_64 `CpuContext`; `Default` is all registers zero. */
  datatype CpuContext = CpuContext(
    rax: u64, rbx: u64, rcx: u64, rdx: u64, rsi: u64, rdi: u64, rbp: u64, rsp: u64,
    r8: u64, r9: u64, r10: u64, r11: u64, r12: u64, r13: u64, r14: u64, r15: u64,
    rip: u64, rflags: u64, cs: u64, ss: u64)

  const ZeroContext: CpuContext :=
    CpuContext(0, 0, 0, 0, 0, 0, 0, 0, 0, 0, 0, 0, 0, 0, 0, 0, 0, 0, 0, 0)

  /** RFLAGS with IF (bit 9) and the reserved bit 1 set. */
  const INITIAL_RFLAGS: u64 := 0x202
  const KERNEL_CS: u64 := 0x08
  const KERNEL_SS: u64 := 0x10
  const USER_CS: u64 := 0x1B
  const USER_SS: u64 := 0x23
  const USER_STACK_TOP: u64 := 0x7FFF_FFFF_F000
  /** Four 4 KiB frames per stack. */
  const PROCESS_STACK_SIZE: nat := 16384
  const DEFAULT_TIME_SLICE: nat := 10
  const FD_SLOTS: nat := 256

  datatype Process = Process(
    pid: Pid,
    parent: Option<Pid>,
    name: string,
    state: ProcessState,
    priority: Priority,
    context: CpuContext,
    addressSpace: Option<u64>,
    kernelStack: u64,
    userStack: u64,
    exitStatus: Option<int>,
    timeSlice: u32,
    cpuTime: nat,
    children: seq<Pid>,
    fileDescriptors: seq<Option<nat>>,
    cwd: string,
    isKernel: bool)

  /** `base + 16384` in u64 arithmetic (the stack grows down from the top). */
  function StackTop(base: u64): u64
  {
    (base + PROCESS_STACK_SIZE) % U64_MODULUS
  }

  /** `setup_kernel_context`: only rsp, rflags, cs and ss are written. */
  function KernelContext(ctx: CpuContext, stack: u64): (r: CpuContext)
    ensures r.rsp == stack && r.rflags == 0x202 && r.cs == 0x08 && r.ss == 0x10
    ensures r.(rsp := ctx.rsp, rflags := ctx.rflags, cs := ctx.cs, ss := ctx.ss) == ctx
  {
    ctx.(rsp := stack, rflags := INITIAL_RFLAGS, cs := KERNEL_CS, ss := KERNEL_SS)
  }

  /** `setup_user_context`: the fixed user stack top and ring-3 selectors. */
  function UserContext(ctx: CpuContext): (r: CpuContext)
    ensures r.rsp == 0x7FFF_FFFF_F000 && r.rflags == 0x202 && r.cs == 0x1B && r.ss == 0x23
    ensures r.(rsp := ctx.rsp, rflags := ctx.rflags, cs := ctx.cs, ss := ctx.ss) == ctx
  {
    ctx.(rsp := USER_STACK_TOP, rflags := INITIAL_RFLAGS, cs := USER_CS, ss := USER_SS)
  }

  /** The defaults shared by both constructors. */
  ghost predicate FreshDefaults(p: Process)
  {
    && p.state == Created
    && p.priority == Normal
    && p.exitStatus == None
    && p.timeSlice == 10
    && p.cpuTime == 0
    && p.children == []
    && |p.fileDescriptors| == 256
    && (forall i :: 0 <= i < |p.fileDescriptors| ==> p.fileDescriptors[i] == None)
    && p.cwd == "/"
  }

  /** `Process::new_kernel`; `frames` is the result of `alloc_frames(4)`. */
  function NewKernel(pid: Pid, name: string, frames: Option<u64>): (r: Option<Process>)
    ensures r.Some? <==> frames.Some?
    ensures r.Some? ==>
      && FreshDefaults(r.value)
      && r.value.pid == pid && r.value.name == name
      && r.value.parent == None && r.value.isKernel
      && r.value.addressSpace == None && r.value.userStack == 0
      && r.value.kernelStack == StackTop(frames.value)
      && r.value.context == KernelContext(ZeroContext, r.value.kernelStack)
  {
    match frames
    case None => None
    case Some(base) =>
      var stack := StackTop(base);
      Some(Process(pid, None, name, Created, Normal, KernelContext(ZeroContext, stack),
                   None, stack, 0, None, DEFAULT_TIME_SLICE, 0, [],
                   seq(FD_SLOTS, _ => None), "/", true))
  }

  /** `Process::new_user`; `root` is the new address space's page-table
      root, `kframes`/`uframes` the two `alloc_frames(4)` results. */
  function NewUser(pid: Pid, name: string, parent: Pid,
                   root: Option<u64>, kframes: Option<u64>, uframes: Option<u64>): (r: Option<Process>)
    ensures r.Some? <==> root.Some? && kframes.Some? && uframes.Some?
    ensures r.Some? ==>
      && FreshDefaults(r.value)
      && r.value.pid == pid && r.value.name == name
      && r.value.parent == Some(parent) && !r.value.isKernel
      && r.value.addressSpace == root
      && r.value.kernelStack == StackTop(kframes.value)
      && r.value.userStack == StackTop(uframes.value)
      && r.value.context == UserContext(ZeroContext)
  {
    if root.None? || kframes.None? || uframes.None? then None
    else
      Some(Process(pid, Some(parent), name, Created, Normal, UserContext(ZeroContext),
                   root, StackTop(kframes.value), StackTop(uframes.value), None,
                   DEFAULT_TIME_SLICE, 0, [], seq(FD_SLOTS, _ => None), "/", false))
  }

  /** Allocation results a `fork` consumes: a page-table root (user
      processes only) and the stacks' frames. */
  datatype ForkAllocs = ForkAllocs(root: Option<u64>, kframes: Option<u64>, uframes: Option<u64>)

  /** `Process::fork`: a fresh process of the same kind, then the parent's
      context, priority, cwd and descriptor table copied over it. */
  function Fork(p: Process, childPid: Pid, a: ForkAllocs): (r: Option<Process>)
    ensures r.Some? ==>
      && r.value.pid == childPid
      && r.value.name == p.name
      && r.value.context == p.context
      && r.value.priority == p.priority
      && r.value.cwd == p.cwd
      && r.value.fileDescriptors == p.fileDescriptors
      && r.value.isKernel == p.isKernel
      && r.value.state == Created
      && r.value.exitStatus == None
      && r.value.timeSlice == 10
      && r.value.cpuTime == 0
      && r.value.parent == (if p.isKernel then None else Some(p.pid))
    ensures r.Some? <==> (if p.isKernel then a.kframes.Some? else a.root.Some? && a.kframes.Some? && a.uframes.Some?)
  {
    var child := if p.isKernel then NewKernel(childPid, p.name, a.kframes)
                 else NewUser(childPid, p.name, p.pid, a.root, a.kframes, a.uframes);
    match child
    case None => None
    case Some(c) =>
      Some(c.(context := p.context, priority := p.priority, cwd := p.cwd,
              fileDescriptors := p.fileDescriptors))
  }

  /** `set_entry`: the instruction pointer, and nothing else, changes. */
  function SetEntry(p: Process, entry: u64): (r: Process)
    ensures r.context.rip == entry
    ensures r.(context := r.context.(rip := p.context.rip)) == p
  {
    p.(context := p.context.(rip := entry))
  }

  /** `set_arg`: the first argument register rdi, and nothing else, changes. */
  function SetArg(p: Process, arg: u64): (r: Process)
    ensures r.context.rdi == arg
    ensures r.(context := r.context.(rdi := p.context.rdi)) == p
  {
    p.(context := p.context.(rdi := arg))
  }

  /** Entry point and argument are independent: setting them in either
      order gives the same process. */
  lemma SetEntryArgCommute(p: Process, entry: u64, arg: u64)
    ensures SetArg(SetEntry(p, entry), arg) == SetEntry(SetArg(p, arg), entry)
    ensures SetEntry(SetEntry(p, entry), entry) == SetEntry(p, entry)
  {
  }
}
