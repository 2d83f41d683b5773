/** The interrupt descriptor table and interrupt entry paths
    (kernel/src/arch/x86_64/idt.rs): gate packing, the table `init` builds,
    the 8259 PIC set-up and end-of-interrupt, IRQ dispatch, and the
    register frame the assembly stubs save for their Rust handlers.

    Handler addresses are a parameter (the address of each vector's stub);
    port writes are recorded as a list instead of being performed. Gate
    fields follow the 64-bit gate descriptor of the Intel SDM (volume 3,
    section 6.14.1). */
module Idt {
  import opened Common
  import Gdt

  datatype GateType = Interrupt | Trap

  function GateBits(g: GateType): bv8
  {
    match g
    case Interrupt => 0xE
    case Trap => 0xF
  }

  datatype IdtEntry = IdtEntry(
    offsetLow: bv16,
    selector: bv16,
    ist: bv8,
    typeAttr: bv8,
    offsetMid: bv16,
    offsetHigh: bv32,
    reserved: bv32)

  const NullEntry: IdtEntry := IdtEntry(0, 0, 0, 0, 0, 0, 0)

  /** Present, the privilege level in bits 5-6, the gate type below. */
  function TypeAttr(gate: GateType, dpl: bv8): bv8
  {
    0x80 | ((dpl & 3) << 5) | GateBits(gate)
  }

  function Present(e: IdtEntry): bool { e.typeAttr & 0x80 != 0 }
  function Dpl(e: IdtEntry): bv8 { (e.typeAttr >> 5) & 3 }
  function Gate(e: IdtEntry): bv8 { e.typeAttr & 0x0F }

  /** The handler address the processor reads back from an entry. */
  function Handler(e: IdtEntry): bv64
  {
    (e.offsetLow as bv64) | ((e.offsetMid as bv64) << 16) | ((e.offsetHigh as bv64) << 32)
  }

  function OffsetLow(handler: bv64): bv16 { (handler & 0xFFFF) as bv16 }
  function OffsetMid(handler: bv64): bv16 { ((handler >> 16) & 0xFFFF) as bv16 }
  function OffsetHigh(handler: bv64): bv32 { ((handler >> 32) & 0xFFFF_FFFF) as bv32 }

  lemma OffsetsRecombine(handler: bv64)
    ensures (OffsetLow(handler) as bv64) | ((OffsetMid(handler) as bv64) << 16) | ((OffsetHigh(handler) as bv64) << 32) == handler
  {
  }

  /** `IdtEntry::new`. */
  function NewEntry(handler: bv64, selector: bv16, ist: bv8, gate: GateType, dpl: bv8): (e: IdtEntry)
    ensures Handler(e) == handler
    ensures e.selector == selector && e.ist == ist && e.reserved == 0
  {
    OffsetsRecombine(handler);
    IdtEntry(OffsetLow(handler), selector, ist, TypeAttr(gate, dpl), OffsetMid(handler), OffsetHigh(handler), 0)
  }

  /** `set_handler`: a present ring-0 interrupt gate through the kernel
      code segment; the IST index and reserved word are left as they
      were. */
  function SetHandler(e: IdtEntry, handler: bv64): (r: IdtEntry)
    ensures Handler(r) == handler
    ensures r.selector == Gdt.KERNEL_CODE_SELECTOR && r.typeAttr == 0x8E
    ensures r.ist == e.ist && r.reserved == e.reserved
  {
    OffsetsRecombine(handler);
    e.(offsetLow := OffsetLow(handler), offsetMid := OffsetMid(handler), offsetHigh := OffsetHigh(handler),
       selector := Gdt.KERNEL_CODE_SELECTOR, typeAttr := 0x80 | GateBits(Interrupt))
  }

  /** The type byte reads back as present, with the privilege level's two
      low bits and the gate type; the syscall gate (trap, ring 3) is 0xEF
      and `set_handler`'s (interrupt, ring 0) is 0x8E. */
  lemma TypeAttrFields(gate: GateType, dpl: bv8)
    ensures TypeAttr(gate, dpl) & 0x80 != 0
    ensures (TypeAttr(gate, dpl) >> 5) & 3 == dpl & 3
    ensures TypeAttr(gate, dpl) & 0x0F == GateBits(gate)
    ensures TypeAttr(Trap, 3) == 0xEF && TypeAttr(Interrupt, 0) == 0x8E
  {
  }

  /** On an empty slot `set_handler` builds what `IdtEntry::new` builds for
      a ring-0 interrupt gate with no IST. */
  lemma SetHandlerOnNull(handler: bv64)
    ensures SetHandler(NullEntry, handler) == NewEntry(handler, Gdt.KERNEL_CODE_SELECTOR, 0, Interrupt, 0)
  {
  }

  // ---------------------------------------------------------------------
  // init

  /** Vectors `init` fills through `set_handler`: the exceptions other than
      8, 9, 15 and 21-31, and the sixteen IRQs at 32-47. */
  predicate ByHandler(v: nat)
  {
    v <= 7 || (10 <= v <= 14) || (16 <= v <= 20) || (32 <= v <= 47)
  }

  const DOUBLE_FAULT: nat := 8
  const SYSCALL_VECTOR: nat := 0x80

  predicate Installed(v: nat) { ByHandler(v) || v == DOUBLE_FAULT || v == SYSCALL_VECTOR }

  function InitEntry(v: nat, handlers: seq<bv64>): IdtEntry
    requires v < |handlers|
  {
    if v == DOUBLE_FAULT then NewEntry(handlers[v], Gdt.KERNEL_CODE_SELECTOR, 1, Interrupt, 0)
    else if v == SYSCALL_VECTOR then NewEntry(handlers[v], Gdt.KERNEL_CODE_SELECTOR, 0, Trap, 3)
    else if ByHandler(v) then SetHandler(NullEntry, handlers[v])
    else NullEntry
  }

  /** The table `init` loads, `handlers[v]` being the stub for vector `v`. */
  function Init(handlers: seq<bv64>): (t: seq<IdtEntry>)
    requires |handlers| == 256
    ensures |t| == 256
    ensures forall v :: 0 <= v < 256 ==> t[v] == InitEntry(v, handlers)
  {
    seq(256, v requires 0 <= v < 256 => InitEntry(v, handlers))
  }

  /** `size_of::<Idt>() - 1`: 256 gates of 16 bytes. */
  const IDT_LIMIT: nat := 256 * 16 - 1

  /** After `init`, a vector has a present gate exactly when it was
      installed, and then the gate enters its stub through the kernel code
      segment; only the double fault switches stacks (IST 1); only the
      syscall gate is a trap gate and reachable from ring 3. */
  lemma InitTable(handlers: seq<bv64>, v: nat)
    requires |handlers| == 256 && v < 256
    ensures Present(Init(handlers)[v]) <==> Installed(v)
    ensures Installed(v) ==> Handler(Init(handlers)[v]) == handlers[v]
    ensures Installed(v) ==> Init(handlers)[v].selector == Gdt.KERNEL_CODE_SELECTOR
    ensures Init(handlers)[v].ist == (if v == DOUBLE_FAULT then 1 else 0)
    ensures Dpl(Init(handlers)[v]) == 3 <==> v == SYSCALL_VECTOR
    ensures Gate(Init(handlers)[v]) == 0xF <==> v == SYSCALL_VECTOR
    ensures v == SYSCALL_VECTOR ==> Init(handlers)[v].typeAttr == 0xEF
  {
    TypeAttrFields(Interrupt, 0);
    TypeAttrFields(Trap, 3);
  }

  // ---------------------------------------------------------------------
  // The 8259 PICs

  datatype PortWrite = PortWrite(port: u16, value: byte)

  const PIC1_CMD: u16 := 0x20
  const PIC1_DATA: u16 := 0x21
  const PIC2_CMD: u16 := 0xA0
  const PIC2_DATA: u16 := 0xA1
  const EOI: byte := 0x20

  /** ICW2: the vector each chip raises for its input 0. */
  const MASTER_OFFSET: byte := 0x20
  const SLAVE_OFFSET: byte := 0x28
  /** ICW3: the master has the slave on input 2; the slave's identity is 2. */
  const MASTER_CASCADE: byte := 0x04
  const SLAVE_IDENTITY: byte := 0x02

  /** `init_pic`'s writes, in order: ICW1 to both chips, then ICW2, ICW3
      and ICW4 (8086 mode) to each data port, then the interrupt masks, all
      cleared. The two mask reads at the start do not affect the result. */
  function InitPic(): seq<PortWrite>
  {
    [PortWrite(PIC1_CMD, 0x11), PortWrite(PIC2_CMD, 0x11),
     PortWrite(PIC1_DATA, MASTER_OFFSET), PortWrite(PIC2_DATA, SLAVE_OFFSET),
     PortWrite(PIC1_DATA, MASTER_CASCADE), PortWrite(PIC2_DATA, SLAVE_IDENTITY),
     PortWrite(PIC1_DATA, 0x01), PortWrite(PIC2_DATA, 0x01),
     PortWrite(PIC1_DATA, 0x00), PortWrite(PIC2_DATA, 0x00)]
  }

  /** The vector an IRQ line raises once the PICs are programmed. */
  function IrqVector(irq: nat): nat
    requires irq < 16
  {
    if irq < 8 then MASTER_OFFSET + irq else SLAVE_OFFSET + (irq - 8)
  }

  /** The PICs put IRQ n at vector 32 + n, where `init` installed the n-th
      IRQ stub, which is a present gate; the cascade identity names the
      master input the slave is wired to; and every line is left unmasked
      (the last write to each data port is 0). */
  lemma PicRouting(handlers: seq<bv64>, irq: nat)
    requires |handlers| == 256 && irq < 16
    ensures IrqVector(irq) == 32 + irq
    ensures Present(Init(handlers)[IrqVector(irq)]) && Handler(Init(handlers)[IrqVector(irq)]) == handlers[32 + irq]
    ensures (MASTER_CASCADE as bv8) == (1 as bv8) << (SLAVE_IDENTITY as bv8)
    ensures InitPic()[8] == PortWrite(PIC1_DATA, 0) && InitPic()[9] == PortWrite(PIC2_DATA, 0)
  {
    InitTable(handlers, 32 + irq);
  }

  /** `send_eoi`: the slave is acknowledged first when the IRQ is 8 or
      above, the master always and last. */
  function SendEoi(irq: byte): (ws: seq<PortWrite>)
    ensures |ws| > 0 && ws[|ws| - 1] == PortWrite(PIC1_CMD, EOI)
    ensures PortWrite(PIC2_CMD, EOI) in ws <==> irq >= 8
    ensures forall w | w in ws :: w.value == EOI && (w.port == PIC1_CMD || w.port == PIC2_CMD)
  {
    (if irq >= 8 then [PortWrite(PIC2_CMD, EOI)] else []) + [PortWrite(PIC1_CMD, EOI)]
  }

  /** For the IRQ lines, the EOI reaches every chip that has the interrupt
      in service: the slave exactly when the vector came from its range,
      and the master always, which serves the slave's interrupts through
      its cascade input. */
  lemma EoiReachesServingChips(irq: nat)
    requires irq < 16
    ensures PortWrite(PIC2_CMD, EOI) in SendEoi(irq) <==> SLAVE_OFFSET <= IrqVector(irq) < SLAVE_OFFSET + 8
    ensures PortWrite(PIC1_CMD, EOI) in SendEoi(irq)
  {
  }

  datatype IrqAction = TimerTick | KeyboardInterrupt | MouseInterrupt | NoAction

  /** `irq_common_handler`: the device handler for the IRQ, then the EOI. */
  function IrqCommon(irq: byte): (r: (IrqAction, seq<PortWrite>))
    ensures r.1 == SendEoi(irq)
    ensures r.0 == TimerTick <==> irq == 0
    ensures r.0 == KeyboardInterrupt <==> irq == 1
    ensures r.0 == MouseInterrupt <==> irq == 12
  {
    var action :=
      if irq == 0 then TimerTick
      else if irq == 1 then KeyboardInterrupt
      else if irq == 12 then MouseInterrupt
      else NoAction;
    (action, SendEoi(irq))
  }

  // ---------------------------------------------------------------------
  // The saved register frame

  datatype Reg = Rax | Rbx | Rcx | Rdx | Rsi | Rdi | Rbp | R8 | R9 | R10 | R11 | R12 | R13 | R14 | R15

  /** The stubs push in this order and pop in the reverse one. */
  const PUSH_ORDER: seq<Reg> := [Rax, Rbx, Rcx, Rdx, Rsi, Rdi, Rbp, R8, R9, R10, R11, R12, R13, R14, R15]
  const POP_ORDER: seq<Reg> := [R15, R14, R13, R12, R11, R10, R9, R8, Rbp, Rdi, Rsi, Rdx, Rcx, Rbx, Rax]

  /** The 15 words above the stack pointer after the pushes, lowest first:
      the last register pushed is at slot 0. The handler receives this
      address in rdi and reads it as `[u64; 15]`. */
  function SaveFrame(regs: Reg -> u64): (f: seq<u64>)
    ensures |f| == 15
  {
    seq(15, k requires 0 <= k < 15 => regs(PUSH_ORDER[14 - k]))
  }

  /** The pops: pop number k reads slot k into `POP_ORDER[k]`. */
  function RestoreFrame(f: seq<u64>, r: Reg): u64
    requires |f| == 15
  {
    var k := PopIndex(r);
    f[k]
  }

  function PopIndex(r: Reg): (k: nat)
    ensures k < 15 && POP_ORDER[k] == r
  {
    match r
    case R15 => 0 case R14 => 1 case R13 => 2 case R12 => 3 case R11 => 4
    case R10 => 5 case R9 => 6 case R8 => 7 case Rbp => 8 case Rdi => 9
    case Rsi => 10 case Rdx => 11 case Rcx => 12 case Rbx => 13 case Rax => 14
  }

  /** Popping in the stubs' order gives every register back its value:
      the pop order is the push order reversed. */
  lemma SaveRestore(regs: Reg -> u64, r: Reg)
    ensures RestoreFrame(SaveFrame(regs), r) == regs(r)
  {
    var k := PopIndex(r);
    assert PUSH_ORDER[14 - k] == POP_ORDER[k];
  }

  datatype SyscallArgs = SyscallArgs(num: u64, arg1: u64, arg2: u64, arg3: u64, arg4: u64, arg5: u64)

  /** `syscall_handler_inner` as written: slots 14, 9, 8, 7, 6, 5. */
  function DecodeSyscallAsWritten(f: seq<u64>): SyscallArgs
    requires |f| == 15
  {
    SyscallArgs(f[14], f[9], f[8], f[7], f[6], f[5])
  }

  /** Those slots hold rax, rdi, rbp, r8, r9 and r10: the number and the
      first argument are right, the other four are not the registers the
      comments name (rsi, rdx, r10, r8). */
  lemma DecodeSyscallAsWrittenSlots(regs: Reg -> u64)
    ensures DecodeSyscallAsWritten(SaveFrame(regs))
      == SyscallArgs(regs(Rax), regs(Rdi), regs(Rbp), regs(R8), regs(R9), regs(R10))
  {
  }

  /** A caller that puts 1 in rsi (its second argument, by the convention
      of userspace/src/syscall.rs) and 0 everywhere else is seen by the
      kernel as passing 0. */
  lemma DecodeSyscallLosesRsi()
    ensures var regs := (r: Reg) => if r == Rsi then 1 else 0;
      DecodeSyscallAsWritten(SaveFrame(regs)).arg2 == 0 && regs(Rsi) == 1
  {
    var regs := (r: Reg) => if r == Rsi then 1 else 0;
    DecodeSyscallAsWrittenSlots(regs);
  }

  /** The slots of the registers the comments name. */
  function DecodeSyscall(f: seq<u64>): SyscallArgs
    requires |f| == 15
  {
    SyscallArgs(f[14], f[9], f[10], f[11], f[5], f[7])
  }

  /** Reading the register the comments name for each argument: number in
      rax, arguments in rdi, rsi, rdx, r10 and r8. */
  lemma DecodeSyscallConvention(regs: Reg -> u64)
    ensures DecodeSyscall(SaveFrame(regs))
      == SyscallArgs(regs(Rax), regs(Rdi), regs(Rsi), regs(Rdx), regs(R10), regs(R8))
  {
  }
}
