/** Interrupt masking (kernel/src/arch/mod.rs). The CPU's interrupt flag is
    a boolean; `cli`, `sti` and the call of the closure are recorded as an
    event trace, and the closure is a function of the flag it runs under
    that returns its result and the flag it leaves. */
module Arch {
  import opened Common

  /** `interrupts_enabled`: bit 9 of RFLAGS (0x200) is the interrupt-enable
      flag. */
  function InterruptsEnabled(rflags: u64): (b: bool)
    ensures b <==> (rflags / 0x200) % 2 == 1
  {
    (rflags as bv64) & (1 << 9) != 0
  }

  datatype IrqEvent = Cli | Sti | RunClosure(interruptsOn: bool)

  /** `without_interrupts(f)` started with the interrupt flag `on`: the
      result of `f`, the flag afterwards, and what happened in order. */
  function WithoutInterrupts<R>(on: bool, f: bool -> (R, bool)): (r: (R, bool, seq<IrqEvent>))
    ensures r.0 == f(false).0
    ensures RunClosure(false) in r.2 && RunClosure(true) !in r.2
    ensures Sti in r.2 <==> on
    ensures Cli in r.2 <==> on
    ensures on ==> r.1 && r.2[|r.2| - 1] == Sti
    ensures !on ==> r.1 == f(false).1
  {
    var (result, after) := f(false);
    if on then (result, true, [Cli, RunClosure(false), Sti])
    else (result, after, [RunClosure(false)])
  }

  /** For a closure that leaves the flag alone, the flag after the call
      equals the flag before it, whatever it was. */
  lemma WithoutInterruptsRestores<R>(on: bool, f: bool -> (R, bool))
    requires f(false).1 == false
    ensures WithoutInterrupts(on, f).1 == on
  {
  }
}
