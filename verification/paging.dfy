/** x86_64 four-level paging (kernel/src/arch/x86_64/paging.rs): page table
    entries as 64-bit words, the split of a virtual address into table
    indices, and the translation walk. Physical memory holding the tables
    is a function from a table's physical address and an index to the
    entry stored there. */
module Paging {
  import opened Common

  const PRESENT: bv64 := 0x1
  const WRITABLE: bv64 := 0x2
  const USER: bv64 := 0x4
  const WRITE_THROUGH: bv64 := 0x8
  const NO_CACHE: bv64 := 0x10
  const ACCESSED: bv64 := 0x20
  const DIRTY: bv64 := 0x40
  const HUGE_PAGE: bv64 := 0x80
  const GLOBAL: bv64 := 0x100
  const NO_EXECUTE: bv64 := 0x8000_0000_0000_0000

  /** Bits 12-51 hold the physical address; the rest are flags. */
  const ADDR_MASK: bv64 := 0x000F_FFFF_FFFF_F000
  const FLAGS_MASK: bv64 := 0xFFF0_0000_0000_0FFF

  datatype Pte = Pte(raw: bv64)

  const EmptyPte: Pte := Pte(0)

  /** `PageTableEntry::new`: the address's bits 12-51 OR-ed with the flags. */
  function NewPte(addr: bv64, flags: bv64): (e: Pte)
    ensures flags & ADDR_MASK == 0 ==> Addr(e) == addr & ADDR_MASK && Flags(e) == flags
  {
    Pte((addr & ADDR_MASK) | flags)
  }

  function Addr(e: Pte): bv64 { e.raw & ADDR_MASK }
  function Flags(e: Pte): bv64 { e.raw & FLAGS_MASK }

  predicate IsPresent(e: Pte) { e.raw & PRESENT != 0 }
  predicate IsWritable(e: Pte) { e.raw & WRITABLE != 0 }
  predicate IsUser(e: Pte) { e.raw & USER != 0 }
  predicate IsHuge(e: Pte) { e.raw & HUGE_PAGE != 0 }

  /** The two masks split an entry: together they give it back, and they
      share no bit. */
  lemma MasksComplementary(e: Pte)
    ensures Addr(e) | Flags(e) == e.raw
    ensures Addr(e) & Flags(e) == 0
  {
  }

  /** The queries of a freshly built entry read the flags it was given,
      whatever the address. */
  lemma NewPteQueries(addr: bv64, flags: bv64)
    ensures IsPresent(NewPte(addr, flags)) <==> flags & PRESENT != 0
    ensures IsWritable(NewPte(addr, flags)) <==> flags & WRITABLE != 0
    ensures IsUser(NewPte(addr, flags)) <==> flags & USER != 0
    ensures IsHuge(NewPte(addr, flags)) <==> flags & HUGE_PAGE != 0
  {
  }

  /** `set_addr`: the flags survive. */
  function SetAddr(e: Pte, addr: bv64): (r: Pte)
    ensures Flags(r) == Flags(e)
    ensures Addr(r) == addr & ADDR_MASK
  {
    SetAddrKeepsFlags(e.raw, addr);
    SetAddrStoresAddr(e.raw, addr);
    Pte((e.raw & FLAGS_MASK) | (addr & ADDR_MASK))
  }

  lemma SetAddrKeepsFlags(raw: bv64, addr: bv64)
    ensures ((raw & FLAGS_MASK) | (addr & ADDR_MASK)) & FLAGS_MASK == raw & FLAGS_MASK
  {
  }

  lemma SetAddrStoresAddr(raw: bv64, addr: bv64)
    ensures ((raw & FLAGS_MASK) | (addr & ADDR_MASK)) & ADDR_MASK == addr & ADDR_MASK
  {
  }

  /** `set_flags`: the address survives when the new flags carry no
      address bits. */
  function SetFlags(e: Pte, newFlags: bv64): (r: Pte)
    ensures newFlags & ADDR_MASK == 0 ==> Addr(r) == Addr(e) && Flags(r) == newFlags
  {
    if newFlags & ADDR_MASK == 0 then
      SetFlagsKeepsAddr(e.raw, newFlags);
      SetFlagsStoresFlags(e.raw, newFlags);
      Pte((e.raw & ADDR_MASK) | newFlags)
    else Pte((e.raw & ADDR_MASK) | newFlags)
  }

  lemma SetFlagsKeepsAddr(raw: bv64, newFlags: bv64)
    requires newFlags & ADDR_MASK == 0
    ensures ((raw & ADDR_MASK) | newFlags) & ADDR_MASK == raw & ADDR_MASK
  {
  }

  lemma SetFlagsStoresFlags(raw: bv64, newFlags: bv64)
    requires newFlags & ADDR_MASK == 0
    ensures ((raw & ADDR_MASK) | newFlags) & FLAGS_MASK == newFlags
  {
  }

  /** `PageTableIndices`. */
  datatype Indices = Indices(pml4: bv64, pdpt: bv64, pd: bv64, pt: bv64, offset: bv64)

  /** `PageTableIndices::from_addr`: four 9-bit table indices and a 12-bit
      page offset. */
  function FromAddr(addr: bv64): (ix: Indices)
    ensures ix.pml4 < 512 && ix.pdpt < 512 && ix.pd < 512 && ix.pt < 512 && ix.offset < 4096
  {
    Indices((addr >> 39) & 0x1FF, (addr >> 30) & 0x1FF, (addr >> 21) & 0x1FF, (addr >> 12) & 0x1FF, addr & 0xFFF)
  }

  /** The indices put back in place give the low 48 bits of the address. */
  lemma FromAddrRecombine(addr: bv64)
    ensures var ix := FromAddr(addr);
      (ix.pml4 << 39) | (ix.pdpt << 30) | (ix.pd << 21) | (ix.pt << 12) | ix.offset == addr & 0xFFFF_FFFF_FFFF
  {
  }

  /** The entry at `index` of the table at physical address `table`. */
  type Memory = (bv64, bv64) -> bv64

  function Entry(mem: Memory, table: bv64, index: bv64): Pte { Pte(mem(table, index)) }

  /** The walk of `translate` from the PML4 at `root`: None at the first
      level whose entry is not present; otherwise the frame's physical
      address and the mask of the virtual address's bits that index into
      it. A huge PDPT entry maps a 1 GiB page and a huge PD entry a 2 MiB
      page. */
  function Walk(mem: Memory, root: bv64, virt: bv64): (r: Option<(bv64, bv64)>)
    ensures r.Some? ==> r.value.0 & 0xFFF == 0
    ensures r.Some? ==> r.value.1 == 0x3FFF_FFFF || r.value.1 == 0x1F_FFFF || r.value.1 == 0xFFF
  {
    var ix := FromAddr(virt);
    var e4 := Entry(mem, root, ix.pml4);
    if !IsPresent(e4) then None
    else
      var e3 := Entry(mem, Addr(e4), ix.pdpt);
      if !IsPresent(e3) then None
      else if IsHuge(e3) then AddrLowBitsClear(e3); Some((Addr(e3), 0x3FFF_FFFF))
      else WalkFromPd(mem, Addr(e3), ix)
  }

  /** The lower half of the walk, from the page directory at `pd`. */
  function WalkFromPd(mem: Memory, pd: bv64, ix: Indices): (r: Option<(bv64, bv64)>)
    ensures r.Some? ==> r.value.0 & 0xFFF == 0
    ensures r.Some? ==> r.value.1 == 0x1F_FFFF || r.value.1 == 0xFFF
  {
    var e2 := Entry(mem, pd, ix.pd);
    if !IsPresent(e2) then None
    else if IsHuge(e2) then AddrLowBitsClear(e2); Some((Addr(e2), 0x1F_FFFF))
    else
      var e1 := Entry(mem, Addr(e2), ix.pt);
      if !IsPresent(e1) then None
      else AddrLowBitsClear(e1); Some((Addr(e1), 0xFFF))
  }

  /** `translate`: the frame's address plus the offset into the frame (for
      a 4 KiB page the offset is `from_addr`'s 12-bit offset). Whatever the
      page size, a translation keeps the low twelve bits of the virtual
      address. */
  function Translate(mem: Memory, root: bv64, virt: bv64): (r: Option<bv64>)
    ensures r.None? <==> Walk(mem, root, virt).None?
    ensures r.Some? ==> r.value & 0xFFF == virt & 0xFFF
  {
    var w := Walk(mem, root, virt);
    if w.None? then None
    else
      PageOffsetKept(w.value.0, virt, w.value.1);
      Some(Offset(w.value.0, virt, w.value.1))
  }

  /** A frame's address plus the bits of `virt` under `mask`. */
  function Offset(base: bv64, virt: bv64, mask: bv64): bv64 { base + (virt & mask) }

  lemma PageOffsetKept(base: bv64, virt: bv64, mask: bv64)
    requires base & 0xFFF == 0 && mask & 0xFFF == 0xFFF
    ensures (base + (virt & mask)) & 0xFFF == virt & 0xFFF
  {
  }

  lemma AddrLowBitsClear(e: Pte)
    ensures Addr(e) & 0xFFF == 0
  {
  }

  /** The walk fails exactly when it meets a non-present entry before a
      leaf. */
  lemma TranslateFails(mem: Memory, root: bv64, virt: bv64)
    ensures var ix := FromAddr(virt);
      var e4 := Entry(mem, root, ix.pml4);
      var e3 := Entry(mem, Addr(e4), ix.pdpt);
      var e2 := Entry(mem, Addr(e3), ix.pd);
      var e1 := Entry(mem, Addr(e2), ix.pt);
      Translate(mem, root, virt).None? <==>
        !IsPresent(e4) || !IsPresent(e3) || (!IsHuge(e3) && (!IsPresent(e2) || (!IsHuge(e2) && !IsPresent(e1))))
  {
  }

  /** A 4 KiB leaf translates to the frame's address with the page offset
      in its low bits. */
  lemma TranslateSmallPage(mem: Memory, root: bv64, virt: bv64)
    requires var ix := FromAddr(virt);
      var e4 := Entry(mem, root, ix.pml4);
      var e3 := Entry(mem, Addr(e4), ix.pdpt);
      var e2 := Entry(mem, Addr(e3), ix.pd);
      IsPresent(e4) && IsPresent(e3) && !IsHuge(e3) && IsPresent(e2) && !IsHuge(e2)
        && IsPresent(Entry(mem, Addr(e2), ix.pt))
    ensures var ix := FromAddr(virt);
      var e1 := Entry(mem, Addr(Entry(mem, Addr(Entry(mem, Addr(Entry(mem, root, ix.pml4)), ix.pdpt)), ix.pd)), ix.pt);
      Translate(mem, root, virt) == Some(Addr(e1) | (virt & 0xFFF))
  {
    var ix := FromAddr(virt);
    var e1 := Entry(mem, Addr(Entry(mem, Addr(Entry(mem, Addr(Entry(mem, root, ix.pml4)), ix.pdpt)), ix.pd)), ix.pt);
    AddrLowBitsClear(e1);
    LowBitsAddIsOr(Addr(e1), virt);
  }

  /** A 1 GiB leaf translates to the frame's address plus the virtual
      address's low 30 bits. */
  lemma TranslateGigaPage(mem: Memory, root: bv64, virt: bv64)
    requires var ix := FromAddr(virt);
      var e4 := Entry(mem, root, ix.pml4);
      var e3 := Entry(mem, Addr(e4), ix.pdpt);
      IsPresent(e4) && IsPresent(e3) && IsHuge(e3)
    ensures var ix := FromAddr(virt);
      var e3 := Entry(mem, Addr(Entry(mem, root, ix.pml4)), ix.pdpt);
      Translate(mem, root, virt) == Some(Offset(Addr(e3), virt, 0x3FFF_FFFF))
  {
    var ix := FromAddr(virt);
    var e3 := Entry(mem, Addr(Entry(mem, root, ix.pml4)), ix.pdpt);
    assert Walk(mem, root, virt) == Some((Addr(e3), 0x3FFF_FFFF));
  }

  /** A 2 MiB leaf translates to the frame's address plus the virtual
      address's low 21 bits. */
  lemma TranslateMegaPage(mem: Memory, root: bv64, virt: bv64)
    requires var ix := FromAddr(virt);
      var e4 := Entry(mem, root, ix.pml4);
      var e3 := Entry(mem, Addr(e4), ix.pdpt);
      var e2 := Entry(mem, Addr(e3), ix.pd);
      IsPresent(e4) && IsPresent(e3) && !IsHuge(e3) && IsPresent(e2) && IsHuge(e2)
    ensures var ix := FromAddr(virt);
      var e2 := Entry(mem, Addr(Entry(mem, Addr(Entry(mem, root, ix.pml4)), ix.pdpt)), ix.pd);
      Translate(mem, root, virt) == Some(Offset(Addr(e2), virt, 0x1F_FFFF))
  {
    var ix := FromAddr(virt);
    var e3 := Entry(mem, Addr(Entry(mem, root, ix.pml4)), ix.pdpt);
    var e2 := Entry(mem, Addr(e3), ix.pd);
    assert Walk(mem, root, virt) == WalkFromPd(mem, Addr(e3), ix);
    assert WalkFromPd(mem, Addr(e3), ix) == Some((Addr(e2), 0x1F_FFFF));
  }

  /** On a frame aligned to the page size, adding the offset only fills
      the frame's low bits. */
  lemma AlignedAddIsOr(base: bv64, virt: bv64, mask: bv64)
    requires base & mask == 0
    ensures Offset(base, virt, mask) == base | (virt & mask)
  {
  }

  lemma LowBitsAddIsOr(base: bv64, virt: bv64)
    requires base & 0xFFF == 0
    ensures base + (virt & 0xFFF) == base | (virt & 0xFFF)
  {
  }
}
