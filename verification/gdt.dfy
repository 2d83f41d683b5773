/** The global descriptor table (kernel/src/arch/x86_64/gdt.rs): the packed
    segment and TSS descriptors, the table's fixed layout and the segment
    selectors that index it.

    Field meanings follow the x86-64 descriptor formats of the Intel SDM
    (volume 3, sections 3.4.5 and 7.2.3): bit 7 of the access byte is
    "present", bits 5-6 the privilege level, bit 3 "executable"; the
    granularity byte holds limit bits 16-19 in its low nibble and the
    G/DB/L flags in its high nibble. */
module Gdt {
  import opened Common

  datatype GdtEntry = GdtEntry(
    limitLow: bv16,
    baseLow: bv16,
    baseMiddle: bv8,
    access: bv8,
    granularity: bv8,
    baseHigh: bv8)

  const NullEntry: GdtEntry := GdtEntry(0, 0, 0, 0, 0, 0)

  /** `GdtEntry::new`: base and limit are split over their fields; the
      granularity byte takes limit bits 16-19 and the flags' high nibble. */
  function NewEntry(base: bv32, limit: bv32, access: bv8, granularity: bv8): (e: GdtEntry)
    ensures e.access == access
  {
    GdtEntry(
      (limit & 0xFFFF) as bv16,
      (base & 0xFFFF) as bv16,
      ((base >> 16) & 0xFF) as bv8,
      access,
      (((limit >> 16) & 0x0F) as bv8) | (granularity & 0xF0),
      ((base >> 24) & 0xFF) as bv8)
  }

  /** The base the processor reads back from an entry. */
  function Base(e: GdtEntry): bv32
  {
    (e.baseLow as bv32) | ((e.baseMiddle as bv32) << 16) | ((e.baseHigh as bv32) << 24)
  }

  /** The 20-bit limit the processor reads back from an entry. */
  function Limit(e: GdtEntry): bv32
  {
    (e.limitLow as bv32) | (((e.granularity & 0x0F) as bv32) << 16)
  }

  /** The base comes back whole; the limit comes back as its low twenty
      bits; the flags keep their high nibble. */
  lemma NewEntryRoundTrip(base: bv32, limit: bv32, access: bv8, granularity: bv8)
    ensures Base(NewEntry(base, limit, access, granularity)) == base
    ensures Limit(NewEntry(base, limit, access, granularity)) == limit & 0xF_FFFF
    ensures NewEntry(base, limit, access, granularity).granularity & 0xF0 == granularity & 0xF0
  {
    BaseRoundTrip(base);
    LimitRoundTrip(limit, granularity);
    FlagsKept(limit, granularity);
  }

  lemma BaseRoundTrip(base: bv32)
    ensures ((base & 0xFFFF) as bv16 as bv32) | ((((base >> 16) & 0xFF) as bv8 as bv32) << 16)
      | ((((base >> 24) & 0xFF) as bv8 as bv32) << 24) == base
  {
  }

  lemma LimitRoundTrip(limit: bv32, granularity: bv8)
    ensures ((limit & 0xFFFF) as bv16 as bv32)
      | ((((((limit >> 16) & 0x0F) as bv8) | (granularity & 0xF0)) & 0x0F) as bv32 << 16) == limit & 0xF_FFFF
  {
  }

  lemma FlagsKept(limit: bv32, granularity: bv8)
    ensures ((((limit >> 16) & 0x0F) as bv8) | (granularity & 0xF0)) & 0xF0 == granularity & 0xF0
  {
  }

  // Access-byte and flag fields
  function Present(e: GdtEntry): bool { e.access & 0x80 != 0 }
  function Dpl(e: GdtEntry): bv8 { (e.access >> 5) & 3 }
  function Executable(e: GdtEntry): bool { e.access & 0x08 != 0 }
  /** Readable for code, writable for data. */
  function ReadWrite(e: GdtEntry): bool { e.access & 0x02 != 0 }
  /** The L flag: a 64-bit code segment. */
  function LongMode(e: GdtEntry): bool { e.granularity & 0x20 != 0 }
  /** The G flag: the limit counts 4 KiB units. */
  function PageGranular(e: GdtEntry): bool { e.granularity & 0x80 != 0 }

  function CodeSegment(): GdtEntry { NewEntry(0, 0xF_FFFF, 0x9A, 0xA0) }
  function DataSegment(): GdtEntry { NewEntry(0, 0xF_FFFF, 0x92, 0xC0) }
  function UserCodeSegment(): GdtEntry { NewEntry(0, 0xF_FFFF, 0xFA, 0xA0) }
  function UserDataSegment(): GdtEntry { NewEntry(0, 0xF_FFFF, 0xF2, 0xC0) }

  /** The four flat segments: present, base 0, page-granular full limit;
      the code segments executable, readable and 64-bit, the data segments
      writable and not executable; privilege 0 for the kernel's, 3 for the
      user's. */
  lemma SegmentKinds()
    ensures forall e | e in [CodeSegment(), DataSegment(), UserCodeSegment(), UserDataSegment()] ::
      Present(e) && Base(e) == 0 && Limit(e) == 0xF_FFFF && PageGranular(e) && ReadWrite(e)
    ensures Executable(CodeSegment()) && LongMode(CodeSegment()) && Dpl(CodeSegment()) == 0
    ensures !Executable(DataSegment()) && Dpl(DataSegment()) == 0
    ensures Executable(UserCodeSegment()) && LongMode(UserCodeSegment()) && Dpl(UserCodeSegment()) == 3
    ensures !Executable(UserDataSegment()) && Dpl(UserDataSegment()) == 3
  {
    NewEntryRoundTrip(0, 0xF_FFFF, 0x9A, 0xA0);
    NewEntryRoundTrip(0, 0xF_FFFF, 0x92, 0xC0);
    NewEntryRoundTrip(0, 0xF_FFFF, 0xFA, 0xA0);
    NewEntryRoundTrip(0, 0xF_FFFF, 0xF2, 0xC0);
  }

  // ---------------------------------------------------------------------
  // TSS descriptor

  datatype TssEntry = TssEntry(
    length: bv16,
    baseLow: bv16,
    baseMiddle: bv8,
    flags1: bv8,
    flags2: bv8,
    baseHigh: bv8,
    baseUpper: bv32,
    reserved: bv32)

  /** `TssEntry::new`: the 64-bit base over four fields, present and of
      type "available 64-bit TSS" (0x89). */
  function NewTss(tssAddr: bv64, tssSize: bv16): (e: TssEntry)
    ensures e.length == tssSize && e.flags1 == 0x89 && e.flags2 == 0 && e.reserved == 0
  {
    TssEntry(
      tssSize,
      (tssAddr & 0xFFFF) as bv16,
      ((tssAddr >> 16) & 0xFF) as bv8,
      0x89,
      0,
      ((tssAddr >> 24) & 0xFF) as bv8,
      ((tssAddr >> 32) & 0xFFFF_FFFF) as bv32,
      0)
  }

  function TssBase(e: TssEntry): bv64
  {
    (e.baseLow as bv64) | ((e.baseMiddle as bv64) << 16) | ((e.baseHigh as bv64) << 24) | ((e.baseUpper as bv64) << 32)
  }

  /** The TSS address comes back whole, and the descriptor is present with
      system type 9. */
  lemma NewTssRoundTrip(tssAddr: bv64, tssSize: bv16)
    ensures TssBase(NewTss(tssAddr, tssSize)) == tssAddr
    ensures NewTss(tssAddr, tssSize).flags1 & 0x80 != 0 && NewTss(tssAddr, tssSize).flags1 & 0x0F == 9
  {
  }

  // ---------------------------------------------------------------------
  // Task state segment layout

  /** Field widths of the packed `TaskStateSegment`, in declaration order. */
  const TSS_FIELD_SIZES: seq<nat> := [4, 8, 8, 8, 8, 8, 8, 8, 8, 8, 8, 8, 8, 2, 2]

  function TssSize(): nat { Sum(TSS_FIELD_SIZES) }

  /** `TaskStateSegment::new` puts the I/O map base at the structure's
      size, 104, one past the limit `init` installs (`size - 1`): there is
      no I/O permission map, so ring 3 may not use port I/O. */
  const IOMAP_BASE: nat := 104

  lemma TssLayout()
    ensures TssSize() == IOMAP_BASE
  {
    assert Sum(TSS_FIELD_SIZES[14..]) == 2;
    assert Sum(TSS_FIELD_SIZES[13..]) == 4;
    assert Sum(TSS_FIELD_SIZES[12..]) == 12;
    assert Sum(TSS_FIELD_SIZES[11..]) == 20;
    assert Sum(TSS_FIELD_SIZES[10..]) == 28;
    assert Sum(TSS_FIELD_SIZES[9..]) == 36;
    assert Sum(TSS_FIELD_SIZES[8..]) == 44;
    assert Sum(TSS_FIELD_SIZES[7..]) == 52;
    assert Sum(TSS_FIELD_SIZES[6..]) == 60;
    assert Sum(TSS_FIELD_SIZES[5..]) == 68;
    assert Sum(TSS_FIELD_SIZES[4..]) == 76;
    assert Sum(TSS_FIELD_SIZES[3..]) == 84;
    assert Sum(TSS_FIELD_SIZES[2..]) == 92;
    assert Sum(TSS_FIELD_SIZES[1..]) == 100;
    assert Sum(TSS_FIELD_SIZES[0..]) == 104;
    assert TSS_FIELD_SIZES[0..] == TSS_FIELD_SIZES;
  }

  // ---------------------------------------------------------------------
  // The table and its selectors

  /** What the 8-byte slot with a given index holds: `Gdt` is packed, so
      slot k starts at byte 8k; the 16-byte TSS descriptor fills slots 5
      and 6. */
  datatype Slot = NullSlot | Segment(e: GdtEntry) | TssLow | TssHigh | Beyond

  function SlotAt(index: nat): Slot
  {
    if index == 0 then NullSlot
    else if index == 1 then Segment(CodeSegment())
    else if index == 2 then Segment(DataSegment())
    else if index == 3 then Segment(UserCodeSegment())
    else if index == 4 then Segment(UserDataSegment())
    else if index == 5 then TssLow
    else if index == 6 then TssHigh
    else Beyond
  }

  /** `size_of::<Gdt>() - 1`, the limit loaded by `lgdt`. */
  const GDT_LIMIT: nat := 5 * 8 + 16 - 1

  const KERNEL_CODE_SELECTOR: bv16 := 0x08
  const KERNEL_DATA_SELECTOR: bv16 := 0x10
  const USER_CODE_SELECTOR: bv16 := 0x18 | 3
  const USER_DATA_SELECTOR: bv16 := 0x20 | 3
  const TSS_SELECTOR: bv16 := 0x28

  /** A selector's table index (bits 3-15) and requested privilege (bits
      0-1); bit 2 chooses the GDT when clear. */
  function SelectorIndex(sel: bv16): nat { (sel >> 3) as nat }
  function SelectorRpl(sel: bv16): bv8 { (sel & 3) as bv8 }
  function SelectsGdt(sel: bv16): bool { sel & 4 == 0 }

  /** Every selector picks a GDT slot inside the limit that holds the
      descriptor it is named after, and requests exactly that descriptor's
      privilege level: 0x1B and 0x23 carry RPL 3 for the ring-3 segments. */
  lemma SelectorsMatchTable()
    ensures USER_CODE_SELECTOR == 0x1B && USER_DATA_SELECTOR == 0x23
    ensures forall sel | sel in [KERNEL_CODE_SELECTOR, KERNEL_DATA_SELECTOR, USER_CODE_SELECTOR, USER_DATA_SELECTOR, TSS_SELECTOR] ::
      SelectsGdt(sel) && 8 * SelectorIndex(sel) + 7 <= GDT_LIMIT
    ensures SlotAt(SelectorIndex(KERNEL_CODE_SELECTOR)) == Segment(CodeSegment())
    ensures SlotAt(SelectorIndex(KERNEL_DATA_SELECTOR)) == Segment(DataSegment())
    ensures SlotAt(SelectorIndex(USER_CODE_SELECTOR)) == Segment(UserCodeSegment())
    ensures SlotAt(SelectorIndex(USER_DATA_SELECTOR)) == Segment(UserDataSegment())
    ensures SlotAt(SelectorIndex(TSS_SELECTOR)) == TssLow
    ensures forall sel | sel in [KERNEL_CODE_SELECTOR, KERNEL_DATA_SELECTOR, USER_CODE_SELECTOR, USER_DATA_SELECTOR] ::
      SelectorRpl(sel) == Dpl(SlotAt(SelectorIndex(sel)).e)
  {
    SegmentKinds();
  }
}
