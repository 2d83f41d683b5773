/** Memory-management arithmetic and statistics (kernel/src/mm/mod.rs).

    Clearing the low twelve bits of a u64 (`addr & !(PAGE_SIZE - 1)`) is
    subtracting its remainder modulo 4096, and `>> 12` / `<< 12` are
    division and (wrapping) multiplication by 4096; the model states them
    that way. */
module Mm {
  import opened Common

  const PAGE_SIZE: nat := 4096
  const PAGE_SHIFT: nat := 12

  /** `MemoryType` with its `repr(C)` discriminants 1 to 9. */
  datatype MemoryType =
    | Available | Reserved | AcpiReclaimable | AcpiNvs | BadMemory
    | Kernel | Bootloader | Framebuffer | PageTables

  datatype MemoryMapEntry = MemoryMapEntry(base: u64, length: u64, memType: MemoryType)

  datatype MemoryStats = MemoryStats(
    totalMemory: u64,
    availableMemory: u64,
    usedMemory: u64,
    freePages: u64,
    usedPages: u64)

  const ZeroStats: MemoryStats := MemoryStats(0, 0, 0, 0, 0)

  /** `page_align_down`. */
  function PageAlignDown(addr: u64): (r: u64)
    ensures r % PAGE_SIZE == 0 && r <= addr && addr - r < PAGE_SIZE
  {
    addr - addr % PAGE_SIZE
  }

  /** `page_align_up`: `addr + 4095` wraps in u64 before the low bits are
      cleared. */
  function PageAlignUp(addr: u64): (r: u64)
    ensures r % PAGE_SIZE == 0
    ensures addr + (PAGE_SIZE - 1) < U64_MODULUS ==> addr <= r && r - addr < PAGE_SIZE
  {
    var s := (addr + (PAGE_SIZE - 1)) % U64_MODULUS;
    s - s % PAGE_SIZE
  }

  /** Near the top of the address space `page_align_up` wraps to a small
      value. */
  lemma PageAlignUpWraps()
    ensures PageAlignUp(U64_MODULUS - 1) == 0
  {
  }

  /** Both alignments leave an aligned address alone, hence are idempotent. */
  lemma AlignIdempotent(addr: u64)
    ensures addr % PAGE_SIZE == 0 ==> PageAlignDown(addr) == addr && PageAlignUp(addr) == addr
    ensures PageAlignDown(PageAlignDown(addr)) == PageAlignDown(addr)
    ensures PageAlignUp(PageAlignUp(addr)) == PageAlignUp(addr)
  {
  }

  /** `addr_to_page`: `addr >> 12`. */
  function AddrToPage(addr: u64): (p: u64)
    ensures p * PAGE_SIZE <= addr < (p + 1) * PAGE_SIZE
  {
    addr / PAGE_SIZE
  }

  /** `page_to_addr`: `page << 12`, losing the bits shifted out. */
  function PageToAddr(page: u64): (a: u64)
    ensures page < 0x10_0000_0000_0000 ==> a == page * PAGE_SIZE
  {
    (page * PAGE_SIZE) % U64_MODULUS
  }

  /** Page numbers and page addresses convert back and forth: an address
      comes back aligned down, and a page number below 2^52 comes back
      unchanged. */
  lemma PageAddrRoundTrip(addr: u64, page: u64)
    ensures PageToAddr(AddrToPage(addr)) == PageAlignDown(addr)
    ensures page < 0x10_0000_0000_0000 ==> AddrToPage(PageToAddr(page)) == page
  {
    var p := AddrToPage(addr);
    assert p * PAGE_SIZE == addr - addr % PAGE_SIZE;
  }

  /** `update_stats`: the page counts are stored and `used_memory` is the
      used pages in bytes (u64 multiplication, wrapping). */
  function UpdateStats(stats: MemoryStats, freePages: u64, usedPages: u64): (r: MemoryStats)
    ensures r.freePages == freePages && r.usedPages == usedPages
    ensures usedPages < 0x10_0000_0000_0000 ==> r.usedMemory == usedPages * PAGE_SIZE
    ensures r.totalMemory == stats.totalMemory && r.availableMemory == stats.availableMemory
  {
    stats.(freePages := freePages, usedPages := usedPages,
           usedMemory := (usedPages * PAGE_SIZE) % U64_MODULUS)
  }

  const DEFAULT_TOTAL_MEMORY: nat := 128 * 1024 * 1024
  const DEFAULT_AVAILABLE_MEMORY: nat := 64 * 1024 * 1024

  /** `parse_memory_map`; `None` stands for a null map pointer. Without a
      map (or with an empty one) the totals become 128 MiB and 64 MiB;
      otherwise every entry's length is added to the total and every
      available entry's length to the available memory (u64 additions,
      wrapping). */
  function ParseMemoryMap(stats: MemoryStats, memMap: Option<seq<MemoryMapEntry>>): (r: MemoryStats)
    ensures memMap.None? || memMap.value == [] ==>
      r == stats.(totalMemory := DEFAULT_TOTAL_MEMORY, availableMemory := DEFAULT_AVAILABLE_MEMORY)
    ensures r.usedMemory == stats.usedMemory && r.freePages == stats.freePages && r.usedPages == stats.usedPages
  {
    if memMap.None? || memMap.value == [] then
      stats.(totalMemory := DEFAULT_TOTAL_MEMORY, availableMemory := DEFAULT_AVAILABLE_MEMORY)
    else AddEntries(stats, memMap.value)
  }

  function AddEntries(stats: MemoryStats, entries: seq<MemoryMapEntry>): (r: MemoryStats)
    ensures r.usedMemory == stats.usedMemory && r.freePages == stats.freePages && r.usedPages == stats.usedPages
    decreases |entries|
  {
    if entries == [] then stats
    else
      var e := entries[0];
      var s1 := stats.(totalMemory := WrappingAdd64(stats.totalMemory, e.length),
                       availableMemory := if e.memType == Available
                                          then WrappingAdd64(stats.availableMemory, e.length)
                                          else stats.availableMemory);
      AddEntries(s1, entries[1..])
  }

  /** Sum of all entries' lengths, and of the available ones'. */
  function TotalLength(entries: seq<MemoryMapEntry>): nat
    decreases |entries|
  {
    if entries == [] then 0 else entries[0].length + TotalLength(entries[1..])
  }

  function AvailableLength(entries: seq<MemoryMapEntry>): nat
    decreases |entries|
  {
    if entries == [] then 0
    else (if entries[0].memType == Available then entries[0].length else 0) + AvailableLength(entries[1..])
  }

  lemma {:induction false} AvailableAtMostTotal(entries: seq<MemoryMapEntry>)
    ensures AvailableLength(entries) <= TotalLength(entries)
    decreases |entries|
  {
    if entries != [] {
      AvailableAtMostTotal(entries[1..]);
    }
  }

  /** While no addition wraps, parsing adds the sum of all lengths to the
      total and the sum of the available lengths to the available memory,
      so available memory stays at most the total. */
  lemma {:induction false} ParseMemoryMapSums(stats: MemoryStats, entries: seq<MemoryMapEntry>)
    requires stats.availableMemory <= stats.totalMemory
    requires stats.totalMemory + TotalLength(entries) < U64_MODULUS
    ensures AddEntries(stats, entries).totalMemory == stats.totalMemory + TotalLength(entries)
    ensures AddEntries(stats, entries).availableMemory == stats.availableMemory + AvailableLength(entries)
    ensures AddEntries(stats, entries).availableMemory <= AddEntries(stats, entries).totalMemory
    decreases |entries|
  {
    AvailableAtMostTotal(entries);
    if entries != [] {
      var e := entries[0];
      var rest := entries[1..];
      assert TotalLength(entries) == e.length + TotalLength(rest);
      var total := stats.totalMemory + e.length;
      var avail := if e.memType == Available then stats.availableMemory + e.length else stats.availableMemory;
      assert total < U64_MODULUS && avail <= total;
      var s1 := stats.(totalMemory := total, availableMemory := avail);
      assert AddEntries(stats, entries) == AddEntries(s1, rest);
      ParseMemoryMapSums(s1, rest);
    }
  }
}
