/** The bitmap frame allocator (kernel/src/mm/physical.rs). Page `p` is
    bit `p` of the bitmap; a set bit means the page is allocated. Pages at
    or beyond MAX_PAGES count as allocated. The global `Mutex` around the
    allocator only serialises calls, so each operation is a function from
    allocator to allocator. */
module PhysicalMemory {
  import opened Common
  import opened Bitmap
  import Mm

  const PAGE_SIZE: nat := 4096
  /** 4 GiB of physical memory, 2^20 pages, 2^17 bitmap bytes. */
  const MAX_PAGES: nat := 0x10_0000
  const BITMAP_SIZE: nat := 0x2_0000

  type FrameBits = s: seq<bv8> | |s| == 0x2_0000 witness seq(0x2_0000, _ => 0)

  datatype FrameAllocator = FrameAllocator(
    bitmap: FrameBits,
    firstFree: nat,
    totalPages: nat,
    freePages: nat)

  function AllSet(): FrameBits { seq(0x2_0000, _ => 0xFF) }

  /** `FrameAllocator::new`: every page allocated, all counters zero. */
  function New(): (a: FrameAllocator)
    ensures Valid(a) && a.freePages == 0
    ensures forall q: nat :: IsAllocated(a, q)
  {
    CountFull(AllSet(), MAX_PAGES);
    CountSetFull(AllSet(), MAX_PAGES);
    FrameAllocator(AllSet(), 0, 0, 0)
  }

  /** `is_allocated`. */
  predicate IsAllocated(a: FrameAllocator, page: nat)
  {
    page >= MAX_PAGES || GetBit(a.bitmap, page)
  }

  /** The allocator's bookkeeping agrees with its bitmap: `free_pages` is the
      number of free pages, and every free page lies below `total_pages`. */
  ghost predicate Valid(a: FrameAllocator)
  {
    && a.freePages == MAX_PAGES - CountSet(a.bitmap, MAX_PAGES)
    && (forall q: nat :: q < MAX_PAGES && !GetBit(a.bitmap, q) ==> q < a.totalPages)
  }

  /** `mark_allocated`: setting a clear bit decrements `free_pages`,
      saturating at zero. */
  function MarkAllocated(a: FrameAllocator, page: nat): (r: FrameAllocator)
    ensures r.firstFree == a.firstFree && r.totalPages == a.totalPages
    ensures IsAllocated(r, page)
  {
    if page >= MAX_PAGES then a
    else if !GetBit(a.bitmap, page) then
      a.(bitmap := SetBit(a.bitmap, page),
         freePages := if a.freePages > 0 then a.freePages - 1 else 0)
    else a
  }

  /** `mark_free`: clearing a set bit increments `free_pages` and raises
      `total_pages` to cover the page. */
  function MarkFree(a: FrameAllocator, page: nat): (r: FrameAllocator)
    ensures r.firstFree == a.firstFree && r.totalPages >= a.totalPages
    ensures page < MAX_PAGES ==> !IsAllocated(r, page)
  {
    if page >= MAX_PAGES then a
    else if GetBit(a.bitmap, page) then
      a.(bitmap := ClearBit(a.bitmap, page),
         freePages := a.freePages + 1,
         totalPages := Max(a.totalPages, page + 1))
    else a
  }

  /** Marking a page allocated changes that page alone, and on a valid
      allocator takes one off the free count exactly when the page was
      free (so the saturation never triggers). */
  lemma MarkAllocatedSpec(a: FrameAllocator, page: nat)
    ensures forall q: nat :: IsAllocated(MarkAllocated(a, page), q) <==> q == page || IsAllocated(a, q)
    ensures Valid(a) ==> Valid(MarkAllocated(a, page))
    ensures Valid(a) ==> MarkAllocated(a, page).freePages + (if IsAllocated(a, page) then 0 else 1) == a.freePages
  {
    var r := MarkAllocated(a, page);
    forall q: nat ensures IsAllocated(r, q) <==> q == page || IsAllocated(a, q) {
      GetSetBit(a.bitmap, page, q);
    }
    if Valid(a) && page < MAX_PAGES && !GetBit(a.bitmap, page) {
      CountAfterSet(a.bitmap, page, MAX_PAGES);
      forall q: nat | q < MAX_PAGES && !GetBit(r.bitmap, q) ensures q < r.totalPages {
        GetSetBit(a.bitmap, page, q);
      }
    }
  }

  /** Marking a page free changes that page alone (pages beyond the map
      stay allocated) and on a valid allocator adds one to the free count
      exactly when the page was allocated. */
  lemma MarkFreeSpec(a: FrameAllocator, page: nat)
    ensures forall q: nat :: IsAllocated(MarkFree(a, page), q) <==> IsAllocated(a, q) && (q != page || q >= MAX_PAGES)
    ensures Valid(a) ==> Valid(MarkFree(a, page))
    ensures MarkFree(a, page).freePages == a.freePages + (if IsAllocated(a, page) && page < MAX_PAGES then 1 else 0)
  {
    var r := MarkFree(a, page);
    forall q: nat ensures IsAllocated(r, q) <==> IsAllocated(a, q) && (q != page || q >= MAX_PAGES) {
      GetClearBit(a.bitmap, page, q);
    }
    if Valid(a) && page < MAX_PAGES && GetBit(a.bitmap, page) {
      CountAfterClear(a.bitmap, page, MAX_PAGES);
      forall q: nat | q < MAX_PAGES && !GetBit(r.bitmap, q) ensures q < r.totalPages {
        GetClearBit(a.bitmap, page, q);
      }
    }
  }

  /** Which pages are allocated depends on the bitmap alone, not the hint. */
  lemma HintIrrelevant(a: FrameAllocator, hint: nat)
    ensures forall q: nat :: IsAllocated(a.(firstFree := hint), q) <==> IsAllocated(a, q)
  {
  }

  /** `for p in lo..hi { mark_allocated(p) }`. */
  function MarkAllocatedRange(a: FrameAllocator, lo: nat, hi: nat): (r: FrameAllocator)
    ensures r.firstFree == a.firstFree && r.totalPages == a.totalPages
    decreases if hi > lo then hi - lo else 0
  {
    if lo >= hi then a else MarkAllocatedRange(MarkAllocated(a, lo), lo + 1, hi)
  }

  /** `for p in lo..hi { mark_free(p) }`. */
  function MarkFreeRange(a: FrameAllocator, lo: nat, hi: nat): (r: FrameAllocator)
    ensures r.firstFree == a.firstFree && r.totalPages >= a.totalPages
    decreases if hi > lo then hi - lo else 0
  {
    if lo >= hi then a else MarkFreeRange(MarkFree(a, lo), lo + 1, hi)
  }

  lemma {:induction false} MarkAllocatedRangeSpec(a: FrameAllocator, lo: nat, hi: nat)
    ensures forall q: nat :: IsAllocated(MarkAllocatedRange(a, lo, hi), q) <==> (lo <= q < hi || IsAllocated(a, q))
    ensures Valid(a) ==> Valid(MarkAllocatedRange(a, lo, hi))
    decreases if hi > lo then hi - lo else 0
  {
    if lo < hi {
      MarkAllocatedSpec(a, lo);
      MarkAllocatedRangeSpec(MarkAllocated(a, lo), lo + 1, hi);
    }
  }

  lemma {:induction false} MarkFreeRangeSpec(a: FrameAllocator, lo: nat, hi: nat)
    ensures forall q: nat :: IsAllocated(MarkFreeRange(a, lo, hi), q) <==> IsAllocated(a, q) && !(lo <= q < hi && q < MAX_PAGES)
    ensures Valid(a) ==> Valid(MarkFreeRange(a, lo, hi))
    decreases if hi > lo then hi - lo else 0
  {
    if lo < hi {
      MarkFreeSpec(a, lo);
      MarkFreeRangeSpec(MarkFree(a, lo), lo + 1, hi);
    }
  }

  /** Freeing pages that are all free already changes nothing. */
  lemma {:induction false} MarkFreeRangeNoop(a: FrameAllocator, lo: nat, hi: nat)
    requires forall q: nat :: lo <= q < hi && q < MAX_PAGES ==> !IsAllocated(a, q)
    ensures MarkFreeRange(a, lo, hi) == a
    decreases if hi > lo then hi - lo else 0
  {
    if lo < hi {
      assert lo < MAX_PAGES ==> !IsAllocated(a, lo);
      assert MarkFree(a, lo) == a;
      MarkFreeRangeNoop(a, lo + 1, hi);
    }
  }

  /** On a valid allocator no page is free exactly when the free count is
      zero. */
  lemma NoFreePage(a: FrameAllocator)
    requires Valid(a)
    ensures (forall q: nat :: q < MAX_PAGES ==> IsAllocated(a, q)) <==> a.freePages == 0
  {
    CountSetFull(a.bitmap, MAX_PAGES);
    if forall q: nat :: q < MAX_PAGES ==> IsAllocated(a, q) {
      forall j: nat | j < MAX_PAGES ensures GetBit(a.bitmap, j) {
        assert IsAllocated(a, j);
      }
    }
  }

  /** The first free page in `[from, to)`, scanning upwards. */
  function FirstFreePage(a: FrameAllocator, from: nat, to: nat): (r: Option<nat>)
    ensures r.Some? ==> from <= r.value < to && r.value < MAX_PAGES && !IsAllocated(a, r.value)
    ensures r.Some? ==> forall q: nat :: from <= q < r.value ==> IsAllocated(a, q)
    ensures r.None? ==> forall q: nat :: from <= q < to ==> IsAllocated(a, q)
    decreases if to > from then to - from else 0
  {
    if from >= to then None
    else if !IsAllocated(a, from) then Some(from)
    else FirstFreePage(a, from + 1, to)
  }

  /** Page `p` is free and is the one a first-fit scan starting at the hint
      and wrapping round to page 0 meets first. */
  predicate AllocatedFirstFit(a: FrameAllocator, p: nat)
  {
    && p < MAX_PAGES && !IsAllocated(a, p)
    && (p >= a.firstFree ==> forall q: nat :: a.firstFree <= q < p ==> IsAllocated(a, q))
    && (p < a.firstFree ==>
          && (forall q: nat :: a.firstFree <= q < MAX_PAGES ==> IsAllocated(a, q))
          && (forall q: nat :: q < p ==> IsAllocated(a, q)))
  }

  /** `alloc`: the first free page at or after the `first_free` hint, else
      the first free page below it; the hint moves past the page taken. */
  function Alloc(a: FrameAllocator): (r: (FrameAllocator, Option<u64>))
    ensures r.1.None? <==> forall q: nat :: q < MAX_PAGES ==> IsAllocated(a, q)
    ensures r.1.None? ==> r.0 == a
    ensures r.1.Some? ==> r.1.value % PAGE_SIZE == 0 && AllocatedFirstFit(a, r.1.value / PAGE_SIZE)
    ensures r.1.Some? ==> r.0 == MarkAllocated(a, r.1.value / PAGE_SIZE).(firstFree := r.1.value / PAGE_SIZE + 1)
  {
    match FirstFreePage(a, a.firstFree, MAX_PAGES)
    case Some(p) => (MarkAllocated(a, p).(firstFree := p + 1), Some(p * PAGE_SIZE))
    case None =>
      match FirstFreePage(a, 0, a.firstFree)
      case Some(p) => (MarkAllocated(a, p).(firstFree := p + 1), Some(p * PAGE_SIZE))
      case None => (a, None)
  }

  /** On a valid allocator `alloc` fails exactly when no page is free, and
      a success takes one page off the free count and nothing else. */
  lemma AllocSpec(a: FrameAllocator)
    requires Valid(a)
    ensures Alloc(a).1.None? <==> a.freePages == 0
    ensures Valid(Alloc(a).0)
    ensures Alloc(a).1.Some? ==>
      && Alloc(a).0.freePages + 1 == a.freePages
      && forall q: nat :: IsAllocated(Alloc(a).0, q) <==> q == Alloc(a).1.value / PAGE_SIZE || IsAllocated(a, q)
  {
    NoFreePage(a);
    var (r, addr) := Alloc(a);
    if addr.Some? {
      var p := addr.value / PAGE_SIZE;
      MarkAllocatedSpec(a, p);
      HintIrrelevant(MarkAllocated(a, p), p + 1);
    }
  }

  /** The pages `[s, s + count)` exist and are all free. */
  predicate FreeRun(a: FrameAllocator, s: nat, count: nat)
  {
    s + count <= MAX_PAGES && forall q: nat :: s <= q < s + count ==> !IsAllocated(a, q)
  }

  /** `s` starts the lowest run of `count` free pages at or after the hint. */
  predicate LowestRun(a: FrameAllocator, s: nat, count: nat)
  {
    && a.firstFree <= s && FreeRun(a, s, count)
    && forall s': nat :: a.firstFree <= s' < s ==> !FreeRun(a, s', count)
  }

  /** `alloc_contiguous`: zero pages fail, one page is `alloc`, and more
      take the lowest run of `count` free pages starting at or after the
      hint, which itself is left alone. */
  method AllocContiguous(a: FrameAllocator, count: nat) returns (r: FrameAllocator, addr: Option<u64>)
    ensures count == 0 ==> r == a && addr.None?
    ensures count == 1 ==> (r, addr) == Alloc(a)
    ensures count >= 2 ==>
      (addr.Some? <==> exists s: nat :: a.firstFree <= s && FreeRun(a, s, count))
    ensures count >= 2 && addr.None? ==> r == a
    ensures count >= 2 && addr.Some? ==>
      && addr.value % PAGE_SIZE == 0
      && LowestRun(a, addr.value / PAGE_SIZE, count)
      && r == MarkAllocatedRange(a, addr.value / PAGE_SIZE, addr.value / PAGE_SIZE + count)
      && (forall q: nat :: IsAllocated(r, q) <==> addr.value / PAGE_SIZE <= q < addr.value / PAGE_SIZE + count || IsAllocated(a, q))
    ensures count >= 2 && addr.Some? ==> SameAllocation(FreeContiguous(r, addr.value, count), a)
    ensures Valid(a) ==> Valid(r)
  {
    if count == 0 {
      return a, None;
    }
    if count == 1 {
      r, addr := Alloc(a).0, Alloc(a).1;
      if Valid(a) {
        AllocSpec(a);
      }
      return;
    }
    var run := FindRun(a, count);
    if run.None? {
      return a, None;
    }
    var start := run.value;
    RunTaken(a, start, count);
    r := MarkAllocatedRange(a, start, start + count);
    addr := Some(start * PAGE_SIZE);
    assert addr.value / PAGE_SIZE == start;
  }

  /** Taking a free run of pages marks exactly those pages, and freeing
      them again restores the allocation. */
  lemma RunTaken(a: FrameAllocator, start: nat, count: nat)
    requires FreeRun(a, start, count)
    ensures start * PAGE_SIZE < U64_MODULUS && (start * PAGE_SIZE) / PAGE_SIZE == start
    ensures forall q: nat :: (IsAllocated(MarkAllocatedRange(a, start, start + count), q)
      <==> start <= q < start + count || IsAllocated(a, q))
    ensures SameAllocation(FreeContiguous(MarkAllocatedRange(a, start, start + count), start * PAGE_SIZE, count), a)
    ensures Valid(a) ==> Valid(MarkAllocatedRange(a, start, start + count))
  {
    var r := MarkAllocatedRange(a, start, start + count);
    MarkAllocatedRangeSpec(a, start, start + count);
    assert (start * PAGE_SIZE) / PAGE_SIZE == start;
    FreeContiguousSpec(r, start * PAGE_SIZE, count);
  }

  /** The scan of `alloc_contiguous`: `found` counts the free pages seen
      since the last allocated one, and the scan stops when it reaches
      `count`. */
  method FindRun(a: FrameAllocator, count: nat) returns (run: Option<nat>)
    requires count > 0
    ensures run.Some? ==> LowestRun(a, run.value, count)
    ensures run.None? ==> forall s: nat :: a.firstFree <= s ==> !FreeRun(a, s, count)
  {
    var start := a.firstFree;
    var found: nat := 0;
    var page := a.firstFree;
    while page < MAX_PAGES
      invariant a.firstFree <= page
      invariant found < count && found <= page - a.firstFree
      invariant found > 0 ==> start == page - found
      invariant forall q: nat :: page - found <= q < page ==> !IsAllocated(a, q)
      invariant page - found > a.firstFree ==> IsAllocated(a, page - found - 1)
      invariant forall s: nat :: a.firstFree <= s && s + count <= page ==> !FreeRun(a, s, count)
      decreases MAX_PAGES - page
    {
      if !IsAllocated(a, page) {
        if found == 0 {
          start := page;
        }
        found := found + 1;
        if found == count {
          assert FreeRun(a, start, count);
          return Some(start);
        }
        forall s: nat | a.firstFree <= s && s + count == page + 1
          ensures !FreeRun(a, s, count)
        {
          assert s < page + 1 - found;
          assert IsAllocated(a, page - (found - 1) - 1);
        }
      } else {
        forall s: nat | a.firstFree <= s && s + count == page + 1
          ensures !FreeRun(a, s, count)
        {
          assert IsAllocated(a, page);
        }
        found := 0;
      }
      page := page + 1;
    }
    return None;
  }

  /** `free`: an allocated page below MAX_PAGES is marked free and lowers
      the hint; anything else is ignored. */
  function Free(a: FrameAllocator, addr: u64): (r: FrameAllocator)
    ensures addr / PAGE_SIZE < MAX_PAGES && IsAllocated(a, addr / PAGE_SIZE) ==>
      r.firstFree == Min(a.firstFree, addr / PAGE_SIZE) && !IsAllocated(r, addr / PAGE_SIZE)
    ensures !(addr / PAGE_SIZE < MAX_PAGES && IsAllocated(a, addr / PAGE_SIZE)) ==> r == a
  {
    var page := addr / PAGE_SIZE;
    if page < MAX_PAGES && IsAllocated(a, page) then
      var m := MarkFree(a, page);
      if page < m.firstFree then m.(firstFree := page) else m
    else a
  }

  /** Freeing the same address twice is the same as freeing it once. */
  lemma FreeIdempotent(a: FrameAllocator, addr: u64)
    ensures Free(Free(a, addr), addr) == Free(a, addr)
  {
  }

  /** The two allocators agree on which pages are allocated. */
  ghost predicate SameAllocation(a: FrameAllocator, b: FrameAllocator)
  {
    forall q: nat :: IsAllocated(a, q) <==> IsAllocated(b, q)
  }

  /** On a valid allocator, `free` undoes `alloc`: the same pages are
      allocated, and the free and total counts are as before. */
  lemma AllocFreeRoundTrip(a: FrameAllocator)
    requires Valid(a)
    requires Alloc(a).1.Some?
    ensures SameAllocation(Free(Alloc(a).0, Alloc(a).1.value), a)
    ensures Free(Alloc(a).0, Alloc(a).1.value).freePages == a.freePages
    ensures Free(Alloc(a).0, Alloc(a).1.value).totalPages == a.totalPages
    ensures Valid(Free(Alloc(a).0, Alloc(a).1.value))
  {
    var (r, addr) := Alloc(a);
    var p := addr.value / PAGE_SIZE;
    AllocSpec(a);
    MarkFreeSpec(r, p);
    assert p < a.totalPages;
  }

  /** `free_contiguous`: every page of the range below MAX_PAGES is marked
      free, and the hint is lowered to the range's first page. */
  function FreeContiguous(a: FrameAllocator, addr: u64, count: nat): (r: FrameAllocator)
    ensures r.firstFree == Min(a.firstFree, addr / PAGE_SIZE)
    ensures forall q: nat :: addr / PAGE_SIZE <= q < addr / PAGE_SIZE + count && q < MAX_PAGES ==> !IsAllocated(r, q)
  {
    MarkFreeRangeSpec(a, addr / PAGE_SIZE, addr / PAGE_SIZE + count);
    HintIrrelevant(MarkFreeRange(a, addr / PAGE_SIZE, addr / PAGE_SIZE + count), addr / PAGE_SIZE);
    var start := addr / PAGE_SIZE;
    var m := MarkFreeRange(a, start, start + count);
    if start < m.firstFree then m.(firstFree := start) else m
  }

  /** Freeing the same range twice is the same as freeing it once. */
  lemma FreeContiguousIdempotent(a: FrameAllocator, addr: u64, count: nat)
    ensures FreeContiguous(FreeContiguous(a, addr, count), addr, count) == FreeContiguous(a, addr, count)
  {
    var s := addr / PAGE_SIZE;
    var b := FreeContiguous(a, addr, count);
    MarkFreeRangeNoop(b, s, s + count);
  }

  /** `free_contiguous` only frees: a valid allocator stays valid and no
      page outside the range changes. */
  lemma FreeContiguousSpec(a: FrameAllocator, addr: u64, count: nat)
    ensures Valid(a) ==> Valid(FreeContiguous(a, addr, count))
    ensures forall q: nat ::
      (IsAllocated(FreeContiguous(a, addr, count), q)
       <==> IsAllocated(a, q) && !(addr / PAGE_SIZE <= q < addr / PAGE_SIZE + count && q < MAX_PAGES))
  {
    var s := addr / PAGE_SIZE;
    MarkFreeRangeSpec(a, s, s + count);
  }

  /** `stats`: total, used and free memory in bytes; `None` is the `usize`
      subtraction underflowing. */
  function Stats(a: FrameAllocator): (r: Option<(nat, nat, nat)>)
    ensures r.Some? ==> r.value.0 == a.totalPages * PAGE_SIZE && r.value.2 == a.freePages * PAGE_SIZE
    ensures r.Some? ==> r.value.1 + r.value.2 == r.value.0
  {
    var total := a.totalPages * PAGE_SIZE;
    var free := a.freePages * PAGE_SIZE;
    if free > total then None else Some((total, total - free, free))
  }

  /** On a valid allocator the free pages never outnumber the total, so
      `stats` cannot underflow. */
  lemma StatsDefined(a: FrameAllocator)
    requires Valid(a)
    ensures a.freePages <= a.totalPages && a.freePages <= MAX_PAGES
    ensures Stats(a).Some?
  {
    var m := Min(a.totalPages, MAX_PAGES);
    CountSetTail(a.bitmap, m, MAX_PAGES);
  }

  // ---------------------------------------------------------------------
  // Initialisation from the boot memory map

  function EntryFirstPage(e: Mm.MemoryMapEntry): nat
  {
    Mm.PageAlignUp(e.base) / PAGE_SIZE
  }

  /** The end of an entry; `base + length` wraps in u64. */
  function EntryEndPage(e: Mm.MemoryMapEntry): nat
  {
    Mm.PageAlignDown(WrappingAdd64(e.base, e.length)) / PAGE_SIZE
  }

  /** Page `q` lies in the page-aligned interior of some available entry. */
  predicate Covered(entries: seq<Mm.MemoryMapEntry>, q: nat)
    decreases |entries|
  {
    && entries != []
    && ((entries[0].memType == Mm.Available && EntryFirstPage(entries[0]) <= q < EntryEndPage(entries[0]))
        || Covered(entries[1..], q))
  }

  function FreeEntries(a: FrameAllocator, entries: seq<Mm.MemoryMapEntry>): FrameAllocator
    decreases |entries|
  {
    if entries == [] then a
    else
      var e := entries[0];
      var b := if e.memType == Mm.Available then MarkFreeRange(a, EntryFirstPage(e), EntryEndPage(e)) else a;
      FreeEntries(b, entries[1..])
  }

  lemma {:induction false} FreeEntriesSpec(a: FrameAllocator, entries: seq<Mm.MemoryMapEntry>)
    ensures forall q: nat :: IsAllocated(FreeEntries(a, entries), q) <==> IsAllocated(a, q) && !(q < MAX_PAGES && Covered(entries, q))
    ensures Valid(a) ==> Valid(FreeEntries(a, entries))
    decreases |entries|
  {
    if entries != [] {
      var e := entries[0];
      var b := if e.memType == Mm.Available then MarkFreeRange(a, EntryFirstPage(e), EntryEndPage(e)) else a;
      MarkFreeRangeSpec(a, EntryFirstPage(e), EntryEndPage(e));
      FreeEntriesSpec(b, entries[1..]);
    }
  }

  /** Low memory below 1 MiB and the default map's end at 128 MiB. */
  const LOW_MEMORY_PAGES: nat := 0x100
  const DEFAULT_END_PAGE: nat := 0x8000

  /** Pages the boot information offers before anything is reserved. */
  predicate Offered(memMap: Option<seq<Mm.MemoryMapEntry>>, q: nat)
  {
    if memMap.None? || memMap.value == [] then LOW_MEMORY_PAGES <= q < DEFAULT_END_PAGE
    else Covered(memMap.value, q)
  }

  function KernelFirstPage(kernelStart: u64): nat { kernelStart / PAGE_SIZE }

  /** `(kernel_end + PAGE_SIZE - 1) / PAGE_SIZE`, the addition wrapping. */
  function KernelEndPage(kernelEnd: u64): nat { WrappingAdd64(kernelEnd, PAGE_SIZE - 1) / PAGE_SIZE }

  predicate InKernel(kernelStart: u64, kernelEnd: u64, q: nat)
  {
    KernelFirstPage(kernelStart) > 0 && KernelFirstPage(kernelStart) <= q < KernelEndPage(kernelEnd)
  }

  /** The page state `init` builds before it sets the hint: reset the
      bitmap, free what the memory map offers (or the default range), then
      reserve low memory and the kernel image. */
  function InitPages(a: FrameAllocator, memMap: Option<seq<Mm.MemoryMapEntry>>, kernelStart: u64, kernelEnd: u64)
    : FrameAllocator
  {
    var a1 := a.(bitmap := AllSet());
    var a2 := if memMap.None? || memMap.value == [] then MarkFreeRange(a1, LOW_MEMORY_PAGES, DEFAULT_END_PAGE)
              else FreeEntries(a1, memMap.value);
    var a3 := MarkAllocatedRange(a2, 0, LOW_MEMORY_PAGES);
    if KernelFirstPage(kernelStart) > 0 then MarkAllocatedRange(a3, KernelFirstPage(kernelStart), KernelEndPage(kernelEnd))
    else a3
  }

  /** `init`: build the page state, then point the hint at the first free
      page. The result carries the free and used page counts handed to
      `update_stats`; `None` is the `usize` subtraction computing the used
      count underflowing. `free_pages` and `total_pages` are not reset. */
  function Init(a: FrameAllocator, memMap: Option<seq<Mm.MemoryMapEntry>>, kernelStart: u64, kernelEnd: u64)
    : (r: Option<(FrameAllocator, nat, nat)>)
    ensures r.Some? ==> r.value.1 == r.value.0.freePages && r.value.1 + r.value.2 == r.value.0.totalPages
  {
    var b := InitPages(a, memMap, kernelStart, kernelEnd);
    var first := match FirstFreePage(b, 0, MAX_PAGES) case Some(p) => p case None => 0;
    var c := b.(firstFree := first);
    if c.freePages > c.totalPages then None
    else Some((c, c.freePages, c.totalPages - c.freePages))
  }

  /** Exactly the offered pages are free, except low memory and the kernel
      image. */
  predicate InitLayout(b: FrameAllocator, memMap: Option<seq<Mm.MemoryMapEntry>>, kernelStart: u64, kernelEnd: u64)
  {
    forall q: nat :: q < MAX_PAGES ==>
      (!IsAllocated(b, q) <==> Offered(memMap, q) && q >= LOW_MEMORY_PAGES && !InKernel(kernelStart, kernelEnd, q))
  }

  /** The hint is the lowest free page (or 0 when none is free). */
  ghost predicate HintIsLowestFree(b: FrameAllocator)
  {
    && (forall q: nat :: q < b.firstFree ==> IsAllocated(b, q))
    && (b.freePages > 0 ==> !IsAllocated(b, b.firstFree))
    && (b.freePages == 0 ==> b.firstFree == 0)
  }

  /** Resetting the bitmap of an allocator with free count zero gives a
      valid allocator with every page allocated. */
  lemma ResetAll(a: FrameAllocator)
    requires a.freePages == 0
    ensures Valid(a.(bitmap := AllSet()))
    ensures forall q: nat :: IsAllocated(a.(bitmap := AllSet()), q)
  {
    CountFull(AllSet(), MAX_PAGES);
    CountSetFull(AllSet(), MAX_PAGES);
  }

  /** Freeing what the boot information offers, starting from all pages
      allocated, frees exactly the offered pages. */
  lemma FreeOfferedSpec(a: FrameAllocator, memMap: Option<seq<Mm.MemoryMapEntry>>)
    requires Valid(a) && forall q: nat :: IsAllocated(a, q)
    ensures var b := if memMap.None? || memMap.value == [] then MarkFreeRange(a, LOW_MEMORY_PAGES, DEFAULT_END_PAGE)
                     else FreeEntries(a, memMap.value);
      Valid(b) && forall q: nat :: q < MAX_PAGES ==> (!IsAllocated(b, q) <==> Offered(memMap, q))
  {
    if memMap.None? || memMap.value == [] {
      MarkFreeRangeSpec(a, LOW_MEMORY_PAGES, DEFAULT_END_PAGE);
    } else {
      FreeEntriesSpec(a, memMap.value);
    }
  }

  /** Starting from free count zero (as `new` leaves it), the page state
      built is valid and frees exactly the offered pages outside low memory
      and the kernel. */
  lemma InitPagesSpec(a: FrameAllocator, memMap: Option<seq<Mm.MemoryMapEntry>>, kernelStart: u64, kernelEnd: u64)
    requires a.freePages == 0
    ensures Valid(InitPages(a, memMap, kernelStart, kernelEnd))
    ensures InitLayout(InitPages(a, memMap, kernelStart, kernelEnd), memMap, kernelStart, kernelEnd)
  {
    var a1 := a.(bitmap := AllSet());
    ResetAll(a);
    FreeOfferedSpec(a1, memMap);
    var a2 := if memMap.None? || memMap.value == [] then MarkFreeRange(a1, LOW_MEMORY_PAGES, DEFAULT_END_PAGE)
              else FreeEntries(a1, memMap.value);
    var a3 := MarkAllocatedRange(a2, 0, LOW_MEMORY_PAGES);
    MarkAllocatedRangeSpec(a2, 0, LOW_MEMORY_PAGES);
    var ks, ke := KernelFirstPage(kernelStart), KernelEndPage(kernelEnd);
    var a4 := if ks > 0 then MarkAllocatedRange(a3, ks, ke) else a3;
    assert InitPages(a, memMap, kernelStart, kernelEnd) == a4;
    MarkAllocatedRangeSpec(a3, ks, ke);
    forall q: nat | q < MAX_PAGES
      ensures !IsAllocated(a4, q) <==> Offered(memMap, q) && q >= LOW_MEMORY_PAGES && !InKernel(kernelStart, kernelEnd, q)
    {
      assert IsAllocated(a3, q) <==> q < LOW_MEMORY_PAGES || IsAllocated(a2, q);
      assert IsAllocated(a4, q) <==> InKernel(kernelStart, kernelEnd, q) || IsAllocated(a3, q);
    }
  }

  /** Initialising an allocator whose free count is zero (a fresh one)
      succeeds and leaves it valid, with exactly the offered pages free
      except low memory and the kernel image, and the hint on the lowest
      free page. */
  lemma InitSound(a: FrameAllocator, memMap: Option<seq<Mm.MemoryMapEntry>>, kernelStart: u64, kernelEnd: u64)
    requires a.freePages == 0
    ensures Init(a, memMap, kernelStart, kernelEnd).Some?
    ensures Valid(Init(a, memMap, kernelStart, kernelEnd).value.0)
    ensures InitLayout(Init(a, memMap, kernelStart, kernelEnd).value.0, memMap, kernelStart, kernelEnd)
    ensures HintIsLowestFree(Init(a, memMap, kernelStart, kernelEnd).value.0)
  {
    var b := InitPages(a, memMap, kernelStart, kernelEnd);
    InitPagesSpec(a, memMap, kernelStart, kernelEnd);
    var first := match FirstFreePage(b, 0, MAX_PAGES) case Some(p) => p case None => 0;
    HintedSound(b, first);
    StatsDefined(b);
    LowestHint(b);
    assert Init(a, memMap, kernelStart, kernelEnd).value.0 == b.(firstFree := first);
  }

  /** Setting the hint keeps an allocator valid and its pages as they were. */
  lemma HintedSound(b: FrameAllocator, first: nat)
    requires Valid(b)
    ensures Valid(b.(firstFree := first))
    ensures forall q: nat :: IsAllocated(b.(firstFree := first), q) <==> IsAllocated(b, q)
  {
    HintIrrelevant(b, first);
  }

  /** The hint `init` computes is the lowest free page. */
  lemma LowestHint(b: FrameAllocator)
    requires Valid(b)
    ensures var first := match FirstFreePage(b, 0, MAX_PAGES) case Some(p) => p case None => 0;
      HintIsLowestFree(b.(firstFree := first))
  {
    var first := match FirstFreePage(b, 0, MAX_PAGES) case Some(p) => p case None => 0;
    HintIrrelevant(b, first);
    NoFreePage(b);
  }
}
