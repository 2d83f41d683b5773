/** Virtual address spaces (kernel/src/mm/virtual_mem.rs): the list of
    mapped regions, the overlap check guarding `map_region`, region
    removal, the search for a free range and the translation of region
    flags into x86_64 page-table flags.

    Page-table updates themselves are not walked here: `map_region`
    reports which virtual page was backed by which frame, and the frames
    are a parameter (the frames the physical allocator hands out, in
    order, before it or `paging::map_page` fails). Likewise `unmap_region`
    takes the set of virtual pages that currently have a mapping. */
module VirtualMemory {
  import opened Common
  import Paging

  const PAGE_SIZE: nat := 4096

  // `VmFlags` (u32 bit flags)
  const READ: bv32 := 0x1
  const WRITE: bv32 := 0x2
  const EXECUTE: bv32 := 0x4
  const USER: bv32 := 0x8
  const SHARED: bv32 := 0x10
  const STACK: bv32 := 0x20
  const HEAP: bv32 := 0x40
  const MMIO: bv32 := 0x80

  datatype VmRegion = VmRegion(start: u64, end: u64, flags: bv32, name: string)

  datatype AddressSpace = AddressSpace(pageTableRoot: u64, regions: seq<VmRegion>, pid: u32)

  /** `AddressSpace::new`: `frame` is what `alloc_frame` returned; without
      a frame there is no address space. */
  function New(pid: u32, frame: Option<u64>): (r: Option<AddressSpace>)
    ensures r.Some? <==> frame.Some?
    ensures r.Some? ==> r.value.regions == [] && r.value.pid == pid && r.value.pageTableRoot == frame.value
  {
    if frame.None? then None else Some(AddressSpace(frame.value, [], pid))
  }

  // ---------------------------------------------------------------------
  // Overlap

  /** The test of `map_region`: `[start, end)` meets region `r`. */
  predicate Overlaps(start: int, end: int, r: VmRegion)
  {
    start < r.end && end > r.start
  }

  predicate Contains(r: VmRegion, x: int) { r.start <= x < r.end }

  /** For non-empty ranges the test means exactly "some address lies in
      both". */
  lemma OverlapsMeansShared(start: u64, end: u64, r: VmRegion)
    requires start < end && r.start < r.end
    ensures Overlaps(start, end, r) <==> exists x: int :: start <= x < end && Contains(r, x)
  {
    if Overlaps(start, end, r) {
      var x := Max(start, r.start);
      assert start <= x < end && Contains(r, x);
    }
  }

  /** No two regions of the list (at different positions) overlap. */
  predicate PairwiseDisjoint(rs: seq<VmRegion>)
  {
    forall i, j :: 0 <= i < |rs| && 0 <= j < |rs| && i != j ==> !Overlaps(rs[i].start, rs[i].end, rs[j])
  }

  /** The same, stated over the set of regions rather than positions. */
  predicate DistinctDisjoint(rs: seq<VmRegion>)
  {
    forall a, b :: a in rs && b in rs && a != b ==> !Overlaps(a.start, a.end, b)
  }

  lemma PairwiseDistinct(rs: seq<VmRegion>)
    requires PairwiseDisjoint(rs)
    ensures DistinctDisjoint(rs)
  {
    forall a, b | a in rs && b in rs && a != b ensures !Overlaps(a.start, a.end, b) {
      var i :| 0 <= i < |rs| && rs[i] == a;
      var j :| 0 <= j < |rs| && rs[j] == b;
    }
  }

  // ---------------------------------------------------------------------
  // map_region

  /** `(size as usize + PAGE_SIZE - 1) / PAGE_SIZE`, the addition wrapping. */
  function NumPages(size: u64): nat
  {
    WrappingAdd64(size, PAGE_SIZE - 1) / PAGE_SIZE
  }

  /** Without wrap-around, that is the number of pages needed to cover
      `size` bytes: enough, and one fewer would not be. */
  lemma NumPagesCeil(size: u64)
    requires size + (PAGE_SIZE - 1) < U64_MODULUS
    ensures NumPages(size) * PAGE_SIZE >= size
    ensures NumPages(size) > 0 ==> (NumPages(size) - 1) * PAGE_SIZE < size
  {
  }

  /** The `i`th page of a region at `start`: `start + (i * PAGE_SIZE)`,
      the u64 addition wrapping. */
  function PageVirt(start: u64, i: nat): (v: u64)
    requires i < 0x10_0000_0000_0000
    ensures start + i * PAGE_SIZE < U64_MODULUS ==> v == start + i * PAGE_SIZE
  {
    WrappingAdd64(start, i * PAGE_SIZE)
  }

  /** What `map_region` did: the address space afterwards, the
      (virtual page, frame) pairs it mapped in order, and its result. */
  datatype MapOutcome = MapOutcome(space: AddressSpace, mapped: seq<(u64, u64)>, result: Outcome)

  const OVERLAP_MSG: string := "Region overlaps with existing region"
  const OUT_OF_MEMORY_MSG: string := "Out of physical memory"

  /** The pairs `(PageVirt(start, i), frames[i])` for `i < n`. */
  function PagePairs(start: u64, frames: seq<u64>, n: nat): (ps: seq<(u64, u64)>)
    requires n <= |frames| && n <= 0x10_0000_0000_0000
    ensures |ps| == n
    ensures forall i :: 0 <= i < n ==> ps[i] == (PageVirt(start, i), frames[i])
  {
    if n == 0 then [] else PagePairs(start, frames, n - 1) + [(PageVirt(start, n - 1), frames[n - 1])]
  }

  /** `map_region`. `end = start + size` wraps. The region is pushed
      before any page is mapped, so running out of frames part-way leaves
      the region recorded and the earlier pages mapped. */
  function MapRegion(s: AddressSpace, start: u64, size: u64, flags: bv32, name: string, frames: seq<u64>): (r: MapOutcome)
    ensures r.result == Fail(OVERLAP_MSG) <==> exists i :: 0 <= i < |s.regions| && Overlaps(start, WrappingAdd64(start, size), s.regions[i])
    ensures r.result == Fail(OVERLAP_MSG) ==> r.space == s && r.mapped == []
    ensures r.result != Fail(OVERLAP_MSG) ==>
      r.space == s.(regions := s.regions + [VmRegion(start, WrappingAdd64(start, size), flags, name)])
      && |r.mapped| == Min(NumPages(size), |frames|)
      && (forall i :: 0 <= i < |r.mapped| ==> r.mapped[i] == (PageVirt(start, i), frames[i]))
      && (r.result == Done <==> |frames| >= NumPages(size))
      && (r.result != Done ==> r.result == Fail(OUT_OF_MEMORY_MSG))
  {
    var end := WrappingAdd64(start, size);
    if exists i :: 0 <= i < |s.regions| && Overlaps(start, end, s.regions[i]) then
      MapOutcome(s, [], Fail(OVERLAP_MSG))
    else
      var s' := s.(regions := s.regions + [VmRegion(start, end, flags, name)]);
      var n := NumPages(size);
      if |frames| >= n then MapOutcome(s', PagePairs(start, frames, n), Done)
      else MapOutcome(s', PagePairs(start, frames, |frames|), Fail(OUT_OF_MEMORY_MSG))
  }

  /** `map_region` keeps the regions pairwise disjoint. */
  lemma MapRegionKeepsDisjoint(s: AddressSpace, start: u64, size: u64, flags: bv32, name: string, frames: seq<u64>)
    requires PairwiseDisjoint(s.regions)
    ensures PairwiseDisjoint(MapRegion(s, start, size, flags, name, frames).space.regions)
  {
    var r := MapRegion(s, start, size, flags, name, frames);
    if r.result != Fail(OVERLAP_MSG) {
      var rs := r.space.regions;
      var n := |s.regions|;
      assert rs[..n] == s.regions;
      forall i, j | 0 <= i < |rs| && 0 <= j < |rs| && i != j
        ensures !Overlaps(rs[i].start, rs[i].end, rs[j])
      {
        if i == n {
          assert !Overlaps(start, WrappingAdd64(start, size), s.regions[j]);
        } else if j == n {
          assert !Overlaps(start, WrappingAdd64(start, size), s.regions[i]);
        } else {
          assert rs[i] == s.regions[i] && rs[j] == s.regions[j];
        }
      }
    }
  }

  // ---------------------------------------------------------------------
  // unmap_region

  datatype UnmapOutcome = UnmapOutcome(space: AddressSpace, unmapped: seq<u64>, result: Outcome)

  const NOT_FOUND_MSG: string := "Region not found"
  /** `paging::unmap_page` fails on a page without a mapping (its message
      names the level whose entry is missing). */
  const NOT_MAPPED_MSG: string := "Page not mapped"

  /** Index of the first region starting at `start`, if any. */
  function FindStart(rs: seq<VmRegion>, start: u64): (r: Option<nat>)
    ensures r.Some? ==> r.value < |rs| && rs[r.value].start == start
    ensures r.Some? ==> forall k :: 0 <= k < r.value ==> rs[k].start != start
    ensures r.None? <==> forall k :: 0 <= k < |rs| ==> rs[k].start != start
  {
    if rs == [] then None
    else if rs[0].start == start then Some(0)
    else
      var t := FindStart(rs[1..], start);
      if t.None? then None else Some(t.value + 1)
  }

  /** The pages of a region in order, stopping before the first one that
      is not mapped. */
  function UnmapPages(start: u64, n: nat, i: nat, isMapped: u64 -> bool): (ps: seq<u64>)
    requires i <= n <= 0x10_0000_0000_0000
    ensures |ps| <= n - i
    ensures forall k :: 0 <= k < |ps| ==> ps[k] == PageVirt(start, i + k) && isMapped(ps[k])
    ensures |ps| < n - i ==> !isMapped(PageVirt(start, i + |ps|))
    decreases n - i
  {
    if i == n || !isMapped(PageVirt(start, i)) then []
    else [PageVirt(start, i)] + UnmapPages(start, n, i + 1, isMapped)
  }

  /** `unmap_region`: the first region starting at `start` is removed
      (before its pages are unmapped); its pages are then unmapped in
      order, and the first one without a mapping ends the call with an
      error. `end - start` wraps. */
  function UnmapRegion(s: AddressSpace, start: u64, isMapped: u64 -> bool): (r: UnmapOutcome)
    ensures r.result == Fail(NOT_FOUND_MSG) <==> forall k :: 0 <= k < |s.regions| ==> s.regions[k].start != start
    ensures r.result == Fail(NOT_FOUND_MSG) ==> r.space == s && r.unmapped == []
    ensures r.result != Fail(NOT_FOUND_MSG) ==>
      exists i :: 0 <= i < |s.regions| && s.regions[i].start == start
        && (forall k :: 0 <= k < i ==> s.regions[k].start != start)
        && r.space == s.(regions := s.regions[..i] + s.regions[i + 1..])
        && (var n := NumPages(WrappingSub64(s.regions[i].end, start));
            |r.unmapped| <= n
            && (forall k :: 0 <= k < |r.unmapped| ==> r.unmapped[k] == PageVirt(start, k) && isMapped(r.unmapped[k]))
            && (r.result == Done <==> |r.unmapped| == n))
  {
    var found := FindStart(s.regions, start);
    if found.None? then UnmapOutcome(s, [], Fail(NOT_FOUND_MSG))
    else
      var i := found.value;
      var region := s.regions[i];
      var s' := s.(regions := s.regions[..i] + s.regions[i + 1..]);
      var n := NumPages(WrappingSub64(region.end, region.start));
      var ps := UnmapPages(start, n, 0, isMapped);
      UnmapOutcome(s', ps, if |ps| == n then Done else Fail(NOT_MAPPED_MSG))
  }

  /** Removing a region keeps the rest pairwise disjoint. */
  lemma UnmapRegionKeepsDisjoint(s: AddressSpace, start: u64, isMapped: u64 -> bool)
    requires PairwiseDisjoint(s.regions)
    ensures PairwiseDisjoint(UnmapRegion(s, start, isMapped).space.regions)
  {
    var found := FindStart(s.regions, start);
    if found.Some? {
      var i := found.value;
      var rs := s.regions[..i] + s.regions[i + 1..];
      forall a, b | 0 <= a < |rs| && 0 <= b < |rs| && a != b
        ensures !Overlaps(rs[a].start, rs[a].end, rs[b])
      {
        var a' := if a < i then a else a + 1;
        var b' := if b < i then b else b + 1;
        assert rs[a] == s.regions[a'] && rs[b] == s.regions[b'];
      }
    }
  }

  // ---------------------------------------------------------------------
  // vm_to_arch_flags_x86

  function Has(flags: bv32, f: bv32): bool { flags & f == f }

  /** `vm_to_arch_flags_x86`. */
  function VmToArchFlagsX86(flags: bv32): (r: bv64)
  {
    var a := Paging.PRESENT;
    var a := if Has(flags, WRITE) then a | Paging.WRITABLE else a;
    var a := if Has(flags, USER) then a | Paging.USER else a;
    var a := if !Has(flags, EXECUTE) then a | Paging.NO_EXECUTE else a;
    if Has(flags, MMIO) then a | Paging.NO_CACHE else a
  }

  /** The entry flags are present always, writable exactly for WRITE,
      user-accessible exactly for USER, non-executable exactly without
      EXECUTE, uncached exactly for MMIO, and carry no other bit. */
  lemma VmToArchFlagsBits(flags: bv32)
    ensures VmToArchFlagsX86(flags) & Paging.PRESENT != 0
    ensures VmToArchFlagsX86(flags) & Paging.WRITABLE != 0 <==> Has(flags, WRITE)
    ensures VmToArchFlagsX86(flags) & Paging.USER != 0 <==> Has(flags, USER)
    ensures VmToArchFlagsX86(flags) & Paging.NO_EXECUTE != 0 <==> !Has(flags, EXECUTE)
    ensures VmToArchFlagsX86(flags) & Paging.NO_CACHE != 0 <==> Has(flags, MMIO)
    ensures VmToArchFlagsX86(flags) & !(Paging.PRESENT | Paging.WRITABLE | Paging.USER | Paging.NO_EXECUTE | Paging.NO_CACHE) == 0
  {
  }

  /** Hence the entry built from them reads back the region's
      permissions. */
  lemma VmToArchFlagsEntry(flags: bv32, phys: bv64)
    ensures Paging.IsPresent(Paging.NewPte(phys, VmToArchFlagsX86(flags)))
    ensures Paging.IsWritable(Paging.NewPte(phys, VmToArchFlagsX86(flags))) <==> Has(flags, WRITE)
    ensures Paging.IsUser(Paging.NewPte(phys, VmToArchFlagsX86(flags))) <==> Has(flags, USER)
    ensures !Paging.IsHuge(Paging.NewPte(phys, VmToArchFlagsX86(flags)))
  {
    VmToArchFlagsBits(flags);
    Paging.NewPteQueries(phys, VmToArchFlagsX86(flags));
  }
}
