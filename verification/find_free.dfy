/** `AddressSpace::find_free_region` (kernel/src/mm/virtual_mem.rs): a
    first-fit scan of the regions in order of start address, beginning at
    the bottom of user space (256 MiB) or of the kernel's range (1 MiB).

    The scan as written sets `current = region.end` after each region it
    passes. A region lying wholly below the starting point therefore
    pulls `current` back down, and the search can answer an address below
    the range it is meant to search; the final `current + size` also
    wraps. `ScanAsWritten` is that code; `ScanFixed` keeps `current` from
    decreasing and checks the final fit without wrap-around. */
module FreeRegion {
  import opened Common
  import opened VirtualMemory

  const USER_START: u64 := 0x1000_0000
  const USER_END: u64 := 0x0000_7FFF_FFFF_0000
  const KERNEL_START: u64 := 0x0010_0000
  const KERNEL_END: u64 := 0x0000_0000_4000_0000

  function StartAddr(flags: bv32): u64 { if Has(flags, USER) then USER_START else KERNEL_START }
  function EndAddr(flags: bv32): u64 { if Has(flags, USER) then USER_END else KERNEL_END }

  // ---------------------------------------------------------------------
  // Sorting by start address (`sort_by_key(|r| r.start)`, stable)

  predicate SortedByStart(rs: seq<VmRegion>)
  {
    forall i, j :: 0 <= i < j < |rs| ==> rs[i].start <= rs[j].start
  }

  /** `x` placed after every element whose start is not above its own. */
  function InsertByStart(x: VmRegion, rs: seq<VmRegion>): (r: seq<VmRegion>)
    requires SortedByStart(rs)
    ensures SortedByStart(r)
    ensures multiset(r) == multiset(rs) + multiset{x}
    ensures r[0] == x || (rs != [] && r[0] == rs[0])
    decreases |rs|
  {
    if rs == [] then [x]
    else if x.start < rs[0].start then
      ConsSorted(x, rs);
      [x] + rs
    else
      SortedTail(rs);
      var t := InsertByStart(x, rs[1..]);
      ConsSorted(rs[0], t);
      ConsMultiset(rs, t, x);
      [rs[0]] + t
  }

  lemma ConsMultiset(rs: seq<VmRegion>, t: seq<VmRegion>, x: VmRegion)
    requires rs != [] && multiset(t) == multiset(rs[1..]) + multiset{x}
    ensures multiset([rs[0]] + t) == multiset(rs) + multiset{x}
  {
    assert rs == [rs[0]] + rs[1..];
    assert multiset(rs) == multiset{rs[0]} + multiset(rs[1..]);
    assert multiset([rs[0]] + t) == multiset{rs[0]} + multiset(t);
  }

  lemma SortedTail(rs: seq<VmRegion>)
    requires SortedByStart(rs) && rs != []
    ensures SortedByStart(rs[1..])
    ensures forall k :: 0 <= k < |rs| ==> rs[0].start <= rs[k].start
  {
    forall i, j | 0 <= i < j < |rs| - 1 ensures rs[1..][i].start <= rs[1..][j].start {
      assert rs[1..][i] == rs[i + 1] && rs[1..][j] == rs[j + 1];
    }
  }

  lemma ConsSorted(h: VmRegion, t: seq<VmRegion>)
    requires SortedByStart(t)
    requires t != [] ==> h.start <= t[0].start
    ensures SortedByStart([h] + t)
  {
    var r := [h] + t;
    forall i, j | 0 <= i < j < |r| ensures r[i].start <= r[j].start {
      if i == 0 {
        assert r[j] == t[j - 1];
        assert t[0].start <= t[j - 1].start;
      } else {
        assert r[i] == t[i - 1] && r[j] == t[j - 1];
      }
    }
  }

  /** Insertion sort: each element goes after the ones before it that
      share its start, so the order among equal starts is kept. */
  function SortByStart(rs: seq<VmRegion>): (r: seq<VmRegion>)
    ensures SortedByStart(r)
    ensures multiset(r) == multiset(rs)
    decreases |rs|
  {
    if rs == [] then []
    else
      var init := rs[..|rs| - 1];
      assert rs == init + [rs[|rs| - 1]];
      InsertByStart(rs[|rs| - 1], SortByStart(init))
  }

  /** Sorting keeps exactly the same regions. */
  lemma SortSameMembers(rs: seq<VmRegion>)
    ensures forall x :: x in SortByStart(rs) <==> x in rs
  {
    var sorted := SortByStart(rs);
    forall x ensures x in sorted <==> x in rs {
      assert x in sorted <==> x in multiset(sorted);
      assert x in rs <==> x in multiset(rs);
    }
  }

  // ---------------------------------------------------------------------
  // The scan as written

  /** The loop over the sorted regions and the check after it, starting
      from `current`. */
  function ScanAsWritten(rs: seq<VmRegion>, current: u64, size: u64, endAddr: u64): (r: Option<u64>)
    ensures r.Some? ==> r.value == current || exists j :: 0 <= j < |rs| && r.value == rs[j].end
    decreases |rs|
  {
    if rs == [] then
      if WrappingAdd64(current, size) <= endAddr then Some(current) else None
    else if rs[0].start >= current && rs[0].start - current >= size then Some(current)
    else
      var t := ScanAsWritten(rs[1..], rs[0].end, size, endAddr);
      assert t.Some? && t.value != rs[0].end ==> exists j :: 0 <= j < |rs[1..]| && t.value == rs[1..][j].end;
      t
  }

  function FindFreeRegionAsWritten(regions: seq<VmRegion>, size: u64, flags: bv32): Option<u64>
  {
    ScanAsWritten(SortByStart(regions), StartAddr(flags), size, EndAddr(flags))
  }

  /** A region below the bottom of user space drags the search under it:
      with one region at [0x1000, 0x2000) a user request for a page is
      answered with 0x2000. */
  lemma FindFreeRegionBelowStart()
    ensures var r := FindFreeRegionAsWritten([VmRegion(0x1000, 0x2000, USER, "low")], 0x1000, USER);
      r == Some(0x2000) && r.value < StartAddr(USER)
  {
    var rs := [VmRegion(0x1000, 0x2000, USER, "low")];
    assert SortByStart(rs) == rs;
    assert Has(USER, USER);
    assert ScanAsWritten([], 0x2000, 0x1000, USER_END) == Some(0x2000);
    assert rs[1..] == [];
  }

  /** The final check `current + size <= end_addr` wraps: with no region
      and a request of 2^64 - 2^28 bytes the sum wraps to 0 and the search
      answers the bottom of user space, for a range that does not fit. */
  lemma FindFreeRegionWraps()
    ensures var r := FindFreeRegionAsWritten([], U64_MODULUS - USER_START, USER);
      r == Some(USER_START) && USER_START + (U64_MODULUS - USER_START) > USER_END
  {
  }

  /** No region below `j` comes after `j` in start order when the regions
      are disjoint and non-empty: its end is at most `rs[j]`'s start. */
  predicate WellFormed(rs: seq<VmRegion>)
  {
    DistinctDisjoint(rs) && forall k :: 0 <= k < |rs| ==> rs[k].start < rs[k].end
  }

  /** Over sorted, disjoint, non-empty regions the answer of the scan as
      written starts a range that meets none of them (this part of the
      design holds). */
  lemma {:induction false} ScanAsWrittenDisjoint(rs: seq<VmRegion>, current: u64, size: u64, endAddr: u64)
    requires SortedByStart(rs) && WellFormed(rs)
    ensures var r := ScanAsWritten(rs, current, size, endAddr);
      r.Some? ==> forall k :: 0 <= k < |rs| ==> !Overlaps(r.value, WrappingAdd64(r.value, size), rs[k])
    decreases |rs|
  {
    var r := ScanAsWritten(rs, current, size, endAddr);
    if rs != [] && r.Some? {
      var a := r.value;
      if rs[0].start >= current && rs[0].start - current >= size {
        forall k | 0 <= k < |rs| ensures !Overlaps(a, WrappingAdd64(a, size), rs[k]) {
          assert rs[0].start <= rs[k].start;
        }
      } else {
        var tail := rs[1..];
        assert SortedByStart(tail);
        assert WellFormed(tail) by {
          assert forall y :: y in tail ==> y in rs;
          forall k | 0 <= k < |tail| ensures tail[k].start < tail[k].end {
            assert tail[k] == rs[k + 1];
          }
        }
        ScanAsWrittenDisjoint(tail, rs[0].end, size, endAddr);
        assert a >= rs[0].end by {
          if a != rs[0].end {
            var j :| 0 <= j < |tail| && a == tail[j].end;
            assert tail[j] == rs[j + 1];
            if tail[j] != rs[0] {
              assert tail[j] in rs && rs[0] in rs;
              assert !Overlaps(rs[0].start, rs[0].end, tail[j]);
            }
          }
        }
        forall k | 0 <= k < |rs| ensures !Overlaps(a, WrappingAdd64(a, size), rs[k]) {
          if k > 0 {
            assert rs[k] == tail[k - 1];
          }
        }
      }
    }
  }

  /** Given pairwise disjoint, non-empty regions (as `map_region` keeps
      them, when no range was empty), an address the search as written
      returns starts a range that meets no region. */
  lemma FindFreeRegionAsWrittenDisjoint(regions: seq<VmRegion>, size: u64, flags: bv32)
    requires PairwiseDisjoint(regions)
    requires forall k :: 0 <= k < |regions| ==> regions[k].start < regions[k].end
    ensures var r := FindFreeRegionAsWritten(regions, size, flags);
      r.Some? ==> forall k :: 0 <= k < |regions| ==> !Overlaps(r.value, WrappingAdd64(r.value, size), regions[k])
  {
    var sorted := SortByStart(regions);
    PairwiseDistinct(regions);
    SortSameMembers(regions);
    assert WellFormed(sorted) by {
      forall k | 0 <= k < |sorted| ensures sorted[k].start < sorted[k].end {
        assert sorted[k] in regions;
      }
    }
    ScanAsWrittenDisjoint(sorted, StartAddr(flags), size, EndAddr(flags));
    var r := FindFreeRegionAsWritten(regions, size, flags);
    if r.Some? {
      forall k | 0 <= k < |regions| ensures !Overlaps(r.value, WrappingAdd64(r.value, size), regions[k]) {
        assert regions[k] in sorted;
      }
    }
  }

  // ---------------------------------------------------------------------
  // The scan corrected

  /** As the loop above, but `current` only moves up, and the final fit is
      checked as `size <= end_addr - current`. */
  function ScanFixed(rs: seq<VmRegion>, current: u64, size: u64, endAddr: u64): (r: Option<u64>)
    decreases |rs|
  {
    if rs == [] then
      if current <= endAddr && size <= endAddr - current then Some(current) else None
    else if rs[0].start >= current && rs[0].start - current >= size then Some(current)
    else ScanFixed(rs[1..], Max(current, rs[0].end), size, endAddr)
  }

  function FindFreeRegionFixed(regions: seq<VmRegion>, size: u64, flags: bv32): Option<u64>
  {
    ScanFixed(SortByStart(regions), StartAddr(flags), size, EndAddr(flags))
  }

  /** Over sorted regions the corrected scan answers an address at or above
      where it started, whose range does not wrap, meets none of the
      regions, and either ends by the end of the search range or ends
      before some region starts. */
  lemma {:induction false} ScanFixedSound(rs: seq<VmRegion>, current: u64, size: u64, endAddr: u64)
    requires SortedByStart(rs)
    ensures var r := ScanFixed(rs, current, size, endAddr);
      r.Some? ==> (current <= r.value && r.value + size < U64_MODULUS
        && (forall k :: 0 <= k < |rs| ==> !Overlaps(r.value, r.value + size, rs[k]))
        && (r.value + size <= endAddr || exists k :: 0 <= k < |rs| && r.value + size <= rs[k].start))
    decreases |rs|
  {
    var r := ScanFixed(rs, current, size, endAddr);
    if rs != [] && r.Some? {
      var a := r.value;
      if rs[0].start >= current && rs[0].start - current >= size {
        forall k | 0 <= k < |rs| ensures !Overlaps(a, a + size, rs[k]) {
          assert rs[0].start <= rs[k].start;
        }
      } else {
        var tail := rs[1..];
        assert SortedByStart(tail);
        ScanFixedSound(tail, Max(current, rs[0].end), size, endAddr);
        forall k | 0 <= k < |rs| ensures !Overlaps(a, a + size, rs[k]) {
          if k > 0 {
            assert rs[k] == tail[k - 1];
          }
        }
        if a + size > endAddr {
          var k :| 0 <= k < |tail| && a + size <= tail[k].start;
          assert tail[k] == rs[k + 1];
        }
      }
    }
  }

  /** An address the corrected search returns is at or above the bottom of
      the searched range, starts a range that does not wrap and meets no
      region (whatever the regions), and ends by the top of the searched
      range unless a region above it bounds it. */
  lemma FindFreeRegionFixedSound(regions: seq<VmRegion>, size: u64, flags: bv32)
    ensures var r := FindFreeRegionFixed(regions, size, flags);
      r.Some? ==> (StartAddr(flags) <= r.value && r.value + size < U64_MODULUS
        && (forall k :: 0 <= k < |regions| ==> !Overlaps(r.value, r.value + size, regions[k]))
        && (r.value + size <= EndAddr(flags) || exists k :: 0 <= k < |regions| && r.value + size <= regions[k].start))
  {
    var sorted := SortByStart(regions);
    var r := ScanFixed(sorted, StartAddr(flags), size, EndAddr(flags));
    assert FindFreeRegionFixed(regions, size, flags) == r;
    ScanFixedSound(sorted, StartAddr(flags), size, EndAddr(flags));
    if r.Some? {
      var a := r.value;
      SortSameMembers(regions);
      TransferClear(sorted, regions, a, a + size);
      if a + size > EndAddr(flags) {
        TransferBound(sorted, regions, a + size);
      }
    }
  }

  /** A range meeting none of the regions of one sequence meets none of a
      sequence with the same members. */
  lemma TransferClear(from: seq<VmRegion>, to: seq<VmRegion>, lo: int, hi: int)
    requires forall x :: x in to ==> x in from
    requires forall k :: 0 <= k < |from| ==> !Overlaps(lo, hi, from[k])
    ensures forall k :: 0 <= k < |to| ==> !Overlaps(lo, hi, to[k])
  {
    forall k | 0 <= k < |to| ensures !Overlaps(lo, hi, to[k]) {
      assert to[k] in from;
    }
  }

  lemma TransferBound(from: seq<VmRegion>, to: seq<VmRegion>, hi: int)
    requires forall x :: x in from ==> x in to
    requires exists k :: 0 <= k < |from| && hi <= from[k].start
    ensures exists k :: 0 <= k < |to| && hi <= to[k].start
  {
    var k :| 0 <= k < |from| && hi <= from[k].start;
    assert from[k] in to;
  }

  /** On the request that exposed the first defect the corrected search
      skips the low region and answers the bottom of user space. */
  lemma FindFreeRegionFixedOnLowRegion()
    ensures FindFreeRegionFixed([VmRegion(0x1000, 0x2000, USER, "low")], 0x1000, USER) == Some(USER_START)
  {
    var rs := [VmRegion(0x1000, 0x2000, USER, "low")];
    assert SortByStart(rs) == rs;
    assert Has(USER, USER);
    assert ScanFixed([], USER_START, 0x1000, USER_END) == Some(USER_START);
    assert rs[1..] == [];
  }

  /** `kernel_alloc`: a free range is found by the search as written and
      mapped under the name "kernel_alloc"; the answer is the address
      found, or nothing when either step fails. */
  function KernelAlloc(s: AddressSpace, size: u64, flags: bv32, frames: seq<u64>): (r: (AddressSpace, Option<u64>))
    ensures FindFreeRegionAsWritten(s.regions, size, flags).None? ==> r == (s, None)
    ensures r.1.Some? ==> r.1 == FindFreeRegionAsWritten(s.regions, size, flags) && |frames| >= NumPages(size)
    ensures r.1.Some? ==>
      r.0.regions == s.regions + [VmRegion(r.1.value, WrappingAdd64(r.1.value, size), flags, "kernel_alloc")]
  {
    var found := FindFreeRegionAsWritten(s.regions, size, flags);
    if found.None? then (s, None)
    else
      var m := MapRegion(s, found.value, size, flags, "kernel_alloc", frames);
      (m.space, if m.result == Done then found else None)
  }

  /** Over pairwise disjoint, non-empty regions the range found meets no
      region, so the mapping never fails on overlap: once a range is found
      the region is recorded, and the allocation succeeds exactly when
      there are frames for every page. */
  lemma KernelAllocRecords(s: AddressSpace, size: u64, flags: bv32, frames: seq<u64>)
    requires PairwiseDisjoint(s.regions)
    requires forall k :: 0 <= k < |s.regions| ==> s.regions[k].start < s.regions[k].end
    ensures var found := FindFreeRegionAsWritten(s.regions, size, flags);
      var r := KernelAlloc(s, size, flags, frames);
      found.Some? ==>
        && r.0.regions == s.regions + [VmRegion(found.value, WrappingAdd64(found.value, size), flags, "kernel_alloc")]
        && (r.1.Some? <==> |frames| >= NumPages(size))
  {
    FindFreeRegionAsWrittenDisjoint(s.regions, size, flags);
  }

  /** The first defect reaches the kernel heap: with a kernel region at
      [0x1000, 0x2000) a one-page allocation is placed at 0x2000, below the
      kernel range's start of 1 MiB. */
  lemma KernelAllocBelowStart(frames: seq<u64>)
    requires |frames| >= 1
    ensures var s := AddressSpace(0, [VmRegion(0x1000, 0x2000, READ | WRITE, "low")], 0);
      var r := KernelAlloc(s, 0x1000, READ | WRITE, frames);
      r.1 == Some(0x2000) && r.1.value < KERNEL_START
  {
    var rs := [VmRegion(0x1000, 0x2000, READ | WRITE, "low")];
    assert SortByStart(rs) == rs;
    assert !Has(READ | WRITE, USER);
    assert ScanAsWritten([], 0x2000, 0x1000, KERNEL_END) == Some(0x2000);
    assert rs[1..] == [];
    assert FindFreeRegionAsWritten(rs, 0x1000, READ | WRITE) == Some(0x2000);
    assert !Overlaps(0x2000, WrappingAdd64(0x2000, 0x1000), rs[0]);
    assert NumPages(0x1000) == 1;
  }
}
