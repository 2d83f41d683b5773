/** The storage layer's device registry and partition tables
    (kernel/src/drivers/storage/mod.rs). A block device is reduced to its
    one-sector read, which either fails with a message or gives the
    sector's 512 bytes. */
module Storage {
  import opened Common

  const SECTOR_SIZE: nat := 512

  type Sector = s: seq<byte> | |s| == SECTOR_SIZE witness seq(512, _ => 0)

  /** `BlockDevice::read(lba, 1, buf)`. */
  type Reader = nat -> Result<Sector>

  // ---------------------------------------------------------------------
  // The device registry

  /** `register_device`: devices are kept in registration order. */
  function Register<D>(devices: seq<D>, d: D): (r: seq<D>)
    ensures |r| == |devices| + 1
  {
    devices + [d]
  }

  /** `get_device`. */
  function GetDevice<D>(devices: seq<D>, i: nat): (r: Option<D>)
    ensures r.Some? <==> i < |devices|
    ensures r.Some? ==> r.value == devices[i]
  {
    if i < |devices| then Some(devices[i]) else None
  }

  /** `init`'s loop over the four ATA slots: the detected drives, in slot
      order. */
  function RegisterDetected<D>(devices: seq<D>, slots: seq<Option<D>>): (r: seq<D>)
    ensures |devices| <= |r| <= |devices| + |slots|
    ensures r[..|devices|] == devices
    decreases |slots|
  {
    if slots == [] then devices
    else RegisterDetected(if slots[0].Some? then Register(devices, slots[0].value) else devices, slots[1..])
  }

  /** A registered device is found at the index it was given, and the
      devices before it keep theirs. */
  lemma RegisterThenGet<D>(devices: seq<D>, d: D, i: nat)
    ensures GetDevice(Register(devices, d), |devices|) == Some(d)
    ensures i < |devices| ==> GetDevice(Register(devices, d), i) == GetDevice(devices, i)
    ensures GetDevice(Register(devices, d), |devices| + 1 + i) == None
  {
  }

  // ---------------------------------------------------------------------
  // Little-endian fields

  lemma PowersOf256()
    ensures Pow256(2) == 0x1_0000 && Pow256(4) == 0x1_0000_0000
    ensures Pow256(8) == 0x1_0000_0000_0000_0000
  {
  }

  function U16At(b: seq<byte>, k: nat): u16
    requires k + 2 <= |b|
  {
    PowersOf256();
    FromLittleEndian(b[k..k + 2])
  }

  function U32At(b: seq<byte>, k: nat): u32
    requires k + 4 <= |b|
  {
    PowersOf256();
    FromLittleEndian(b[k..k + 4])
  }

  function U64At(b: seq<byte>, k: nat): u64
    requires k + 8 <= |b|
  {
    PowersOf256();
    FromLittleEndian(b[k..k + 8])
  }

  // ---------------------------------------------------------------------
  // MBR

  /** `MbrPartition`, a packed 16-byte record. */
  datatype MbrPartition = MbrPartition(
    status: byte, firstChs: seq<byte>, partType: byte, lastChs: seq<byte>,
    firstLba: u32, sectorCount: u32)

  const MBR_TABLE: nat := 446
  const MBR_ENTRY_SIZE: nat := 16

  predicate IsActive(p: MbrPartition) { p.status == 0x80 }

  predicate IsValid(p: MbrPartition) { p.partType != 0 && p.sectorCount > 0 }

  predicate WellFormed(p: MbrPartition) { |p.firstChs| == 3 && |p.lastChs| == 3 }

  function ParseMbrEntry(b: seq<byte>): (p: MbrPartition)
    requires |b| == MBR_ENTRY_SIZE
    ensures WellFormed(p)
  {
    MbrPartition(b[0], b[1..4], b[4], b[5..8], U32At(b, 8), U32At(b, 12))
  }

  /** The record's bytes on disk. */
  function EncodeMbrEntry(p: MbrPartition): (b: seq<byte>)
    requires WellFormed(p)
    ensures |b| == MBR_ENTRY_SIZE
  {
    [p.status] + p.firstChs + [p.partType] + p.lastChs
      + LittleEndian(p.firstLba, 4) + LittleEndian(p.sectorCount, 4)
  }

  lemma MbrEntryRoundTrip(p: MbrPartition)
    requires WellFormed(p)
    ensures ParseMbrEntry(EncodeMbrEntry(p)) == p
  {
    var b := EncodeMbrEntry(p);
    PowersOf256();
    LittleEndianRoundTrip(p.firstLba, 4);
    LittleEndianRoundTrip(p.sectorCount, 4);
    assert b[1..4] == p.firstChs && b[5..8] == p.lastChs;
    assert b[8..12] == LittleEndian(p.firstLba, 4);
    assert b[12..16] == LittleEndian(p.sectorCount, 4);
  }

  /** `read_mbr`: sector 0 must end in 0x55 0xAA; the four entries follow
      one another from byte 446. */
  function ReadMbr(read: Reader): (r: Result<seq<MbrPartition>>)
    ensures r.Ok? <==> read(0).Ok? && read(0).value[510] == 0x55 && read(0).value[511] == 0xAA
    ensures r.Ok? ==> |r.value| == 4 && forall i :: 0 <= i < 4 ==>
      r.value[i] == ParseMbrEntry(read(0).value[MBR_TABLE + MBR_ENTRY_SIZE * i..MBR_TABLE + MBR_ENTRY_SIZE * (i + 1)])
    ensures read(0).Err? ==> r == Err(read(0).msg)
  {
    match read(0)
    case Err(m) => Err(m)
    case Ok(buf) =>
      if buf[510] != 0x55 || buf[511] != 0xAA then Err("Invalid MBR signature")
      else Ok(seq(4, i requires 0 <= i < 4 =>
        ParseMbrEntry(buf[MBR_TABLE + MBR_ENTRY_SIZE * i..MBR_TABLE + MBR_ENTRY_SIZE * (i + 1)])))
  }

  /** A boot sector laid out with four entries and the signature. */
  function MbrImage(boot: seq<byte>, ps: seq<MbrPartition>): (s: seq<byte>)
    requires |boot| == MBR_TABLE && |ps| == 4 && forall i :: 0 <= i < 4 ==> WellFormed(ps[i])
    ensures |s| == SECTOR_SIZE
  {
    boot + EncodeMbrEntry(ps[0]) + EncodeMbrEntry(ps[1]) + EncodeMbrEntry(ps[2])
      + EncodeMbrEntry(ps[3]) + [0x55, 0xAA]
  }

  lemma MiddleSlice(a: seq<byte>, b: seq<byte>, c: seq<byte>)
    ensures (a + b + c)[|a|..|a| + |b|] == b
  {
  }

  /** Entry `i` of an image sits at byte 446 + 16i. */
  lemma ImageEntry(boot: seq<byte>, ps: seq<MbrPartition>, i: nat)
    requires |boot| == MBR_TABLE && |ps| == 4 && forall i :: 0 <= i < 4 ==> WellFormed(ps[i])
    requires i < 4
    ensures MbrImage(boot, ps)[MBR_TABLE + MBR_ENTRY_SIZE * i..MBR_TABLE + MBR_ENTRY_SIZE * (i + 1)]
      == EncodeMbrEntry(ps[i])
  {
    var e0, e1, e2, e3 := EncodeMbrEntry(ps[0]), EncodeMbrEntry(ps[1]), EncodeMbrEntry(ps[2]), EncodeMbrEntry(ps[3]);
    var sig: seq<byte> := [0x55, 0xAA];
    var s := MbrImage(boot, ps);
    if i == 0 {
      assert s == boot + e0 + (e1 + e2 + e3 + sig);
      MiddleSlice(boot, e0, e1 + e2 + e3 + sig);
    } else if i == 1 {
      assert s == (boot + e0) + e1 + (e2 + e3 + sig);
      MiddleSlice(boot + e0, e1, e2 + e3 + sig);
    } else if i == 2 {
      assert s == (boot + e0 + e1) + e2 + (e3 + sig);
      MiddleSlice(boot + e0 + e1, e2, e3 + sig);
    } else {
      assert s == (boot + e0 + e1 + e2) + e3 + sig;
      MiddleSlice(boot + e0 + e1 + e2, e3, sig);
    }
  }

  /** Reading a disk whose sector 0 is such an image gives the entries
      back. */
  lemma ImageSignature(boot: seq<byte>, ps: seq<MbrPartition>)
    requires |boot| == MBR_TABLE && |ps| == 4 && forall i :: 0 <= i < 4 ==> WellFormed(ps[i])
    ensures MbrImage(boot, ps)[510] == 0x55 && MbrImage(boot, ps)[511] == 0xAA
  {
    var e0, e1, e2, e3 := EncodeMbrEntry(ps[0]), EncodeMbrEntry(ps[1]), EncodeMbrEntry(ps[2]), EncodeMbrEntry(ps[3]);
    var sig: seq<byte> := [0x55, 0xAA];
    var front := boot + e0 + e1 + e2 + e3;
    assert |front| == 510;
    assert MbrImage(boot, ps) == front + sig;
  }

  lemma MbrRoundTrip(boot: seq<byte>, ps: seq<MbrPartition>, read: Reader)
    requires |boot| == MBR_TABLE && |ps| == 4 && forall i :: 0 <= i < 4 ==> WellFormed(ps[i])
    requires read(0) == Ok(MbrImage(boot, ps))
    ensures ReadMbr(read) == Ok(ps)
  {
    ImageSignature(boot, ps);
    var r := ReadMbr(read);
    forall i | 0 <= i < 4
      ensures r.value[i] == ps[i]
    {
      ImageEntry(boot, ps, i);
      MbrEntryRoundTrip(ps[i]);
    }
    assert r.value == ps;
  }

  /** A missing signature is refused, whatever the entries hold. */
  lemma MbrNeedsSignature(read: Reader)
    requires read(0).Ok? && read(0).value[511] != 0xAA
    ensures ReadMbr(read) == Err("Invalid MBR signature")
  {
  }

  // ---------------------------------------------------------------------
  // GPT

  /** `GptHeader`, the first 92 bytes of LBA 1. */
  datatype GptHeader = GptHeader(
    signature: seq<byte>, revision: u32, headerSize: u32, headerCrc32: u32, reserved: u32,
    currentLba: u64, backupLba: u64, firstUsableLba: u64, lastUsableLba: u64,
    diskGuid: seq<byte>, partitionEntryLba: u64,
    numPartitionEntries: u32, partitionEntrySize: u32, partitionEntryCrc32: u32)

  /** "EFI PART" in ASCII. */
  const EFI_PART: seq<byte> := [0x45, 0x46, 0x49, 0x20, 0x50, 0x41, 0x52, 0x54]

  function ParseGptHeader(b: seq<byte>): (h: GptHeader)
    requires |b| >= 92
    ensures |h.signature| == 8 && |h.diskGuid| == 16
  {
    GptHeader(b[0..8], U32At(b, 8), U32At(b, 12), U32At(b, 16), U32At(b, 20),
      U64At(b, 24), U64At(b, 32), U64At(b, 40), U64At(b, 48),
      b[56..72], U64At(b, 72), U32At(b, 80), U32At(b, 84), U32At(b, 88))
  }

  predicate HeaderValid(h: GptHeader) { h.signature == EFI_PART }

  /** `GptPartition`, 128 bytes: two GUIDs, the LBA range, the attributes
      and a 36-unit UTF-16 name. */
  datatype GptPartition = GptPartition(
    typeGuid: seq<byte>, uniqueGuid: seq<byte>,
    firstLba: u64, lastLba: u64, attributes: u64, name: seq<u16>)

  const GPT_ENTRY_SIZE: nat := 128

  function ParseGptEntry(b: seq<byte>): (e: GptPartition)
    requires |b| == GPT_ENTRY_SIZE
    ensures |e.typeGuid| == 16 && |e.name| == 36
  {
    GptPartition(b[0..16], b[16..32], U64At(b, 32), U64At(b, 40), U64At(b, 48),
      seq(36, j requires 0 <= j < 36 => U16At(b, 56 + 2 * j)))
  }

  const ZERO_GUID: seq<byte> := [0, 0, 0, 0, 0, 0, 0, 0, 0, 0, 0, 0, 0, 0, 0, 0]

  /** An entry is in use when its type GUID is not all zero. */
  predicate EntryValid(e: GptPartition) { e.typeGuid != ZERO_GUID }

  /** The entries in use, in order. */
  function ValidOnly(es: seq<GptPartition>): (r: seq<GptPartition>)
    ensures |r| <= |es|
    ensures forall k :: 0 <= k < |r| ==> EntryValid(r[k])
  {
    if es == [] then []
    else
      var last := es[|es| - 1];
      ValidOnly(es[..|es| - 1]) + (if EntryValid(last) then [last] else [])
  }

  lemma ValidOnlySnoc(es: seq<GptPartition>, e: GptPartition)
    ensures ValidOnly(es + [e]) == ValidOnly(es) + (if EntryValid(e) then [e] else [])
  {
    assert (es + [e])[..|es|] == es;
  }

  lemma ValidOnlyStep(es: seq<GptPartition>, k: nat)
    requires k < |es|
    ensures ValidOnly(es[..k + 1]) == ValidOnly(es[..k]) + (if EntryValid(es[k]) then [es[k]] else [])
  {
    assert es[..k + 1] == es[..k] + [es[k]];
    ValidOnlySnoc(es[..k], es[k]);
  }

  /** `(n + per - 1) / per`: enough sectors for `n` entries, and no more. */
  function SectorsNeeded(n: nat, per: nat): (count: nat)
    requires per >= 1
    ensures count * per >= n
    ensures count == 0 || (count - 1) * per < n
  {
    var c := (n + per - 1) / per;
    assert c * per + (n + per - 1) % per == n + per - 1;
    c
  }

  /** Entry slot `i` of a sector, `size` bytes apart, lies inside the
      sector when there are `512 / size` slots of at least 128 bytes. */
  lemma SlotInside(i: nat, per: nat, size: nat)
    requires size >= GPT_ENTRY_SIZE && i < per && per * size <= SECTOR_SIZE
    ensures i * size + GPT_ENTRY_SIZE <= SECTOR_SIZE
  {
    assert i * size <= (per - 1) * size;
  }

  function Slot(sector: Sector, i: nat, per: nat, size: nat): GptPartition
    requires size >= GPT_ENTRY_SIZE && i < per && per * size <= SECTOR_SIZE
  {
    SlotInside(i, per, size);
    ParseGptEntry(sector[i * size..i * size + GPT_ENTRY_SIZE])
  }

  /** The slots of one sector. */
  function SectorSlots(sector: Sector, per: nat, size: nat): (es: seq<GptPartition>)
    requires size >= GPT_ENTRY_SIZE && per * size <= SECTOR_SIZE
    ensures |es| == per
  {
    seq(per, i requires 0 <= i < per => Slot(sector, i, per, size))
  }

  /** Every slot of the read sectors, sector by sector. */
  function EntryList(sectors: seq<Sector>, per: nat, size: nat): (es: seq<GptPartition>)
    requires size >= GPT_ENTRY_SIZE && per * size <= SECTOR_SIZE
    ensures |es| == |sectors| * per
  {
    if sectors == [] then []
    else SectorSlots(sectors[0], per, size) + EntryList(sectors[1..], per, size)
  }

  /** Slot `i` of sector `s` is entry `s * per + i`. */
  lemma {:induction false} EntryIndex(sectors: seq<Sector>, per: nat, size: nat, s: nat, i: nat)
    requires size >= GPT_ENTRY_SIZE && per * size <= SECTOR_SIZE
    requires s < |sectors| && i < per
    ensures s * per + i < |sectors| * per
    ensures EntryList(sectors, per, size)[s * per + i] == Slot(sectors[s], i, per, size)
  {
    var all := EntryList(sectors, per, size);
    var first := SectorSlots(sectors[0], per, size);
    var rest := EntryList(sectors[1..], per, size);
    assert all == first + rest;
    if s == 0 {
      assert all[i] == first[i];
    } else {
      var m := (s - 1) * per + i;
      EntryIndex(sectors[1..], per, size, s - 1, i);
      MulStep(s, per);
      assert s * per + i == per + m;
      assert m < |rest| && |first| == per;
      assert (first + rest)[per + m] == rest[m];
      assert sectors[1..][s - 1] == sectors[s];
    }
  }

  lemma MulStep(s: nat, per: nat)
    requires s >= 1
    ensures s * per == per + (s - 1) * per
  {
  }

  lemma {:induction false} ValidOnlyAppend(a: seq<GptPartition>, b: seq<GptPartition>)
    ensures ValidOnly(a + b) == ValidOnly(a) + ValidOnly(b)
    decreases |b|
  {
    if b == [] {
      assert a + b == a;
    } else {
      var init, last := b[..|b| - 1], b[|b| - 1];
      assert b == init + [last];
      assert a + b == (a + init) + [last];
      ValidOnlyAppend(a, init);
      ValidOnlySnoc(a + init, last);
      ValidOnlySnoc(init, last);
    }
  }

  /** The first `m` elements of `s`, or all of it when it is shorter. */
  function Take<T>(s: seq<T>, m: nat): (r: seq<T>)
    ensures |r| == Min(m, |s|) && r == s[..|r|]
  {
    if m <= |s| then s[..m] else s
  }

  /** The loops of `read_gpt` over the read sectors: every slot of every
      sector read is visited in order, and the loop over a sector stops
      once `n` entries in use have been kept. The result is the first `n`
      entries in use among all the slots read, which may lie past the
      declared table. */
  method CollectEntries(sectors: seq<Sector>, per: nat, size: nat, n: nat) returns (parts: seq<GptPartition>)
    requires size >= GPT_ENTRY_SIZE && per >= 1 && per * size <= SECTOR_SIZE
    ensures parts == Take(ValidOnly(EntryList(sectors, per, size)), n)
    ensures parts == CollectAsWritten(EntryList(sectors, per, size), n, [])
  {
    var all := EntryList(sectors, per, size);
    parts := [];
    var k := 0;
    while k < |all| && |parts| < n
      invariant 0 <= k <= |all|
      invariant parts == ValidOnly(all[..k]) && |parts| <= n
    {
      ValidOnlyStep(all, k);
      if EntryValid(all[k]) {
        parts := parts + [all[k]];
      }
      k := k + 1;
    }
    PrefixTakes(all, k, n);
    CollectAsWrittenTakes(all, n, []);
  }

  /** Once a prefix holds `n` entries in use, or is the whole list, its
      entries in use are the first `n` of the whole list's. */
  lemma PrefixTakes(all: seq<GptPartition>, k: nat, n: nat)
    requires k <= |all| && |ValidOnly(all[..k])| <= n
    requires k == |all| || |ValidOnly(all[..k])| == n
    ensures ValidOnly(all[..k]) == Take(ValidOnly(all), n)
  {
    assert all == all[..k] + all[k..];
    ValidOnlyAppend(all[..k], all[k..]);
    if k == |all| {
      assert all[k..] == [];
    }
  }

  /** The inner loop as written, over the slots `es` still to visit with
      `kept` the entries kept so far: it stops once `n` entries in use have
      been kept, not after `n` slots. */
  function CollectAsWritten(es: seq<GptPartition>, n: nat, kept: seq<GptPartition>): (r: seq<GptPartition>)
    ensures |kept| <= n ==> |r| <= n
    ensures (forall k :: 0 <= k < |kept| ==> EntryValid(kept[k])) ==> forall k :: 0 <= k < |r| ==> EntryValid(r[k])
    decreases |es|
  {
    if es == [] || |kept| >= n then kept
    else CollectAsWritten(es[1..], n, if EntryValid(es[0]) then kept + [es[0]] else kept)
  }

  lemma {:induction false} ValidOnlyCons(e: GptPartition, es: seq<GptPartition>)
    ensures ValidOnly([e] + es) == (if EntryValid(e) then [e] else []) + ValidOnly(es)
  {
    ValidOnlyAppend([e], es);
    assert ValidOnly([e]) == ValidOnly([]) + (if EntryValid(e) then [e] else []) by {
      ValidOnlySnoc([], e);
      assert [] + [e] == [e];
    }
  }

  /** The loop as written keeps the first entries in use among all the
      slots it visits, up to `n` in all. */
  lemma {:induction false} CollectAsWrittenTakes(es: seq<GptPartition>, n: nat, kept: seq<GptPartition>)
    requires |kept| <= n
    ensures CollectAsWritten(es, n, kept) == kept + Take(ValidOnly(es), n - |kept|)
    decreases |es|
  {
    if es == [] {
      assert ValidOnly(es) == [];
    } else if |kept| >= n {
      assert Take(ValidOnly(es), 0) == [];
    } else {
      var e, rest := es[0], es[1..];
      var kept' := if EntryValid(e) then kept + [e] else kept;
      assert CollectAsWritten(es, n, kept) == CollectAsWritten(rest, n, kept');
      CollectAsWrittenTakes(rest, n, kept');
      var m := n - |kept|;
      var v := ValidOnly(rest);
      assert es == [e] + rest;
      ValidOnlyCons(e, rest);
      if EntryValid(e) {
        assert ValidOnly(es) == [e] + v;
        TakeCons(e, v, m);
        var t := Take(v, m - 1);
        calc {
          CollectAsWritten(es, n, kept);
          CollectAsWritten(rest, n, kept');
          kept' + Take(v, n - |kept'|);
          { assert n - |kept'| == m - 1; }
          (kept + [e]) + t;
          { SeqAssoc(kept, [e], t); }
          kept + ([e] + t);
          kept + Take(ValidOnly(es), m);
        }
      } else {
        assert ValidOnly(es) == v;
      }
    }
  }

  lemma SeqAssoc<T>(a: seq<T>, b: seq<T>, c: seq<T>)
    ensures (a + b) + c == a + (b + c)
  {
  }

  lemma TakeCons<T>(x: T, s: seq<T>, m: nat)
    requires m >= 1
    ensures Take([x] + s, m) == [x] + Take(s, m - 1)
  {
    if m - 1 <= |s| {
      assert ([x] + s)[..m] == [x] + s[..m - 1];
    }
  }

  /** The loop corrected: only the `n` slots of the declared table are
      visited, and the ones in use among them are kept. */
  function CollectFixed(es: seq<GptPartition>, n: nat): (r: seq<GptPartition>)
    requires n <= |es|
    ensures |r| <= n && forall k :: 0 <= k < |r| ==> EntryValid(r[k])
  {
    ValidOnly(es[..n])
  }

  /** The corrected loop reads only the declared table: slots past it do
      not change the result; and when every declared slot is in use it
      keeps them all, as the loop as written does. */
  lemma CollectFixedStaysInTable(es: seq<GptPartition>, other: seq<GptPartition>, n: nat)
    requires n <= |es| && n <= |other| && es[..n] == other[..n]
    ensures CollectFixed(es, n) == CollectFixed(other, n)
    ensures (forall k :: 0 <= k < n ==> EntryValid(es[k])) ==>
      CollectFixed(es, n) == es[..n] == CollectAsWritten(es, n, [])
  {
    if forall k :: 0 <= k < n ==> EntryValid(es[k]) {
      AllValid(es[..n]);
      assert es == es[..n] + es[n..];
      ValidOnlyAppend(es[..n], es[n..]);
      CollectAsWrittenTakes(es, n, []);
    }
  }

  lemma {:induction false} AllValid(es: seq<GptPartition>)
    requires forall k :: 0 <= k < |es| ==> EntryValid(es[k])
    ensures ValidOnly(es) == es
  {
    if es != [] {
      AllValid(es[..|es| - 1]);
    }
  }

  /** A table declared with two entries whose first slot is unused: the
      loop as written keeps the entry in the third slot, which is past the
      table; the corrected loop keeps only the second slot's entry. */
  lemma CollectAsWrittenOverreads()
    ensures var unused := GptPartition(ZERO_GUID, ZERO_GUID, 0, 0, 0, []);
      var a := unused.(typeGuid := ZERO_GUID[0 := 1]);
      var b := unused.(typeGuid := ZERO_GUID[0 := 2]);
      && CollectAsWritten([unused, a, b], 2, []) == [a, b]
      && CollectFixed([unused, a, b], 2) == [a]
  {
    var unused := GptPartition(ZERO_GUID, ZERO_GUID, 0, 0, 0, []);
    var a := unused.(typeGuid := ZERO_GUID[0 := 1]);
    var b := unused.(typeGuid := ZERO_GUID[0 := 2]);
    assert a.typeGuid[0] != ZERO_GUID[0] && b.typeGuid[0] != ZERO_GUID[0];
    assert !EntryValid(unused) && EntryValid(a) && EntryValid(b);
    assert [unused, a, b][1..] == [a, b] && [a, b][1..] == [b] && [b][1..] == [];
    assert [a] + [b] == [a, b] && [] + [a] == [a];
    assert CollectAsWritten([b], 2, [a]) == CollectAsWritten([], 2, [a, b]) == [a, b];
    assert CollectAsWritten([a, b], 2, []) == CollectAsWritten([b], 2, [a]);
    assert CollectAsWritten([unused, a, b], 2, []) == CollectAsWritten([a, b], 2, []);
    assert [unused, a, b][..2] == [unused, a];
    assert [unused, a][..1] == [unused];
    assert [unused][..0] == [];
    assert CollectFixed([unused, a, b], 2) == ValidOnly([unused, a]);
    assert ValidOnly([unused]) == ValidOnly([]) == [];
  }

  /** The slot count as written, `512 / entry_size`, with no check of the
      entry size. */
  function SlotsAsWritten(size: nat): nat
    requires size > 0
  {
    SECTOR_SIZE / size
  }

  /** With 64-byte entries the last of the eight slots starts at byte 448,
      and the 128-byte entry read there runs past the sector; with entries
      over 512 bytes there are no slots, and the sector count divides by
      zero (as does an entry size of 0 for the slot count). */
  lemma EntrySizeUnchecked()
    ensures SlotsAsWritten(64) == 8 && (SlotsAsWritten(64) - 1) * 64 + GPT_ENTRY_SIZE > SECTOR_SIZE
    ensures SlotsAsWritten(600) == 0
  {
  }

  /** `read(lba + j)` for `j` below `count`; the first failure is the
      result. */
  function ReadSectors(read: Reader, lba: nat, count: nat): (r: Result<seq<Sector>>)
    ensures r.Ok? ==> |r.value| == count
    ensures r.Ok? ==> forall j :: 0 <= j < count ==> read(lba + j) == Ok(r.value[j])
    ensures (forall l :: lba <= l < lba + count ==> read(l).Ok?) ==> r.Ok?
    decreases count
  {
    if count == 0 then Ok([])
    else
      match read(lba)
      case Err(m) => Err(m)
      case Ok(s) =>
        match ReadSectors(read, lba + 1, count - 1)
        case Err(m) => Err(m)
        case Ok(rest) => Ok([s] + rest)
  }

  /** `read_gpt`, with the entry size checked: the header at LBA 1 must be
      signed "EFI PART" and its entries between 128 and 512 bytes; then
      just enough sectors are read for the declared entries, and the entries
      in use are collected as the loop as written collects them. */
  function ReadGpt(read: Reader): (r: Result<seq<GptPartition>>)
    ensures read(1).Err? ==> r == Err(read(1).msg)
    ensures read(1).Ok? && !HeaderValid(ParseGptHeader(read(1).value)) ==> r == Err("Invalid GPT signature")
    ensures r.Ok? ==>
      && read(1).Ok? && HeaderValid(ParseGptHeader(read(1).value))
      && |r.value| <= ParseGptHeader(read(1).value).numPartitionEntries as nat
      && (forall k :: 0 <= k < |r.value| ==> EntryValid(r.value[k]))
  {
    match read(1)
    case Err(m) => Err(m)
    case Ok(buf) =>
      var h := ParseGptHeader(buf);
      if !HeaderValid(h) then Err("Invalid GPT signature")
      else if !(GPT_ENTRY_SIZE <= h.partitionEntrySize as nat <= SECTOR_SIZE) then Err("Invalid GPT entry size")
      else ReadTable(read, h.partitionEntryLba, h.numPartitionEntries, h.partitionEntrySize as nat)
  }

  /** `512 / partition_entry_size`, the entries per sector. */
  function SlotsPer(size: nat): (per: nat)
    requires GPT_ENTRY_SIZE <= size <= SECTOR_SIZE
    ensures 1 <= per && per * size <= SECTOR_SIZE
  {
    SECTOR_SIZE / size
  }

  /** The entry array: `512 / size` slots per sector, and as many sectors
      from `lba` on as `n` entries need. */
  function ReadTable(read: Reader, lba: nat, n: nat, size: nat): (r: Result<seq<GptPartition>>)
    requires GPT_ENTRY_SIZE <= size <= SECTOR_SIZE
    ensures r.Ok? ==> |r.value| <= n && forall k :: 0 <= k < |r.value| ==> EntryValid(r.value[k])
  {
    var per := SlotsPer(size);
    var count := SectorsNeeded(n, per);
    match ReadSectors(read, lba, count)
    case Err(m) => Err(m)
    case Ok(sectors) => Ok(CollectAsWritten(EntryList(sectors, per, size), n, []))
  }

  /** What `read_gpt` promises: an unsigned header is refused; otherwise
      at most the declared number of entries come back, each in use. */
  lemma ReadGptResult(read: Reader)
    requires read(1).Ok?
    ensures var h := ParseGptHeader(read(1).value);
      && (!HeaderValid(h) ==> ReadGpt(read) == Err("Invalid GPT signature"))
      && (ReadGpt(read).Ok? ==>
            (HeaderValid(h) && |ReadGpt(read).value| <= h.numPartitionEntries as nat
             && forall k :: 0 <= k < |ReadGpt(read).value| ==> EntryValid(ReadGpt(read).value[k])))
  {
  }

  /** The sectors `lba` to `lba + count - 1` of a disk whose reads all
      succeed. */
  function SectorsAt(read: Reader, lba: nat, count: nat): (ss: seq<Sector>)
    requires forall l: nat :: read(l).Ok?
    ensures |ss| == count
  {
    seq(count, j requires 0 <= j < count => read(lba + j).value)
  }

  /** On a disk whose reads all succeed, the entries are the first `n` in
      use among all the slots of the sectors read from the header's entry
      LBA on, as many sectors as the table needs. */
  lemma ReadTableReads(read: Reader, lba: nat, n: nat, size: nat)
    requires GPT_ENTRY_SIZE <= size <= SECTOR_SIZE
    requires forall l: nat :: read(l).Ok?
    ensures var per := SlotsPer(size);
      var sectors := SectorsAt(read, lba, SectorsNeeded(n, per));
      ReadTable(read, lba, n, size) == Ok(Take(ValidOnly(EntryList(sectors, per, size)), n))
  {
    var per := SlotsPer(size);
    var count := SectorsNeeded(n, per);
    var r := ReadSectors(read, lba, count);
    assert r.Ok?;
    assert r.value == SectorsAt(read, lba, count);
    var es := EntryList(r.value, per, size);
    assert ReadTable(read, lba, n, size) == Ok(CollectAsWritten(es, n, []));
    CollectAsWrittenTakes(es, n, []);
    assert [] + Take(ValidOnly(es), n) == Take(ValidOnly(es), n);
  }

  /** A good header hands the table's place, length and entry size on. */
  lemma ReadGptTable(read: Reader)
    requires read(1).Ok?
    requires HeaderValid(ParseGptHeader(read(1).value))
    requires GPT_ENTRY_SIZE <= ParseGptHeader(read(1).value).partitionEntrySize as nat <= SECTOR_SIZE
    ensures var h := ParseGptHeader(read(1).value);
      ReadGpt(read) == ReadTable(read, h.partitionEntryLba, h.numPartitionEntries, h.partitionEntrySize as nat)
  {
  }
}
