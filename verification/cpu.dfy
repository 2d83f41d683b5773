/** CPU identification (kernel/src/arch/x86_64/cpu.rs). `CpuFeatures::detect`
    decodes the registers the `cpuid` instruction returns for the leaves it
    asks for; here those registers are given values, one `Regs` per leaf. */
module Cpu {
  import opened Common

  /** The four registers one `cpuid` leaf returns. */
  datatype Regs = Regs(eax: bv32, ebx: bv32, ecx: bv32, edx: bv32)

  /** The leaves `detect` reads: 0 (vendor), 1 (signature and features),
      7 (extended features), 0x8000_0000 (highest extended leaf),
      0x8000_0001 (extended features) and the three brand-string leaves
      0x8000_0002 to 0x8000_0004. */
  datatype Leaves = Leaves(vendor: Regs, info: Regs, leaf7: Regs, maxExt: Regs, ext1: Regs,
                           brand2: Regs, brand3: Regs, brand4: Regs)

  /** The feature flags of `CpuFeatures`. */
  datatype Flags = Flags(sse: bool, sse2: bool, apic: bool, tsc: bool, msr: bool, pae: bool,
                         sse3: bool, ssse3: bool, sse41: bool, sse42: bool, avx: bool, x2apic: bool, vmx: bool,
                         nx: bool, avx2: bool, svm: bool)

  datatype Features = Features(vendor: seq<byte>, brand: seq<byte>,
                               family: byte, model: byte, stepping: byte,
                               flags: Flags, cores: byte, threadsPerCore: byte)

  const VENDOR_BYTES := 12
  const BRAND_BYTES := 48

  /** Leaf 0x8000_0000's `eax` must reach these for `detect` to read the
      extended feature leaf and the brand leaves. */
  const EXT_FEATURES_LEAF: bv32 := 0x8000_0001
  const EXT_BRAND_LEAF: bv32 := 0x8000_0004

  // Feature bit positions: leaf 1 `edx`, leaf 1 `ecx`, leaf 0x8000_0001
  // `edx` and `ecx`, leaf 7 `ebx`.
  const EDX_SSE: bv32 := 25
  const EDX_SSE2: bv32 := 26
  const EDX_APIC: bv32 := 9
  const EDX_TSC: bv32 := 4
  const EDX_MSR: bv32 := 5
  const EDX_PAE: bv32 := 6
  const ECX_SSE3: bv32 := 0
  const ECX_SSSE3: bv32 := 9
  const ECX_SSE41: bv32 := 19
  const ECX_SSE42: bv32 := 20
  const ECX_AVX: bv32 := 28
  const ECX_X2APIC: bv32 := 21
  const ECX_VMX: bv32 := 5
  const EXT_EDX_NX: bv32 := 20
  const EXT_ECX_SVM: bv32 := 2
  const LEAF7_EBX_AVX2: bv32 := 5

  /** `reg & (1 << k) != 0`. */
  predicate Bit(reg: bv32, k: bv32)
    requires k < 32
  {
    reg & (1 << k) != 0
  }

  /** A register's `to_le_bytes`. */
  function Le(reg: bv32): (r: seq<byte>)
    ensures |r| == 4
  {
    LittleEndian(reg as int, 4)
  }

  lemma LeRoundTrip(reg: bv32)
    ensures FromLittleEndian(Le(reg)) == reg as int
  {
    assert Pow256(4) == 0x1_0000_0000;
    LittleEndianRoundTrip(reg as int, 4);
  }

  // ---------------------------------------------------------------------
  // The processor signature in leaf 1's `eax`

  function Stepping(eax: bv32): byte { (eax & 0xF) as int }
  function BaseModel(eax: bv32): byte { ((eax >> 4) & 0xF) as int }
  function BaseFamily(eax: bv32): byte { ((eax >> 8) & 0xF) as int }
  function ExtModel(eax: bv32): byte { ((eax >> 16) & 0xF) as int }
  function ExtFamily(eax: bv32): byte { ((eax >> 20) & 0xFF) as int }

  /** The `u8` family: the base family, plus the extended family when the
      base is 0xF (the `u8` addition wraps). */
  function Family(eax: bv32): (f: byte)
    ensures BaseFamily(eax) != 0xF ==> f == BaseFamily(eax)
  {
    if BaseFamily(eax) == 0xF then (0xF + ExtFamily(eax)) % 256 else BaseFamily(eax)
  }

  /** The model as `detect` computes it: the extended model is added when
      the family ALREADY ADJUSTED by the extended family is 6 or 0xF. */
  function ModelAsWritten(eax: bv32): byte
  {
    var f := Family(eax);
    if f == 0x6 || f == 0xF then BaseModel(eax) + ExtModel(eax) * 16 else BaseModel(eax)
  }

  /** The model with the extended model added when the BASE family is 6 or
      0xF. */
  function Model(eax: bv32): byte
  {
    var f := BaseFamily(eax);
    if f == 0x6 || f == 0xF then BaseModel(eax) + ExtModel(eax) * 16 else BaseModel(eax)
  }

  /** DisplayFamily and DisplayModel as the description of the CPUID
      instruction in the Intel SDM (Vol. 2A) defines them from the
      signature's bit fields 27:20, 19:16, 11:8 and 7:4. */
  function DisplayFamily(eax: bv32): nat
  {
    var familyId := (eax >> 8) & 0xF;
    if familyId != 0xF then familyId as nat else (familyId as nat) + (((eax >> 20) & 0xFF) as nat)
  }

  function DisplayModel(eax: bv32): nat
  {
    var familyId := (eax >> 8) & 0xF;
    if familyId == 0x6 || familyId == 0xF then (((eax >> 12) & 0xF0) | ((eax >> 4) & 0xF)) as nat
    else ((eax >> 4) & 0xF) as nat
  }

  /** The corrected model is the SDM's DisplayModel for every signature. */
  lemma ModelMatchesSdm(eax: bv32)
    ensures Model(eax) == DisplayModel(eax)
  {
    var hi := (eax >> 12) & 0xF0;
    var lo := (eax >> 4) & 0xF;
    assert hi | lo == hi + lo && hi == ((eax >> 16) & 0xF) * 16 by {
    }
    assert (hi + lo) as nat == hi as nat + lo as nat;
  }

  /** The family is the SDM's DisplayFamily unless the `u8` sum wraps, which
      takes an extended family above 0xF0. */
  lemma FamilyMatchesSdm(eax: bv32)
    ensures ExtFamily(eax) <= 0xF0 ==> Family(eax) == DisplayFamily(eax)
    ensures ExtFamily(eax) > 0xF0 && BaseFamily(eax) == 0xF ==> Family(eax) == DisplayFamily(eax) - 256
  {
  }

  /** The model as written and the corrected one differ exactly on a base
      family of 0xF with a non-zero extended model whose extended family
      moves the sum off 0xF and 6: AMD's families 10h and later. */
  lemma ModelAsWrittenDiffers(eax: bv32)
    ensures ModelAsWritten(eax) != Model(eax) <==>
      BaseFamily(eax) == 0xF && ExtModel(eax) != 0 && ExtFamily(eax) != 0 && ExtFamily(eax) != 0xF7
  {
  }

  /** The signature 0x0087_0F10 (family 17h, model 71h) decodes as written
      to model 1, where the SDM says 0x71. */
  lemma ModelAsWrittenDropsExtendedModel()
    ensures Family(0x0087_0F10) == 0x17
    ensures ModelAsWritten(0x0087_0F10) == 0x01
    ensures Model(0x0087_0F10) == 0x71 == DisplayModel(0x0087_0F10)
  {
  }

  // ---------------------------------------------------------------------
  // Feature flags

  /** The flags `detect` reads: leaf 1's `edx` and `ecx`, leaf 7's `ebx`,
      leaf 0x8000_0001's `ecx`, and its `edx` only when the highest
      extended leaf reaches it. */
  function DecodeFlags(l: Leaves): Flags
  {
    var edx := l.info.edx;
    var ecx := l.info.ecx;
    Flags(Bit(edx, EDX_SSE), Bit(edx, EDX_SSE2), Bit(edx, EDX_APIC), Bit(edx, EDX_TSC), Bit(edx, EDX_MSR), Bit(edx, EDX_PAE),
          Bit(ecx, ECX_SSE3), Bit(ecx, ECX_SSSE3), Bit(ecx, ECX_SSE41), Bit(ecx, ECX_SSE42), Bit(ecx, ECX_AVX),
          Bit(ecx, ECX_X2APIC), Bit(ecx, ECX_VMX),
          l.maxExt.eax >= EXT_FEATURES_LEAF && Bit(l.ext1.edx, EXT_EDX_NX),
          Bit(l.leaf7.ebx, LEAF7_EBX_AVX2),
          Bit(l.ext1.ecx, EXT_ECX_SVM))
  }

  /** The single bit `k` when `on`. */
  function Flag(on: bool, k: bv32): bv32
    requires k < 32
  {
    if on then 1 << k else 0
  }

  /** A processor that reports exactly the flags `f`: the registers holding
      those bits and no others, in leaves otherwise like `l`. */
  function Report(l: Leaves, f: Flags): (r: Leaves)
    ensures r.maxExt == l.maxExt
  {
    l.(info := l.info.(ecx := EcxOf(f), edx := EdxOf(f)),
       leaf7 := l.leaf7.(ebx := Flag(f.avx2, LEAF7_EBX_AVX2)),
       ext1 := l.ext1.(ecx := Flag(f.svm, EXT_ECX_SVM), edx := Flag(f.nx, EXT_EDX_NX)))
  }

  /** Each flag is read from its own bit: a processor that reports a set
      of flags is decoded to exactly that set, when it has the extended
      feature leaf. */
  lemma DecodeReport(l: Leaves, f: Flags)
    requires l.maxExt.eax >= EXT_FEATURES_LEAF
    ensures DecodeFlags(Report(l, f)) == f
  {
    ReportLeaf1(l, f);
    ReportOthers(l, f);
  }

  /** Without the extended feature leaf, NX is never reported, whatever
      the stale leaf holds, and the other flags still decode. */
  lemma NoExtendedLeafNoNx(l: Leaves, f: Flags)
    requires l.maxExt.eax < EXT_FEATURES_LEAF
    ensures !DecodeFlags(l).nx
    ensures DecodeFlags(Report(l, f)) == f.(nx := false)
  {
    ReportLeaf1(l, f);
    ReportOthers(l, f);
  }

  lemma ReportLeaf1(l: Leaves, f: Flags)
    ensures var d := DecodeFlags(Report(l, f));
      && d.sse == f.sse && d.sse2 == f.sse2 && d.apic == f.apic && d.tsc == f.tsc && d.msr == f.msr && d.pae == f.pae
      && d.sse3 == f.sse3 && d.ssse3 == f.ssse3 && d.sse41 == f.sse41 && d.sse42 == f.sse42 && d.avx == f.avx
      && d.x2apic == f.x2apic && d.vmx == f.vmx
  {
    ReportEdx(f);
    ReportEcx(f);
  }

  /** The `edx` of leaf 1 that reports `f`. */
  function EdxOf(f: Flags): bv32
  {
    Flag(f.sse, EDX_SSE) | Flag(f.sse2, EDX_SSE2) | Flag(f.apic, EDX_APIC)
    | Flag(f.tsc, EDX_TSC) | Flag(f.msr, EDX_MSR) | Flag(f.pae, EDX_PAE)
  }

  /** The `ecx` of leaf 1 that reports `f`. */
  function EcxOf(f: Flags): bv32
  {
    Flag(f.sse3, ECX_SSE3) | Flag(f.ssse3, ECX_SSSE3) | Flag(f.sse41, ECX_SSE41)
    | Flag(f.sse42, ECX_SSE42) | Flag(f.avx, ECX_AVX) | Flag(f.x2apic, ECX_X2APIC) | Flag(f.vmx, ECX_VMX)
  }

  lemma ReportEdx(f: Flags)
    ensures var edx := EdxOf(f);
      && Bit(edx, EDX_SSE) == f.sse && Bit(edx, EDX_SSE2) == f.sse2 && Bit(edx, EDX_APIC) == f.apic
      && Bit(edx, EDX_TSC) == f.tsc && Bit(edx, EDX_MSR) == f.msr && Bit(edx, EDX_PAE) == f.pae
  {
  }

  lemma ReportEcx(f: Flags)
    ensures var ecx := EcxOf(f);
      && Bit(ecx, ECX_SSE3) == f.sse3 && Bit(ecx, ECX_SSSE3) == f.ssse3 && Bit(ecx, ECX_SSE41) == f.sse41
      && Bit(ecx, ECX_SSE42) == f.sse42 && Bit(ecx, ECX_AVX) == f.avx && Bit(ecx, ECX_X2APIC) == f.x2apic
      && Bit(ecx, ECX_VMX) == f.vmx
  {
  }

  lemma ReportOthers(l: Leaves, f: Flags)
    ensures var d := DecodeFlags(Report(l, f));
      && d.avx2 == f.avx2 && d.svm == f.svm
      && d.nx == (l.maxExt.eax >= EXT_FEATURES_LEAF && f.nx)
  {
  }

  // ---------------------------------------------------------------------
  // detect

  /** The brand bytes: the three leaves' registers `eax`, `ebx`, `ecx`,
      `edx` in turn when the brand leaves exist, else 48 zeros. */
  function Brand(l: Leaves): (b: seq<byte>)
    ensures |b| == BRAND_BYTES
  {
    if l.maxExt.eax >= EXT_BRAND_LEAF then LeAll(BrandRegs(l))
    else seq(BRAND_BYTES, _ => 0)
  }

  /** Leaf 1's `ebx` bits 23:16, with 0 read as 1. */
  function ThreadsPerCore(ebx: bv32): (t: byte)
    ensures t >= 1
    ensures ((ebx >> 16) & 0xFF) != 0 ==> t == ((ebx >> 16) & 0xFF) as int
  {
    var n := ((ebx >> 16) & 0xFF) as int;
    if n == 0 then 1 else n
  }

  /** The vendor bytes: leaf 0's `ebx`, `edx`, `ecx`, in that order. */
  function Vendor(r: Regs): (v: seq<byte>)
    ensures |v| == VENDOR_BYTES
  {
    Le(r.ebx) + Le(r.edx) + Le(r.ecx)
  }

  /** The model as written agrees with the SDM (and the family with its
      DisplayFamily) unless the base family is 0xF and there is an extended
      family; then the extended model is dropped, unless the adjusted
      family wraps round to 6. */
  lemma ModelAsWrittenAgrees(eax: bv32)
    ensures BaseFamily(eax) != 0xF || ExtFamily(eax) == 0 ==>
      Family(eax) == DisplayFamily(eax) && ModelAsWritten(eax) == DisplayModel(eax)
    ensures BaseFamily(eax) == 0xF && ExtFamily(eax) != 0 && ExtFamily(eax) != 0xF7 ==>
      ModelAsWritten(eax) == BaseModel(eax)
  {
    ModelMatchesSdm(eax);
    FamilyMatchesSdm(eax);
  }

  /** `CpuFeatures::detect`, with the model as written. */
  function Detect(l: Leaves): (f: Features)
    ensures |f.vendor| == VENDOR_BYTES && |f.brand| == BRAND_BYTES
    ensures f.stepping < 16 && f.cores == 1 && f.threadsPerCore >= 1
    ensures BaseFamily(l.info.eax) != 0xF || ExtFamily(l.info.eax) == 0 ==>
      f.family == DisplayFamily(l.info.eax) && f.model == DisplayModel(l.info.eax)
    ensures BaseFamily(l.info.eax) == 0xF && ExtFamily(l.info.eax) != 0 && ExtFamily(l.info.eax) != 0xF7 ==>
      f.model == BaseModel(l.info.eax)
  {
    var eax := l.info.eax;
    ModelAsWrittenAgrees(eax);
    Features(Vendor(l.vendor), Brand(l),
             Family(eax), ModelAsWritten(eax), Stepping(eax),
             DecodeFlags(l), 1, ThreadsPerCore(l.info.ebx))
  }

  /** The vendor bytes read back as `ebx`, `edx`, `ecx`, four bytes each,
      least significant first. */
  lemma VendorRoundTrip(r: Regs)
    ensures var v := Vendor(r);
      && FromLittleEndian(v[0..4]) == r.ebx as int
      && FromLittleEndian(v[4..8]) == r.edx as int
      && FromLittleEndian(v[8..12]) == r.ecx as int
  {
    var v := Vendor(r);
    assert v[0..4] == Le(r.ebx);
    assert v[4..8] == Le(r.edx);
    assert v[8..12] == Le(r.ecx);
    LeRoundTrip(r.ebx);
    LeRoundTrip(r.edx);
    LeRoundTrip(r.ecx);
  }

  /** An Intel processor's leaf 0 spells "GenuineIntel". */
  lemma GenuineIntel(eax: bv32)
    ensures Vendor(Regs(eax, 0x756E_6547, 0x6C65_746E, 0x4965_6E69))
         == [0x47, 0x65, 0x6E, 0x75, 0x69, 0x6E, 0x65, 0x49, 0x6E, 0x74, 0x65, 0x6C]
  {
    assert Le(0x756E_6547) == LittleEndian(1970169159, 4) == [0x47, 0x65, 0x6E, 0x75];
    assert Le(0x4965_6E69) == LittleEndian(1231384169, 4) == [0x69, 0x6E, 0x65, 0x49];
    assert Le(0x6C65_746E) == LittleEndian(1818588270, 4) == [0x6E, 0x74, 0x65, 0x6C];
  }

  /** The brand leaves' registers in the order `detect` copies them. */
  function BrandRegs(l: Leaves): (regs: seq<bv32>)
    ensures |regs| == 12
  {
    [l.brand2.eax, l.brand2.ebx, l.brand2.ecx, l.brand2.edx,
     l.brand3.eax, l.brand3.ebx, l.brand3.ecx, l.brand3.edx,
     l.brand4.eax, l.brand4.ebx, l.brand4.ecx, l.brand4.edx]
  }

  /** The bytes of registers one after another, each least significant
      byte first. */
  function LeAll(regs: seq<bv32>): (b: seq<byte>)
    ensures |b| == 4 * |regs|
  {
    if regs == [] then [] else LeAll(regs[..|regs| - 1]) + Le(regs[|regs| - 1])
  }

  lemma {:induction false} LeAllChunk(regs: seq<bv32>, k: nat)
    requires k < |regs|
    ensures LeAll(regs)[4 * k..4 * k + 4] == Le(regs[k])
  {
    var n := |regs| - 1;
    var front := LeAll(regs[..n]);
    assert LeAll(regs) == front + Le(regs[n]);
    if k < n {
      LeAllChunk(regs[..n], k);
      assert regs[..n][k] == regs[k];
      assert 4 * k + 4 <= |front|;
      assert LeAll(regs)[4 * k..4 * k + 4] == front[4 * k..4 * k + 4];
    } else {
      assert LeAll(regs)[4 * k..4 * k + 4] == Le(regs[n]);
    }
  }

  /** With the brand leaves present, every four bytes of the brand read
      back as the register they were copied from; without them the brand
      is all zeros. */
  lemma BrandRoundTrip(l: Leaves, k: nat)
    requires k < 12
    ensures l.maxExt.eax >= EXT_BRAND_LEAF ==> FromLittleEndian(Brand(l)[4 * k..4 * k + 4]) == BrandRegs(l)[k] as int
    ensures l.maxExt.eax < EXT_BRAND_LEAF ==> forall i :: 0 <= i < BRAND_BYTES ==> Brand(l)[i] == 0
  {
    if l.maxExt.eax >= EXT_BRAND_LEAF {
      LeAllChunk(BrandRegs(l), k);
      LeRoundTrip(BrandRegs(l)[k]);
    }
  }

  // ---------------------------------------------------------------------
  // brand_string

  /** The ASCII whitespace `str::trim` removes. */
  predicate Space(c: byte) { c == 0x20 || 0x09 <= c <= 0x0D }

  /** How many bytes of whitespace `s` starts with. */
  function LeadingSpaces(s: seq<byte>): (n: nat)
    ensures n <= |s|
    ensures forall i :: 0 <= i < n ==> Space(s[i])
    ensures n < |s| ==> !Space(s[n])
  {
    if s != [] && Space(s[0]) then 1 + LeadingSpaces(s[1..]) else 0
  }

  /** How many bytes of `s` remain once its trailing whitespace is cut. */
  function Kept(s: seq<byte>): (m: nat)
    ensures m <= |s|
    ensures forall i :: m <= i < |s| ==> Space(s[i])
    ensures m > 0 ==> !Space(s[m - 1])
  {
    if s != [] && Space(s[|s| - 1]) then Kept(s[..|s| - 1]) else |s|
  }

  /** `str::trim` on ASCII text. */
  function Trim(s: seq<byte>): seq<byte>
  {
    var n := LeadingSpaces(s);
    s[n..n + Kept(s[n..])]
  }

  /** Trimming well-formed UTF-8 leaves well-formed UTF-8: only ASCII
      whitespace is cut, and each such byte is a character of its own. */
  lemma {:induction false} TrimUtf8(s: seq<byte>)
    requires Utf8(s)
    ensures Utf8(Trim(s))
  {
    var n := LeadingSpaces(s);
    DropLeadingUtf8(s, n);
    var rest := s[n..];
    KeptUtf8(rest);
    assert Trim(s) == rest[..Kept(rest)];
  }

  lemma {:induction false} DropLeadingUtf8(s: seq<byte>, n: nat)
    requires Utf8(s) && n <= |s|
    requires forall i :: 0 <= i < n ==> s[i] < 0x80
    ensures Utf8(s[n..])
  {
    if n > 0 {
      assert Utf8Width(s) == 1;
      assert s[1..][n - 1..] == s[n..];
      DropLeadingUtf8(s[1..], n - 1);
    }
  }

  lemma {:induction false} KeptUtf8(s: seq<byte>)
    requires Utf8(s)
    ensures Utf8(s[..Kept(s)])
  {
    if s != [] && Space(s[|s| - 1]) {
      Utf8DropLast(s);
      KeptUtf8(s[..|s| - 1]);
      assert s[..|s| - 1][..Kept(s)] == s[..Kept(s)];
    } else {
      assert s[..Kept(s)] == s;
    }
  }

  /** The text `unwrap_or` falls back to when the bytes are not UTF-8. */
  const UNKNOWN: seq<byte> := [0x55, 0x6E, 0x6B, 0x6E, 0x6F, 0x77, 0x6E]

  /** `vendor_string`: the vendor bytes as text, or "Unknown" when
      `from_utf8` refuses them. */
  function VendorString(vendor: seq<byte>): (r: seq<byte>)
    ensures Utf8(r)
    ensures r == vendor <==> Utf8(vendor)
    ensures r != vendor ==> r == UNKNOWN
  {
    AsciiUtf8(UNKNOWN);
    if Utf8(vendor) then vendor else UNKNOWN
  }

  /** `brand_string`: the bytes before the first NUL, without leading and
      trailing whitespace, or "Unknown" when `from_utf8` refuses them. */
  function BrandString(brand: seq<byte>): (r: seq<byte>)
    ensures Utf8(r)
    ensures !Utf8(UntilNul(brand)) ==> r == UNKNOWN
  {
    var p := UntilNul(brand);
    AsciiUtf8(UNKNOWN);
    if Utf8(p) then
      TrimUtf8(p);
      Trim(p)
    else UNKNOWN
  }

  /** An ASCII brand never takes the fallback: its string is the trimmed
      bytes before the first NUL. */
  lemma BrandStringAscii(brand: seq<byte>)
    requires forall i :: 0 <= i < |brand| ==> brand[i] < 0x80
    ensures BrandString(brand) == Trim(UntilNul(brand))
  {
    AsciiUtf8(UntilNul(brand));
  }

  /** A brand starting with a byte UTF-8 never uses reads as "Unknown". */
  lemma BrandStringInvalid(brand: seq<byte>)
    requires |brand| > 0 && brand[0] == 0xFF
    ensures BrandString(brand) == UNKNOWN
  {
    assert UntilNul(brand)[0] == 0xFF;
  }

  /** Intel's vendor bytes are ASCII, so they are their own string. */
  lemma GenuineIntelString(eax: bv32)
    ensures var v := Vendor(Regs(eax, 0x756E_6547, 0x6C65_746E, 0x4965_6E69));
      VendorString(v) == v
  {
    GenuineIntel(eax);
    AsciiUtf8(Vendor(Regs(eax, 0x756E_6547, 0x6C65_746E, 0x4965_6E69)));
  }

  /** Trimming cuts a run of whitespace from each end of `p` and leaves
      none at either end: the result is `p`'s slice from `lead`. */
  lemma {:induction false} TrimmedSlice(p: seq<byte>)
    ensures var r := Trim(p);
      var lead := LeadingSpaces(p);
      && lead + |r| <= |p|
      && r == p[lead..lead + |r|]
      && (forall i :: 0 <= i < lead ==> Space(p[i]))
      && (forall i :: lead + |r| <= i < |p| ==> Space(p[i]))
      && (r != [] ==> !Space(r[0]) && !Space(r[|r| - 1]))
  {
    var lead := LeadingSpaces(p);
    var rest := p[lead..];
    var r := Trim(p);
    assert |r| == Kept(rest);
    forall i | lead + |r| <= i < |p|
      ensures Space(p[i])
    {
      assert p[i] == rest[i - lead];
    }
    if r != [] {
      assert r[0] == p[lead];
      assert r[|r| - 1] == rest[Kept(rest) - 1];
    }
  }

  /** The brand string is "Unknown" or `TrimmedSlice`'s slice of the bytes
      before the first NUL, so it holds no NUL; the brand field is 48
      bytes, longer than "Unknown". */
  lemma {:induction false} BrandStringNoNul(brand: seq<byte>)
    requires |brand| == BRAND_BYTES
    ensures |BrandString(brand)| <= |brand|
    ensures forall i :: 0 <= i < |BrandString(brand)| ==> BrandString(brand)[i] != 0
  {
    var p := UntilNul(brand);
    var lead := LeadingSpaces(p);
    var r := BrandString(brand);
    if Utf8(p) {
      assert r == Trim(p);
      forall i | 0 <= i < |r|
        ensures r[i] != 0
      {
        assert r[i] == p[lead + i];
      }
    }
  }

  /** Trimming again changes nothing, the fallback included. */
  lemma BrandStringTrimmed(brand: seq<byte>)
    ensures Trim(BrandString(brand)) == BrandString(brand)
  {
    TrimmedSlice(UntilNul(brand));
    TrimNoop(BrandString(brand));
  }
  lemma TrimNoop(s: seq<byte>)
    requires s != [] ==> !Space(s[0]) && !Space(s[|s| - 1])
    ensures Trim(s) == s
  {
  }
}
