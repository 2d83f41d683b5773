/** The x86_64 entry path (kernel/src/main.rs): `_start64` walks the
    Multiboot2 boot information (section 3.6 of the Multiboot2
    specification) for a framebuffer tag and falls back to VGA text mode;
    `kernel_main` refuses a second entry and turns on graphics only for a
    large enough framebuffer. The boot information is given as its bytes,
    offsets counted from its start. */
module Boot {
  import opened Common
  import Text

  /** `FramebufferInfo`'s address, geometry and depth. */
  datatype Framebuffer = Framebuffer(addr: u64, width: u32, height: u32, pitch: u32, bpp: byte)

  /** The VGA text buffer: 80x25 cells of two bytes at 0xb8000. */
  const VGA_ADDR: u64 := 0xB8000
  const VGA_TEXT: Framebuffer := Framebuffer(VGA_ADDR, 80, 25, 160, 16)

  const TAG_END: u32 := 0
  const TAG_FRAMEBUFFER: u32 := 8

  /** Framebuffer types: indexed colour, direct RGB, EGA text. */
  const FB_INDEXED: byte := 0
  const FB_RGB: byte := 1
  const FB_EGA_TEXT: byte := 2

  /** The first tag follows `total_size` and the reserved word. */
  const FIRST_TAG: nat := 8

  /** The bytes of a framebuffer tag `_start64` reads: up to and including
      the type byte at offset 29. */
  const FB_TAG_READ: nat := 30

  // ---------------------------------------------------------------------
  // Reading the boot information

  /** The little-endian `u32` at `at`. */
  function U32At(info: seq<byte>, at: nat): u32
    requires at + 4 <= |info|
  {
    info[at] as int + 0x100 * (info[at + 1] as int) + 0x1_0000 * (info[at + 2] as int) + 0x100_0000 * (info[at + 3] as int)
  }

  /** The little-endian `u64` at `at`. */
  function U64At(info: seq<byte>, at: nat): u64
    requires at + 8 <= |info|
  {
    U32At(info, at) + 0x1_0000_0000 * U32At(info, at + 4)
  }

  /** The fields of a framebuffer tag: the address at +8, the pitch at +16,
      the width at +20, the height at +24, the depth at +28 and the type at
      +29. */
  datatype FbFields = FbFields(addr: u64, pitch: u32, width: u32, height: u32, bpp: byte, fbType: byte)

  function ReadFields(info: seq<byte>, at: nat): FbFields
    requires at + FB_TAG_READ <= |info|
  {
    FbFields(U64At(info, at + 8), U32At(info, at + 16), U32At(info, at + 20), U32At(info, at + 24),
             info[at + 28], info[at + 29])
  }

  /** A tag the walk visits: where it is, its type and size, and for a
      framebuffer tag the fields read from it. */
  datatype Tag = Tag(offset: nat, kind: u32, size: u32, fields: Option<FbFields>)

  /** How the walk ends: at the end tag, by reaching `total_size`, at a tag
      whose size rounds to a step of zero (the source then revisits that
      tag forever), or at a read beyond the given bytes. */
  datatype Stop = AtEndTag | PastTotal | Stuck | Overrun

  datatype Walk = Walk(tags: seq<Tag>, stop: Stop)

  /** `(tag_size + 7) & !7`, the `u32` sum wrapping. */
  function Step(size: u32): (s: nat)
    ensures s % 8 == 0
    ensures size <= 0xFFFF_FFF8 ==> size <= s < size + 8
  {
    var n := (size + 7) % 0x1_0000_0000;
    n - n % 8
  }

  /** Whether the tag at `at` can be read: its type and size, and for a
      framebuffer tag the fields up to its type byte. */
  predicate Readable(info: seq<byte>, at: nat)
  {
    at + 8 <= |info| && (U32At(info, at) == TAG_FRAMEBUFFER ==> at + FB_TAG_READ <= |info|)
  }

  function TagAt(info: seq<byte>, at: nat): (t: Tag)
    requires Readable(info, at)
    ensures t.offset == at && t.kind == U32At(info, at) && t.size == U32At(info, at + 4)
    ensures t.fields.Some? <==> t.kind == TAG_FRAMEBUFFER
  {
    var kind := U32At(info, at);
    Tag(at, kind, U32At(info, at + 4), if kind == TAG_FRAMEBUFFER then Some(ReadFields(info, at)) else None)
  }

  /** Whether the walk visits the tag at `at` and moves on past it. */
  predicate Continues(info: seq<byte>, at: nat, total: nat)
  {
    at < total && Readable(info, at) && U32At(info, at) != TAG_END && Step(U32At(info, at + 4)) != 0
  }

  /** The tag walk from offset `at` up to `total`. */
  function WalkFrom(info: seq<byte>, at: nat, total: nat): (w: Walk)
    decreases total - at
  {
    if at >= total then Walk([], PastTotal)
    else if !Readable(info, at) then Walk([], Overrun)
    else if U32At(info, at) == TAG_END then Walk([], AtEndTag)
    else if Step(U32At(info, at + 4)) == 0 then Walk([TagAt(info, at)], Stuck)
    else
      var rest := WalkFrom(info, at + Step(U32At(info, at + 4)), total);
      Walk([TagAt(info, at)] + rest.tags, rest.stop)
  }

  /** One step of the walk. */
  lemma WalkCons(info: seq<byte>, at: nat, total: nat)
    requires Continues(info, at, total)
    ensures var next := at + Step(TagAt(info, at).size);
      var w := WalkFrom(info, at, total);
      var rest := WalkFrom(info, next, total);
      && at < next
      && w.tags == [TagAt(info, at)] + rest.tags && w.stop == rest.stop
  {
  }

  /** The walk visits no tag when it does not continue, except the one a
      stuck walk stays at. */
  lemma WalkHalts(info: seq<byte>, at: nat, total: nat)
    requires !Continues(info, at, total)
    ensures var w := WalkFrom(info, at, total);
      && (w.stop == Stuck ==> w.tags == [TagAt(info, at)] && at < total && U32At(info, at) != TAG_END)
      && (w.stop != Stuck ==> w.tags == [])
      && (w.stop == AtEndTag ==> at < total && at + 8 <= |info| && U32At(info, at) == TAG_END)
      && (w.stop == PastTotal ==> at >= total)
      && (w.stop == Overrun ==> at < total && !Readable(info, at))
  {
  }

  /** The offset after the visited tags: where the walk looked last. */
  function Next(at: nat, tags: seq<Tag>): nat
  {
    if tags == [] then at else tags[|tags| - 1].offset + Step(tags[|tags| - 1].size)
  }

  lemma NextCons(at: nat, t: Tag, rest: seq<Tag>)
    requires t.offset == at
    ensures Next(at, [t] + rest) == Next(at + Step(t.size), rest)
  {
    if rest != [] {
      assert ([t] + rest)[|rest|] == rest[|rest| - 1];
    }
  }

  /** The visited tags start at `at` and lie below `total`. */
  lemma {:induction false} WalkInRange(info: seq<byte>, at: nat, total: nat)
    ensures var ts := WalkFrom(info, at, total).tags;
      && (ts != [] ==> ts[0].offset == at)
      && (forall k :: 0 <= k < |ts| ==> at <= ts[k].offset < total)
    decreases total - at
  {
    if Continues(info, at, total) {
      WalkCons(info, at, total);
      var next := at + Step(TagAt(info, at).size);
      var ts := WalkFrom(info, at, total).tags;
      var rest := WalkFrom(info, next, total).tags;
      WalkInRange(info, next, total);
      forall k | 0 < k < |ts|
        ensures at <= ts[k].offset < total
      {
        assert ts[k] == rest[k - 1];
      }
    } else {
      WalkHalts(info, at, total);
    }
  }

  /** Each visited tag follows the one before by that one's rounded size,
      so the offsets increase. */
  lemma {:induction false} WalkChain(info: seq<byte>, at: nat, total: nat)
    ensures var ts := WalkFrom(info, at, total).tags;
      forall k :: 0 <= k < |ts| - 1 ==> ts[k + 1].offset == ts[k].offset + Step(ts[k].size) > ts[k].offset
    decreases total - at
  {
    if Continues(info, at, total) {
      WalkCons(info, at, total);
      var next := at + Step(TagAt(info, at).size);
      var ts := WalkFrom(info, at, total).tags;
      var rest := WalkFrom(info, next, total).tags;
      WalkChain(info, next, total);
      WalkInRange(info, next, total);
      forall k | 0 <= k < |ts| - 1
        ensures ts[k + 1].offset == ts[k].offset + Step(ts[k].size) > ts[k].offset
      {
        assert ts[k + 1] == rest[k];
        if k > 0 {
          assert ts[k] == rest[k - 1];
        }
      }
    } else {
      WalkHalts(info, at, total);
    }
  }

  /** Starting 8-aligned, as the first tag at offset 8 does, every visited
      tag is 8-aligned. */
  lemma {:induction false} WalkAligned(info: seq<byte>, at: nat, total: nat)
    requires at % 8 == 0
    ensures var ts := WalkFrom(info, at, total).tags;
      forall k :: 0 <= k < |ts| ==> ts[k].offset % 8 == 0
    decreases total - at
  {
    if Continues(info, at, total) {
      WalkCons(info, at, total);
      var next := at + Step(TagAt(info, at).size);
      var ts := WalkFrom(info, at, total).tags;
      var rest := WalkFrom(info, next, total).tags;
      WalkAligned(info, next, total);
      forall k | 0 < k < |ts|
        ensures ts[k].offset % 8 == 0
      {
        assert ts[k] == rest[k - 1];
      }
    } else {
      WalkHalts(info, at, total);
    }
  }

  /** Every visited tag is a tag the walk could read and is not the end
      tag: its type and size are the words at its offset, and a framebuffer
      tag carries its fields. */
  lemma {:induction false} WalkReads(info: seq<byte>, at: nat, total: nat)
    ensures var ts := WalkFrom(info, at, total).tags;
      forall k :: 0 <= k < |ts| ==> Readable(info, ts[k].offset) && ts[k] == TagAt(info, ts[k].offset) && ts[k].kind != TAG_END
    decreases total - at
  {
    if Continues(info, at, total) {
      WalkCons(info, at, total);
      var next := at + Step(TagAt(info, at).size);
      var ts := WalkFrom(info, at, total).tags;
      var rest := WalkFrom(info, next, total).tags;
      WalkReads(info, next, total);
      forall k | 0 <= k < |ts|
        ensures Readable(info, ts[k].offset) && ts[k] == TagAt(info, ts[k].offset) && ts[k].kind != TAG_END
      {
        if k > 0 {
          assert ts[k] == rest[k - 1];
        }
      }
    } else {
      WalkHalts(info, at, total);
    }
  }

  /** Why a walk that reaches `kernel_main` stopped, seen from where it
      looked last: at an end tag it found type 0 below `total`; otherwise
      it had reached `total`. */
  lemma {:induction false} WalkEnds(info: seq<byte>, at: nat, total: nat)
    ensures var w := WalkFrom(info, at, total);
      var n := Next(at, w.tags);
      && (w.stop == AtEndTag ==> n < total && n + 8 <= |info| && U32At(info, n) == TAG_END)
      && (w.stop == PastTotal ==> n >= total)
    decreases total - at
  {
    if Continues(info, at, total) {
      WalkCons(info, at, total);
      var next := at + Step(TagAt(info, at).size);
      var w := WalkFrom(info, at, total);
      var rest := WalkFrom(info, next, total);
      WalkEnds(info, next, total);
      NextCons(at, TagAt(info, at), rest.tags);
      assert Next(at, w.tags) == Next(next, rest.tags);
    } else {
      WalkHalts(info, at, total);
    }
  }

  /** Why a walk that never reaches `kernel_main` stopped: a stuck walk's
      last tag rounds to a step of zero, so the source revisits it forever;
      an overrun's next tag does not fit in the given bytes. */
  lemma {:induction false} WalkFails(info: seq<byte>, at: nat, total: nat)
    ensures var w := WalkFrom(info, at, total);
      var n := Next(at, w.tags);
      && (w.stop == Stuck ==> w.tags != [] && n == w.tags[|w.tags| - 1].offset)
      && (w.stop == Overrun ==> n < total && !Readable(info, n))
    decreases total - at
  {
    if Continues(info, at, total) {
      WalkCons(info, at, total);
      var next := at + Step(TagAt(info, at).size);
      var w := WalkFrom(info, at, total);
      var rest := WalkFrom(info, next, total);
      WalkFails(info, next, total);
      NextCons(at, TagAt(info, at), rest.tags);
      assert Next(at, w.tags) == Next(next, rest.tags);
    } else {
      WalkHalts(info, at, total);
    }
  }

  // ---------------------------------------------------------------------
  // Choosing the framebuffer

  /** Whether `_start64` keeps a framebuffer tag's values: direct RGB at a
      non-zero address with a non-zero width and at least 24 bits per
      pixel, or indexed colour at a non-zero address. */
  predicate Keeps(f: FbFields)
  {
    (f.fbType == FB_RGB && f.addr != 0 && f.width > 0 && f.bpp >= 24)
    || (f.fbType == FB_INDEXED && f.addr != 0)
  }

  /** One framebuffer tag's effect: its values, or VGA text mode for EGA
      text and for anything not kept. */
  function Select(f: FbFields): (fb: Framebuffer)
    ensures Keeps(f) ==> fb == Framebuffer(f.addr, f.width, f.height, f.pitch, f.bpp)
    ensures !Keeps(f) ==> fb == VGA_TEXT
  {
    if f.fbType == FB_RGB && f.addr != 0 && f.width > 0 && f.bpp >= 24 then Framebuffer(f.addr, f.width, f.height, f.pitch, f.bpp)
    else if f.fbType == FB_INDEXED && f.addr != 0 then Framebuffer(f.addr, f.width, f.height, f.pitch, f.bpp)
    else VGA_TEXT
  }

  /** The loop's framebuffer variables after the visited tags: each
      framebuffer tag overwrites them. */
  function Scan(tags: seq<Tag>, fb: Framebuffer): Framebuffer
  {
    if tags == [] then fb
    else Scan(tags[1..], if tags[0].fields.Some? then Select(tags[0].fields.value) else fb)
  }

  /** The fields of the last framebuffer tag among `tags`. */
  function LastFields(tags: seq<Tag>): (r: Option<FbFields>)
    ensures r.None? <==> forall k :: 0 <= k < |tags| ==> tags[k].fields.None?
  {
    if tags == [] then None
    else if tags[|tags| - 1].fields.Some? then tags[|tags| - 1].fields
    else LastFields(tags[..|tags| - 1])
  }

  /** Only the last framebuffer tag matters: the walk ends with its
      selection, or with the starting values when there is none. */
  lemma {:induction false} ScanIsLast(tags: seq<Tag>, fb: Framebuffer)
    ensures Scan(tags, fb) == (if LastFields(tags).Some? then Select(LastFields(tags).value) else fb)
    decreases |tags|
  {
    if tags != [] {
      var n := |tags| - 1;
      ScanSnoc(tags[..n], tags[n], fb);
      assert tags[..n] + [tags[n]] == tags;
      ScanIsLast(tags[..n], fb);
    }
  }

  lemma {:induction false} ScanSnoc(tags: seq<Tag>, t: Tag, fb: Framebuffer)
    ensures Scan(tags + [t], fb) == (if t.fields.Some? then Select(t.fields.value) else Scan(tags, fb))
    decreases |tags|
  {
    if tags == [] {
      assert [t][1..] == [];
    } else {
      var fb' := if tags[0].fields.Some? then Select(tags[0].fields.value) else fb;
      assert (tags + [t])[1..] == tags[1..] + [t];
      ScanSnoc(tags[1..], t, fb');
    }
  }

  /** What `_start64` hands to `kernel_main`, or that it never gets there. */
  datatype Entry = Boots(fb: Framebuffer) | Hangs | ReadsOutside

  /** The tags `_start64` visits in the boot information `info`. */
  function Tags(info: seq<byte>): Walk
    requires |info| >= 4
  {
    WalkFrom(info, FIRST_TAG, U32At(info, 0))
  }

  /** `_start64`'s framebuffer: VGA text mode without boot information,
      else what the tag walk leaves. */
  function BootFramebuffer(info: Option<seq<byte>>): (e: Entry)
    ensures info.None? ==> e == Boots(VGA_TEXT)
  {
    if info.None? then Boots(VGA_TEXT)
    else if |info.value| < 4 then ReadsOutside
    else
      var w := Tags(info.value);
      match w.stop
      case Stuck => Hangs
      case Overrun => ReadsOutside
      case _ => Boots(Scan(w.tags, VGA_TEXT))
  }

  /** The framebuffer handed on is VGA text mode or the values of the last
      framebuffer tag, and those only when `_start64` keeps them. */
  lemma BootFramebufferIs(info: seq<byte>)
    requires |info| >= 4 && BootFramebuffer(Some(info)).Boots?
    ensures var fb := BootFramebuffer(Some(info)).fb;
      var last := LastFields(Tags(info).tags);
      && (last.None? ==> fb == VGA_TEXT)
      && (last.Some? && Keeps(last.value) ==> fb == Framebuffer(last.value.addr, last.value.width, last.value.height, last.value.pitch, last.value.bpp))
      && (last.Some? && !Keeps(last.value) ==> fb == VGA_TEXT)
  {
    ScanIsLast(Tags(info).tags, VGA_TEXT);
  }

  // ---------------------------------------------------------------------
  // kernel_main

  /** `kernel_main`'s graphics condition. */
  predicate UsesGraphics(fb: Framebuffer)
  {
    fb.addr != VGA_ADDR && fb.width >= 640 && fb.height >= 480 && fb.bpp >= 8
  }

  /** Graphics comes up only from a framebuffer tag `_start64` kept, never
      from VGA text mode; and a kept RGB tag of at least 640x480 away from
      0xb8000 always brings it up. */
  lemma GraphicsNeedsTag(info: seq<byte>)
    requires |info| >= 4 && BootFramebuffer(Some(info)).Boots?
    ensures var fb := BootFramebuffer(Some(info)).fb;
      var last := LastFields(Tags(info).tags);
      && (UsesGraphics(fb) ==> last.Some? && Keeps(last.value) && fb.addr == last.value.addr)
      && ((last.Some? && last.value.fbType == FB_RGB && last.value.addr !in {0, VGA_ADDR}
           && last.value.width >= 640 && last.value.height >= 480 && last.value.bpp >= 24) ==> UsesGraphics(fb))
  {
    BootFramebufferIs(info);
  }

  /** `KERNEL_INITIALIZED.swap(true)`: whether this entry proceeds (the
      flag was clear), and the flag after it. */
  function Enter(initialized: bool): (r: (bool, bool))
    ensures r.1
  {
    (!initialized, true)
  }

  /** How many of `n` entries proceed, starting from the flag `initialized`. */
  function Proceeding(initialized: bool, n: nat): nat
    decreases n
  {
    if n == 0 then 0
    else var (go, flag) := Enter(initialized); (if go then 1 else 0) + Proceeding(flag, n - 1)
  }

  /** However often `kernel_main` is entered, it initialises the kernel at
      most once, and exactly once from a clear flag. */
  lemma {:induction false} EntersOnce(initialized: bool, n: nat)
    ensures Proceeding(initialized, n) == (if initialized || n == 0 then 0 else 1)
    decreases n
  {
    if n > 0 {
      EntersOnce(true, n - 1);
    }
  }

  // ---------------------------------------------------------------------
  // The decimal loop that prints the framebuffer geometry

  function Pow10(k: nat): (p: nat)
    ensures p >= 1
  {
    if k == 0 then 1 else 10 * Pow10(k - 1)
  }

  lemma {:induction false} DecimalFits(n: nat, k: nat)
    requires k >= 1 && n < Pow10(k)
    ensures |Text.Decimal(n)| <= k
  {
    if n >= 10 {
      DecimalFits(n / 10, k - 1);
    }
  }

  /** The loop of `_start64` that prints a `u32`: digits go into a 10-byte
      buffer from the back, and `buf[i..]` is printed. It is the decimal
      spelling of `w`, most significant digit first, without leading
      zeros. */
  method PrintU32(w: u32) returns (buf: seq<char>, i: nat)
    ensures |buf| == 10 && i < 10
    ensures buf[i..] == Text.Decimal(w)
  {
    assert Pow10(10) == 10_000_000_000;
    DecimalFits(w, 10);
    buf := seq(10, _ => '0');
    i := 9;
    var m: nat := w;
    while true
      invariant 0 <= i < 10 && |buf| == 10
      invariant |Text.Decimal(m)| <= i + 1
      invariant Text.Decimal(w) == Text.Decimal(m) + buf[i + 1..]
      decreases m
    {
      var d := Text.DigitChar(m % 10);
      var old_buf := buf;
      buf := buf[i := d];
      assert buf[i + 1..] == old_buf[i + 1..];
      if m < 10 {
        assert Text.Decimal(m) == [d];
        assert buf[i..] == [d] + buf[i + 1..];
        break;
      }
      assert Text.Decimal(m) == Text.Decimal(m / 10) + [d];
      assert buf[i..] == [d] + buf[i + 1..];
      m := m / 10;
      i := i - 1;
    }
  }
}
