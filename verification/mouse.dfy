/** The PS/2 mouse packet decoder (kernel/src/drivers/mouse.rs): bytes
    from the data port are collected into packets of three bytes, or four
    with a scroll wheel, and each complete packet updates the buttons, the
    wheel delta and the clamped pointer position. The controller setup is
    not modelled; whether a wheel was detected is a field of the state. */
module Mouse {
  /** `MouseState`. `bytes` is the four-byte packet array. Coordinates and
      the screen size are Rust `i32`s, kept as integers. */
  datatype Mouse = Mouse(
    x: int, y: int,
    buttons: bv8, left: bool, right: bool, middle: bool,
    scrollDelta: int,
    width: int, height: int,
    cycle: nat, bytes: seq<bv8>,
    wheel: bool)

  const INITIAL: Mouse := Mouse(400, 300, 0, false, false, false, 0, 800, 600, 0, [0, 0, 0, 0], false)

  function PacketSize(wheel: bool): nat { if wheel then 4 else 3 }

  /** What the driver keeps true: the packet array has four bytes, the
      cycle is inside a packet, the screen is non-empty and the pointer is
      on it, and the wheel delta is an `i8`. */
  predicate Ok(m: Mouse)
  {
    && |m.bytes| == 4 && m.cycle < PacketSize(m.wheel)
    && m.width >= 1 && m.height >= 1
    && 0 <= m.x < m.width && 0 <= m.y < m.height
    && -128 <= m.scrollDelta < 128
  }

  lemma InitialOk()
    ensures Ok(INITIAL) && INITIAL.x * 2 == INITIAL.width && INITIAL.y * 2 == INITIAL.height
  {
  }

  /** Rust's `i32 / 2`, which rounds toward zero. */
  function Half(w: int): int
  {
    if w >= 0 then w / 2 else -((-w) / 2)
  }

  /** `set_screen_size`: the new size, with the pointer in its centre. */
  function SetScreenSize(m: Mouse, w: int, h: int): (r: Mouse)
    ensures r.width == w && r.height == h
    ensures w >= 1 ==> 0 <= r.x < w && (r.x * 2 == w || r.x * 2 + 1 == w)
    ensures h >= 1 ==> 0 <= r.y < h && (r.y * 2 == h || r.y * 2 + 1 == h)
    ensures r.(x := m.x, y := m.y, width := m.width, height := m.height) == m
  {
    m.(width := w, height := h, x := Half(w), y := Half(h))
  }

  lemma SetScreenSizeOk(m: Mouse, w: int, h: int)
    requires Ok(m) && w >= 1 && h >= 1
    ensures Ok(SetScreenSize(m, w, h))
  {
  }

  /** `enable_scroll_wheel`. */
  function EnableWheel(m: Mouse): (r: Mouse)
    ensures r.wheel && r.(wheel := m.wheel) == m
  {
    m.(wheel := true)
  }

  /** A byte as Rust's `i8`. */
  function AsI8(b: bv8): (r: int)
    ensures -128 <= r < 128
    ensures r == b as int || r == b as int - 256
  {
    if b < 0x80 then b as int else b as int - 256
  }

  /** A 32-bit pattern read as `i32`. */
  function AsI32(v: bv32): int
  {
    if v < 0x8000_0000 then v as int else v as int - 0x1_0000_0000
  }

  /** The movement bytes: zero-extended to `i32`, with the upper bits all
      set when the packet's sign bit for that axis is on. */
  function Extend(b: bv8, negative: bool): int
  {
    var d := b as bv32;
    AsI32(if negative then d | !0xFF else d)
  }

  /** Sign extension makes the byte and the sign bit a nine-bit two's
      complement number, so each movement lies in [-256, 255]. */
  lemma ExtendIsNineBit(b: bv8, negative: bool)
    ensures Extend(b, negative) == b as int - (if negative then 256 else 0)
    ensures -256 <= Extend(b, negative) <= 255
  {
    var d := b as bv32;
    if negative {
      assert d | !0xFF == d + 0xFFFF_FF00;
      assert (d + 0xFFFF_FF00) as int == d as int + 0xFFFF_FF00;
    }
  }

  /** The clamping of `process_byte`: below zero goes to zero, then at or
      past the edge goes to the last position. */
  function Clamp(v: int, size: int): int
  {
    var a := if v < 0 then 0 else v;
    if a >= size then size - 1 else a
  }

  lemma ClampInside(v: int, size: int)
    requires size >= 1
    ensures 0 <= Clamp(v, size) < size
    ensures 0 <= v < size ==> Clamp(v, size) == v
    ensures v < 0 ==> Clamp(v, size) == 0
    ensures v >= size ==> Clamp(v, size) == size - 1
  {
  }

  /** A complete packet, whose bytes are `p`: packets with an overflow bit
      are dropped; otherwise the buttons come from the low three flag bits,
      the wheel from the fourth byte, and the pointer moves by the
      sign-extended deltas, up the screen for a positive y. */
  function Packet(m: Mouse, p: seq<bv8>): Mouse
    requires |p| == 4
  {
    var flags := p[0];
    var m0 := m.(cycle := 0, bytes := p);
    if flags & 0xC0 != 0 then m0
    else
      var dx := Extend(p[1], flags & 0x10 != 0);
      var dy := Extend(p[2], flags & 0x20 != 0);
      m0.(buttons := flags & 0x07,
          left := flags & 0x01 != 0, right := flags & 0x02 != 0, middle := flags & 0x04 != 0,
          scrollDelta := if m.wheel then AsI8(p[3]) else 0,
          x := Clamp(m.x + dx, m.width), y := Clamp(m.y - dy, m.height))
  }

  /** `process_byte`: a first byte without bit 3 set is out of sync and
      skipped; otherwise the byte is stored, and the last byte of a packet
      completes it. */
  function ProcessByte(m: Mouse, b: bv8): (r: Mouse)
    requires |m.bytes| == 4 && m.cycle < 4
    ensures |r.bytes| == 4 && r.cycle < 4
  {
    if m.cycle == 0 && b & 0x08 == 0 then m
    else
      var p := m.bytes[m.cycle := b];
      if m.cycle + 1 >= PacketSize(m.wheel) then Packet(m, p)
      else m.(bytes := p, cycle := m.cycle + 1)
  }

  /** A byte that cannot start a packet changes nothing. */
  lemma UnsyncedByteDropped(m: Mouse, b: bv8)
    requires |m.bytes| == 4 && m.cycle == 0 && b & 0x08 == 0
    ensures ProcessByte(m, b) == m
  {
  }

  /** The cycle counts the bytes of the packet so far: it stays below the
      packet size, goes up by one for a stored byte, and is zero again
      after the packet's last byte. */
  lemma CycleCounts(m: Mouse, b: bv8)
    requires Ok(m) && !(m.cycle == 0 && b & 0x08 == 0)
    ensures var r := ProcessByte(m, b);
      && r.cycle < PacketSize(r.wheel)
      && r.bytes[m.cycle] == b
      && (m.cycle + 1 < PacketSize(m.wheel) ==> r.cycle == m.cycle + 1 && r.x == m.x && r.y == m.y)
      && (m.cycle + 1 == PacketSize(m.wheel) ==> r.cycle == 0)
  {
  }

  /** A packet with an overflow bit moves nothing and presses nothing. */
  lemma OverflowIgnored(m: Mouse, p: seq<bv8>)
    requires |p| == 4 && p[0] & 0xC0 != 0
    ensures var r := Packet(m, p);
      && r.x == m.x && r.y == m.y && r.scrollDelta == m.scrollDelta
      && r.buttons == m.buttons && r.left == m.left && r.right == m.right && r.middle == m.middle
  {
  }

  /** A good packet sets the buttons from flag bits 0, 1 and 2. */
  lemma PacketButtons(m: Mouse, p: seq<bv8>)
    requires |p| == 4 && p[0] & 0xC0 == 0
    ensures var r := Packet(m, p);
      && r.buttons == p[0] & 0x07
      && r.left == (p[0] & 0x01 == 0x01) && r.right == (p[0] & 0x02 == 0x02) && r.middle == (p[0] & 0x04 == 0x04)
      && r.scrollDelta == (if m.wheel then AsI8(p[3]) else 0)
  {
  }

  /** A good packet moves the pointer by its nine-bit deltas, up the
      screen for a positive y, clamped to the screen. */
  lemma PacketMoves(m: Mouse, p: seq<bv8>)
    requires m.width >= 1 && m.height >= 1 && |p| == 4 && p[0] & 0xC0 == 0
    ensures var r := Packet(m, p);
      var dx := p[1] as int - (if p[0] & 0x10 != 0 then 256 else 0);
      var dy := p[2] as int - (if p[0] & 0x20 != 0 then 256 else 0);
      && r.x == Clamp(m.x + dx, m.width) && r.y == Clamp(m.y - dy, m.height)
      && 0 <= r.x < m.width && 0 <= r.y < m.height
      && (0 <= m.x + dx < m.width ==> r.x == m.x + dx)
      && (0 <= m.y - dy < m.height ==> r.y == m.y - dy)
      && -256 <= dx <= 255 && -256 <= dy <= 255
  {
    var nx, ny := p[0] & 0x10 != 0, p[0] & 0x20 != 0;
    ExtendIsNineBit(p[1], nx);
    ExtendIsNineBit(p[2], ny);
    var dx := p[1] as int - (if nx then 256 else 0);
    var dy := p[2] as int - (if ny then 256 else 0);
    var r := Packet(m, p);
    assert r.x == Clamp(m.x + Extend(p[1], nx), m.width);
    assert r.y == Clamp(m.y - Extend(p[2], ny), m.height);
    ClampInside(m.x + dx, m.width);
    ClampInside(m.y - dy, m.height);
  }

  /** Every byte keeps the driver's invariant: the pointer never leaves
      the screen. */
  lemma ProcessByteOk(m: Mouse, b: bv8)
    requires Ok(m)
    ensures Ok(ProcessByte(m, b))
  {
    if !(m.cycle == 0 && b & 0x08 == 0) && m.cycle + 1 >= PacketSize(m.wheel) {
      var p := m.bytes[m.cycle := b];
      if p[0] & 0xC0 == 0 {
        PacketMoves(m, p);
      }
    }
  }

  /** `get_scroll_delta`: the delta, which is then cleared. */
  function TakeScroll(m: Mouse): (r: (int, Mouse))
    ensures r.0 == m.scrollDelta && r.1.scrollDelta == 0
    ensures r.1.(scrollDelta := m.scrollDelta) == m
  {
    (m.scrollDelta, m.(scrollDelta := 0))
  }

  /** Reading the wheel twice gives zero the second time. */
  lemma TakeScrollTwice(m: Mouse)
    ensures TakeScroll(TakeScroll(m).1).0 == 0
    ensures TakeScroll(TakeScroll(m).1).1 == TakeScroll(m).1
  {
  }
}
