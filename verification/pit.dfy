/** The programmable interval timer and the PC speaker
    (kernel/src/arch/x86_64/pit.rs). The tick count and the timer frequency
    are a value; the port writes `init` and `speaker_on` make are returned
    as a list. */
module Pit {
  import opened Common

  /** The PIT's input clock, 1.193182 MHz. */
  const PIT_FREQUENCY: nat := 1193182

  const PIT_CH0_DATA: u16 := 0x40
  const PIT_CH2_DATA: u16 := 0x42
  const PIT_CMD: u16 := 0x43
  const SPEAKER_PORT: u16 := 0x61

  /** Channel 0, low byte then high byte, square wave; channel 2 the same. */
  const MODE_CH0: byte := 0x36
  const MODE_CH2: byte := 0xB6

  /** The largest value a `u64` holds. */
  const U64_MAX: nat := 0xFFFF_FFFF_FFFF_FFFF

  /** `TICK_COUNT` and `TIMER_FREQ`. */
  datatype Timer = Timer(ticks: u64, freq: u32)

  /** The statics before `init`: no ticks, 1000 Hz. */
  const BOOT: Timer := Timer(0, 1000)

  datatype PortWrite = PortWrite(port: u16, value: byte)

  /** `PIT_FREQUENCY / freq`; the source divides by zero when `freq` is 0. */
  function Divisor(freq: u32): u32
    requires freq > 0
  {
    PIT_FREQUENCY / freq
  }

  /** The two bytes of a divisor, low then high: `divisor & 0xFF` and
      `(divisor >> 8) & 0xFF`. */
  function DivisorBytes(d: u32): (b: (byte, byte))
  {
    (d % 256, (d / 256) % 256)
  }

  /** The 16-bit reload value a counter takes from its low and high bytes;
      `read_count` assembles a latched count the same way. */
  function Reload(lo: byte, hi: byte): u16
  {
    lo + 256 * hi
  }

  /** `init`: records the frequency and programs channel 0. */
  function Init(t: Timer, freq: u32): (r: (Timer, seq<PortWrite>))
    requires freq > 0
    ensures r.0 == t.(freq := freq)
    ensures |r.1| == 3 && r.1[0] == PortWrite(PIT_CMD, MODE_CH0)
    ensures r.1[1].port == r.1[2].port == PIT_CH0_DATA
  {
    var (lo, hi) := DivisorBytes(Divisor(freq));
    (t.(freq := freq), [PortWrite(PIT_CMD, MODE_CH0), PortWrite(PIT_CH0_DATA, lo), PortWrite(PIT_CH0_DATA, hi)])
  }

  /** The divisor is the number of input cycles per requested tick,
      rounded down: `freq` ticks of that many cycles fit in one second of
      the input clock, and one more cycle each would not. */
  lemma DivisorMeans(freq: u32)
    requires freq > 0
    ensures freq * Divisor(freq) <= PIT_FREQUENCY < freq * (Divisor(freq) + 1)
  {
    DivFloor(PIT_FREQUENCY, freq);
  }

  /** The two bytes `init` writes reassemble to the divisor's low 16 bits:
      the whole divisor from 19 Hz up, a truncated one below, where the
      divisor no longer fits the counter. */
  lemma InitProgramsDivisor(t: Timer, freq: u32)
    requires freq > 0
    ensures var w := Init(t, freq).1;
      && Reload(w[1].value, w[2].value) == Divisor(freq) % 0x1_0000
      && (freq >= 19 ==> Reload(w[1].value, w[2].value) == Divisor(freq))
      && (freq < 19 ==> Reload(w[1].value, w[2].value) != Divisor(freq))
  {
    var d := Divisor(freq);
    ByteSplit(d);
    if freq >= 19 {
      DivisorAtLeast19(freq);
    } else {
      MulLe(freq, 18, 0x1_0000);
      QuotAtMost(PIT_FREQUENCY, freq, 0x1_0000);
    }
  }

  lemma ByteSplit(d: u32)
    ensures Reload(DivisorBytes(d).0, DivisorBytes(d).1) == d % 0x1_0000
  {
    var lo := d % 256;
    var h := d / 256;
    DivMod(d, 256);
    DivMod(h, 256);
    ModUnique(d, 0x1_0000, h / 256, lo + 256 * (h % 256));
  }

  lemma DivisorAtLeast19(freq: u32)
    requires freq >= 19
    ensures Divisor(freq) <= 0xFFFF
  {
    DivFloor(PIT_FREQUENCY, freq);
    MulLe(19, freq, Divisor(freq));
  }

  /** `tick`: one more tick, the `u64` counter wrapping. */
  function Tick(t: Timer): (r: Timer)
    ensures r.freq == t.freq
    ensures t.ticks < U64_MAX ==> r.ticks == t.ticks + 1
    ensures t.ticks == U64_MAX ==> r.ticks == 0
  {
    t.(ticks := WrappingAdd64(t.ticks, 1))
  }

  /** `uptime_ms`: `ticks * 1000 / freq`, the product in `u64`. */
  function UptimeMs(t: Timer): u64
    requires t.freq > 0
  {
    WrappingMul64(t.ticks, 1000) / t.freq
  }

  /** `uptime_secs`: `ticks / freq`. */
  function UptimeSecs(t: Timer): u64
    requires t.freq > 0
  {
    t.ticks / t.freq
  }

  /** Until the product overflows (about 584 000 years at 1000 Hz), the
      uptime in milliseconds is the elapsed time `ticks / freq` seconds
      rounded down to a millisecond. */
  lemma UptimeMsMeans(t: Timer)
    requires t.freq > 0 && t.ticks * 1000 <= U64_MAX
    ensures UptimeMs(t) * t.freq <= t.ticks * 1000 < (UptimeMs(t) + 1) * t.freq
  {
    assert WrappingMul64(t.ticks, 1000) == t.ticks * 1000;
    DivFloor(t.ticks * 1000, t.freq);
  }

  /** The two uptimes agree: whole seconds are the milliseconds divided by
      1000. */
  lemma UptimesAgree(t: Timer)
    requires t.freq > 0 && t.ticks * 1000 <= U64_MAX
    ensures UptimeMs(t) / 1000 == UptimeSecs(t)
  {
    assert WrappingMul64(t.ticks, 1000) == t.ticks * 1000;
    NestedDiv(t.ticks, t.freq);
  }

  /** Dividing by `f` then by 1000 is dividing by `1000 * f`. */
  lemma NestedDiv(a: nat, f: nat)
    requires f > 0
    ensures (a * 1000) / f / 1000 == a / f
  {
    var q := a / f;
    var r := a % f;
    DivMod(a, f);
    var extra := (1000 * r) / f;
    var m := (1000 * r) % f;
    DivMod(1000 * r, f);
    MulLtCancel(extra, 1000, f);
    Regroup(q, f, r, extra, m);
    DivUnique(a * 1000, f, 1000 * q + extra, m);
  }

  // Division facts the uptime lemmas rest on.

  lemma MulLe(a: nat, b: nat, c: nat)
    requires a <= b
    ensures a * c <= b * c
  {
  }

  lemma MulLtCancel(x: nat, y: nat, b: nat)
    requires x * b < y * b
    ensures x < y
  {
  }

  lemma DivMod(a: nat, b: nat)
    requires b > 0
    ensures a == (a / b) * b + a % b && a % b < b
  {
  }

  lemma Regroup(q: nat, f: nat, r: nat, extra: nat, m: nat)
    requires 1000 * r == extra * f + m
    ensures (q * f + r) * 1000 == (1000 * q + extra) * f + m
  {
  }

  lemma DivFloor(a: nat, b: nat)
    requires b > 0
    ensures (a / b) * b <= a < (a / b + 1) * b
  {
  }

  lemma QuotAtMost(a: nat, b: nat, q: nat)
    requires b > 0 && q * b <= a
    ensures q <= a / b
  {
    DivFloor(a, b);
    MulLtCancel(q, a / b + 1, b);
  }

  lemma ModUnique(a: nat, b: nat, q: nat, r: nat)
    requires b > 0 && a == q * b + r && r < b
    ensures a % b == r
  {
    DivUnique(a, b, q, r);
    DivMod(a, b);
  }

  /** Euclidean division has one answer. */
  lemma DivUnique(a: nat, b: nat, q: nat, r: nat)
    requires b > 0 && a == q * b + r && r < b
    ensures a / b == q
  {
    QuotAtMost(a, b, q);
    DivFloor(a, b);
    MulLtCancel(a / b, q + 1, b);
  }

  lemma DivMonotone(a: nat, b: nat, d: nat)
    requires a <= b && d > 0
    ensures a / d <= b / d
  {
    var q := a / d;
    DivFloor(a, d);
    assert q * d <= b;
    QuotAtMost(b, d, q);
  }

  /** At the default 1000 Hz a tick is a millisecond. */
  lemma UptimeAtDefaultRate(t: Timer)
    requires t.freq == 1000 && t.ticks * 1000 <= U64_MAX
    ensures UptimeMs(t) == t.ticks
    ensures UptimeSecs(t) == t.ticks / 1000
  {
    assert WrappingMul64(t.ticks, 1000) == t.ticks * 1000;
  }

  /** A tick never moves either uptime back, short of the overflow. */
  lemma TickAdvances(t: Timer)
    requires t.freq > 0 && (t.ticks + 1) * 1000 <= U64_MAX
    ensures UptimeMs(t) <= UptimeMs(Tick(t)) && UptimeSecs(t) <= UptimeSecs(Tick(t))
  {
    var n := Tick(t);
    assert WrappingMul64(t.ticks, 1000) == t.ticks * 1000;
    assert WrappingMul64(n.ticks, 1000) == n.ticks * 1000;
    DivMonotone(t.ticks * 1000, n.ticks * 1000, t.freq);
    DivMonotone(t.ticks, n.ticks, t.freq);
  }

  /** `read_count`: the latched count from its low and high bytes. */
  lemma ReadCountRoundTrip(c: u16)
    ensures Reload(c % 256, c / 256) == c
  {
  }

  // ---------------------------------------------------------------------
  // PC speaker

  /** Bits 0 and 1 of port 0x61: the timer-2 gate and the speaker data
      enable. */
  const SPEAKER_BITS: bv8 := 0x03

  /** `speaker_on`: channel 2 gets the divisor for `freq`, then port 0x61
      is written back with both speaker bits set. */
  function SpeakerOn(freq: u32, port61: bv8): (r: (seq<PortWrite>, bv8))
    requires freq > 0
    ensures |r.0| == 3 && r.0[0] == PortWrite(PIT_CMD, MODE_CH2)
    ensures r.0[1].port == r.0[2].port == PIT_CH2_DATA
    ensures Reload(r.0[1].value, r.0[2].value) == Divisor(freq) % 0x1_0000
  {
    var (lo, hi) := DivisorBytes(Divisor(freq));
    ByteSplit(Divisor(freq));
    ([PortWrite(PIT_CMD, MODE_CH2), PortWrite(PIT_CH2_DATA, lo), PortWrite(PIT_CH2_DATA, hi)], port61 | 0x03)
  }

  /** `speaker_off`: port 0x61 written back with both speaker bits clear. */
  function SpeakerOff(port61: bv8): bv8
  {
    port61 & 0xFC
  }

  /** Turning the speaker on sets both speaker bits and turning it off
      clears them; neither touches the other six bits of port 0x61. */
  lemma SpeakerBits(freq: u32, v: bv8)
    requires freq > 0
    ensures SpeakerOn(freq, v).1 & SPEAKER_BITS == SPEAKER_BITS
    ensures SpeakerOff(v) & SPEAKER_BITS == 0
    ensures SpeakerOn(freq, v).1 & !SPEAKER_BITS == v & !SPEAKER_BITS
    ensures SpeakerOff(v) & !SPEAKER_BITS == v & !SPEAKER_BITS
  {
  }

  /** Off after on gives back a port that had the speaker off, and each is
      idempotent. */
  lemma SpeakerOnOff(freq: u32, v: bv8)
    requires freq > 0
    ensures v & SPEAKER_BITS == 0 ==> SpeakerOff(SpeakerOn(freq, v).1) == v
    ensures SpeakerOff(SpeakerOff(v)) == SpeakerOff(v)
    ensures SpeakerOn(freq, SpeakerOn(freq, v).1).1 == SpeakerOn(freq, v).1
  {
  }
}
