/** Shared vocabulary of the kernel model: optional values, results carrying
    the kernel's static error strings, and fixed-width unsigned integers. */
module Common {

  /** The kernel's `Option<T>`. */
  datatype Option<+T> = None | Some(value: T)

  /** The kernel's `Result<T, &'static str>`: errors are the literal messages. */
  datatype Result<+T> = Ok(value: T) | Err(msg: string)

  /** `Result<(), &'static str>` */
  datatype Outcome = Done | Fail(msg: string)

  type byte = x: int | 0 <= x < 0x100
  type u16 = x: int | 0 <= x < 0x1_0000
  type u32 = x: int | 0 <= x < 0x1_0000_0000
  type u64 = x: int | 0 <= x < 0x1_0000_0000_0000_0000

  const U64_MODULUS: int := 0x1_0000_0000_0000_0000

  /** Rust's `wrapping_add` on u64 (and what `+=` does in a release build). */
  function WrappingAdd64(a: u64, b: u64): (r: u64)
    ensures a + b < U64_MODULUS ==> r == a + b
    ensures a + b >= U64_MODULUS ==> r == a + b - U64_MODULUS
  {
    if a + b < U64_MODULUS then a + b else a + b - U64_MODULUS
  }

  /** Rust's `wrapping_sub` on u64. */
  function WrappingSub64(a: u64, b: u64): (r: u64)
    ensures a >= b ==> r == a - b
    ensures a < b ==> r == a - b + U64_MODULUS
  {
    if a >= b then a - b else a - b + U64_MODULUS
  }

  /** Rust's `wrapping_mul` on u64 (and `*` in a release build). */
  function WrappingMul64(a: u64, b: u64): (r: u64)
    ensures a * b < U64_MODULUS ==> r == a * b
  {
    var p: nat := a * b;
    if p < U64_MODULUS then p else p % U64_MODULUS
  }

  /** Rust's `saturating_sub` on u64. */
  function SaturatingSub64(a: u64, b: u64): (r: u64)
    ensures a >= b ==> r == a - b
    ensures a < b ==> r == 0
  {
    if a >= b then a - b else 0
  }

  function Min(a: int, b: int): int { if a <= b then a else b }
  function Max(a: int, b: int): int { if a >= b then a else b }

  /** Sum of a sequence of naturals. */
  function Sum(xs: seq<nat>): nat
  {
    if xs == [] then 0 else xs[0] + Sum(xs[1..])
  }

  /** Number of occurrences of `x` in `s`. */
  function Count<T(==)>(s: seq<T>, x: T): nat
  {
    if s == [] then 0 else (if s[0] == x then 1 else 0) + Count(s[1..], x)
  }

  /** `Vec::retain(|e| e != x)`: the elements other than `x`, order kept. */
  function Without<T(==,!new)>(s: seq<T>, x: T): (r: seq<T>)
    ensures x !in r
    ensures forall y :: y in r <==> y in s && y != x
    ensures |r| == |s| - Count(s, x)
  {
    if s == [] then []
    else if s[0] == x then Without(s[1..], x)
    else [s[0]] + Without(s[1..], x)
  }

  /** `Without` keeps a sequence that does not contain `x` unchanged. */
  lemma {:induction false} WithoutAbsent<T(!new)>(s: seq<T>, x: T)
    requires x !in s
    ensures Without(s, x) == s
  {
    if s != [] {
      assert s[0] != x;
      WithoutAbsent(s[1..], x);
      assert s == [s[0]] + s[1..];
    }
  }

  lemma {:induction false} SumAppend(xs: seq<nat>, ys: seq<nat>)
    ensures Sum(xs + ys) == Sum(xs) + Sum(ys)
  {
    if xs != [] {
      assert (xs + ys)[0] == xs[0];
      assert (xs + ys)[1..] == xs[1..] + ys;
      SumAppend(xs[1..], ys);
    } else {
      assert xs + ys == ys;
    }
  }

  /** Number of elements of `s` satisfying `f`. */
  function CountWhere<T>(s: seq<T>, f: T -> bool): (n: nat)
    ensures n <= |s|
  {
    if s == [] then 0 else (if f(s[0]) then 1 else 0) + CountWhere(s[1..], f)
  }

  /** The count is zero exactly when no element satisfies `f`, and the
      whole length exactly when every element does. */
  lemma {:induction false} CountWhereExtremes<T>(s: seq<T>, f: T -> bool)
    ensures CountWhere(s, f) == 0 <==> forall i :: 0 <= i < |s| ==> !f(s[i])
    ensures CountWhere(s, f) == |s| <==> forall i :: 0 <= i < |s| ==> f(s[i])
  {
    if s != [] {
      CountWhereExtremes(s[1..], f);
      assert forall i :: 1 <= i < |s| ==> s[i] == s[1..][i - 1];
    }
  }

  /** Replacing one element changes the count by that element's part only. */
  lemma {:induction false} CountWhereUpdate<T>(s: seq<T>, f: T -> bool, i: nat, v: T)
    requires i < |s|
    ensures CountWhere(s[i := v], f) + (if f(s[i]) then 1 else 0)
         == CountWhere(s, f) + (if f(v) then 1 else 0)
  {
    if i > 0 {
      assert s[i := v][1..] == s[1..][i - 1 := v];
      CountWhereUpdate(s[1..], f, i - 1, v);
    }
  }

  /** Every element satisfying `f` contributes to the count; two distinct
      ones contribute two. */
  lemma {:induction false} CountWhereBound<T>(s: seq<T>, f: T -> bool, i: nat, j: nat)
    requires i < |s| && j < |s| && f(s[i]) && f(s[j])
    ensures CountWhere(s, f) >= 1
    ensures i != j ==> CountWhere(s, f) >= 2
  {
    if i > 0 && j > 0 {
      CountWhereBound(s[1..], f, i - 1, j - 1);
    } else if i > 0 {
      CountWhereBound(s[1..], f, i - 1, i - 1);
    } else if j > 0 {
      CountWhereBound(s[1..], f, j - 1, j - 1);
    }
  }

  // ---------------------------------------------------------------------
  // Little-endian integers

  /** 256 to the `n`: the number of values `n` bytes can hold. */
  function Pow256(n: nat): (p: nat)
    ensures p >= 1
    ensures n > 0 ==> p >= 256 && p % 256 == 0
  {
    if n == 0 then 1 else 256 * Pow256(n - 1)
  }

  /** The `n` low bytes of `v`, least significant first. */
  function LittleEndian(v: nat, n: nat): (r: seq<byte>)
    ensures |r| == n
  {
    if n == 0 then [] else [(v % 256) as byte] + LittleEndian(v / 256, n - 1)
  }

  /** The number whose little-endian bytes `b` are. */
  function FromLittleEndian(b: seq<byte>): (v: nat)
    ensures v < Pow256(|b|)
  {
    if b == [] then 0
    else
      var rest := FromLittleEndian(b[1..]);
      assert b[0] as nat + 256 * rest <= 255 + 256 * (Pow256(|b| - 1) - 1);
      b[0] as nat + 256 * rest
  }

  /** Writing `n` bytes of a number that fits and reading them back gives
      the number. */
  lemma {:induction false} LittleEndianRoundTrip(v: nat, n: nat)
    requires v < Pow256(n)
    ensures FromLittleEndian(LittleEndian(v, n)) == v
  {
    if n > 0 {
      var b := LittleEndian(v, n);
      assert b[1..] == LittleEndian(v / 256, n - 1);
      assert v / 256 < Pow256(n - 1);
      LittleEndianRoundTrip(v / 256, n - 1);
    }
  }

  // ---------------------------------------------------------------------
  // NUL-terminated fields

  // ---------------------------------------------------------------------
  // UTF-8: the well-formed byte sequences of table 3-7 of the Unicode
  // Standard, the ones `core::str::from_utf8` accepts

  predicate Continuation(b: byte) { 0x80 <= b <= 0xBF }

  /** The length of the well-formed UTF-8 sequence `s` starts with, or 0
      when it starts with none. */
  function Utf8Width(s: seq<byte>): (n: nat)
    ensures n <= |s| && n <= 4
    ensures n == 1 <==> s != [] && s[0] < 0x80
    ensures n > 1 ==> forall i :: 1 <= i < n ==> Continuation(s[i])
  {
    if s == [] then 0
    else if s[0] < 0x80 then 1
    else if 0xC2 <= s[0] <= 0xDF then
      (if |s| >= 2 && Continuation(s[1]) then 2 else 0)
    else if 0xE0 <= s[0] <= 0xEF then
      var lo := if s[0] == 0xE0 then 0xA0 else 0x80;
      var hi := if s[0] == 0xED then 0x9F else 0xBF;
      (if |s| >= 3 && lo <= s[1] <= hi && Continuation(s[2]) then 3 else 0)
    else if 0xF0 <= s[0] <= 0xF4 then
      var lo := if s[0] == 0xF0 then 0x90 else 0x80;
      var hi := if s[0] == 0xF4 then 0x8F else 0xBF;
      (if |s| >= 4 && lo <= s[1] <= hi && Continuation(s[2]) && Continuation(s[3]) then 4 else 0)
    else 0
  }

  /** `s` is a sequence of well-formed UTF-8 characters. */
  predicate Utf8(s: seq<byte>)
    decreases |s|
  {
    s == [] || (Utf8Width(s) > 0 && Utf8(s[Utf8Width(s)..]))
  }

  /** The width of the first character depends only on its own bytes. */
  lemma Utf8WidthPrefix(s: seq<byte>, t: seq<byte>)
    requires Utf8Width(s) > 0 && |t| >= Utf8Width(s)
    requires t[..Utf8Width(s)] == s[..Utf8Width(s)]
    ensures Utf8Width(t) == Utf8Width(s)
  {
    var n := Utf8Width(s);
    assert t[0] == s[0];
    if n >= 2 { assert t[1] == s[1]; }
    if n >= 3 { assert t[2] == s[2]; }
    if n >= 4 { assert t[3] == s[3]; }
  }

  /** ASCII text is well-formed UTF-8. */
  lemma {:induction false} AsciiUtf8(s: seq<byte>)
    requires forall i :: 0 <= i < |s| ==> s[i] < 0x80
    ensures Utf8(s)
  {
    if s != [] {
      AsciiUtf8(s[1..]);
    }
  }

  /** Cutting an ASCII byte off the end of well-formed UTF-8 leaves
      well-formed UTF-8: the byte is a character of its own. */
  lemma {:induction false} Utf8DropLast(s: seq<byte>)
    requires Utf8(s) && s != [] && s[|s| - 1] < 0x80
    ensures Utf8(s[..|s| - 1])
  {
    var n := Utf8Width(s);
    var t := s[..|s| - 1];
    if n < |s| {
      var rest := s[n..];
      assert rest[|rest| - 1] == s[|s| - 1];
      Utf8DropLast(rest);
      assert t[..n] == s[..n];
      Utf8WidthPrefix(s, t);
      assert t[n..] == rest[..|rest| - 1];
    } else if n > 1 {
      assert false;
    } else {
      assert t == [];
    }
  }

  /** The bytes of a fixed-size field before its first NUL. */
  function UntilNul(bs: seq<byte>): (s: seq<byte>)
    ensures |s| <= |bs|
    ensures forall i :: 0 <= i < |s| ==> s[i] != 0 && s[i] == bs[i]
    ensures |s| < |bs| ==> bs[|s|] == 0
  {
    if bs == [] || bs[0] == 0 then [] else [bs[0]] + UntilNul(bs[1..])
  }
}
