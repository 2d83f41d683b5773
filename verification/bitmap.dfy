/** Bitmaps packed eight to a byte, least significant bit first: bit `i`
    lives in byte `i / 8` at position `i % 8`. Both the physical frame
    allocator (kernel/src/mm/physical.rs) and CottonFS
    (kernel/src/fs/cottonfs.rs) keep their maps this way. Indices whose
    byte lies outside the map read as clear, and setting or clearing them
    does nothing. */
module Bitmap {
  import opened Common

  /** `1 << k` for a bit position within a byte. */
  function Mask(k: nat): bv8
    requires k < 8
  {
    (1 as bv8) << k
  }

  /** Bit `k` of one byte, tested as `(byte >> k) & 1 == 1`. */
  predicate BitOf(x: bv8, k: nat)
    requires k < 8
  {
    (x >> k) & 1 == 1
  }

  /** The other way the source tests a bit, `byte & (1 << k) != 0`,
      agrees. */
  lemma BitTestForms(x: bv8, k: nat)
    requires k < 8
    ensures BitOf(x, k) <==> (x & Mask(k) != 0)
  {
  }

  lemma BitOfOr(x: bv8, k: nat, m: nat)
    requires k < 8 && m < 8
    ensures BitOf(x | Mask(k), m) <==> (k == m || BitOf(x, m))
  {
  }

  lemma BitOfAndNot(x: bv8, k: nat, m: nat)
    requires k < 8 && m < 8
    ensures BitOf(x & !Mask(k), m) <==> (k != m && BitOf(x, m))
  {
  }

  lemma BitOfConstants(k: nat)
    requires k < 8
    ensures !BitOf(0, k) && BitOf(0xFF, k)
  {
  }

  predicate InRange(bm: seq<bv8>, i: nat) { i / 8 < |bm| }

  /** `get_bit`. */
  predicate GetBit(bm: seq<bv8>, i: nat)
  {
    InRange(bm, i) && BitOf(bm[i / 8], i % 8)
  }

  /** `set_bit`: one byte changes, by OR-ing in the bit's mask. */
  function SetBit(bm: seq<bv8>, i: nat): (r: seq<bv8>)
    ensures |r| == |bm|
    ensures InRange(bm, i) ==> GetBit(r, i)
    ensures !InRange(bm, i) ==> r == bm
  {
    if InRange(bm, i) then
      BitOfOr(bm[i / 8], i % 8, i % 8);
      bm[i / 8 := bm[i / 8] | Mask(i % 8)]
    else bm
  }

  /** `clear_bit`: one byte changes, by AND-ing with the inverted mask. */
  function ClearBit(bm: seq<bv8>, i: nat): (r: seq<bv8>)
    ensures |r| == |bm|
    ensures !GetBit(r, i)
    ensures !InRange(bm, i) ==> r == bm
  {
    if InRange(bm, i) then
      BitOfAndNot(bm[i / 8], i % 8, i % 8);
      bm[i / 8 := bm[i / 8] & !Mask(i % 8)]
    else bm
  }

  /** Two indices in the same byte at the same position are equal. */
  lemma SamePosition(i: nat, j: nat)
    requires i / 8 == j / 8
    ensures i % 8 == j % 8 <==> i == j
  {
    assert i == 8 * (i / 8) + i % 8;
    assert j == 8 * (j / 8) + j % 8;
  }

  /** Setting bit `i` makes it read true and leaves every other bit as it
      was; out-of-range indices read false throughout. */
  lemma GetSetBit(bm: seq<bv8>, i: nat, j: nat)
    ensures GetBit(SetBit(bm, i), j) <==> (j == i && InRange(bm, i)) || GetBit(bm, j)
  {
    if InRange(bm, i) && InRange(bm, j) {
      var r := SetBit(bm, i);
      if j / 8 == i / 8 {
        BitOfOr(bm[i / 8], i % 8, j % 8);
        SamePosition(i, j);
      } else {
        assert r[j / 8] == bm[j / 8];
      }
    }
  }

  /** Clearing bit `i` makes it read false and leaves every other bit as it
      was. */
  lemma GetClearBit(bm: seq<bv8>, i: nat, j: nat)
    ensures GetBit(ClearBit(bm, i), j) <==> j != i && GetBit(bm, j)
  {
    if InRange(bm, i) && InRange(bm, j) {
      var r := ClearBit(bm, i);
      if j / 8 == i / 8 {
        BitOfAndNot(bm[i / 8], i % 8, j % 8);
        SamePosition(i, j);
      } else {
        assert r[j / 8] == bm[j / 8];
      }
    }
  }

  /** Number of set bits among indices `0 .. n - 1`. */
  function CountSet(bm: seq<bv8>, n: nat): (c: nat)
    ensures c <= n
  {
    if n == 0 then 0 else CountSet(bm, n - 1) + (if GetBit(bm, n - 1) then 1 else 0)
  }

  /** Maps that agree on every bit below `n` except possibly `i` differ in
      count by `i`'s contribution alone. */
  lemma {:induction false} CountSetExcept(a: seq<bv8>, b: seq<bv8>, i: nat, n: nat)
    requires forall j: nat :: j < n && j != i ==> GetBit(a, j) == GetBit(b, j)
    ensures CountSet(b, n) + (if i < n && GetBit(a, i) then 1 else 0)
         == CountSet(a, n) + (if i < n && GetBit(b, i) then 1 else 0)
  {
    if n > 0 {
      CountSetExcept(a, b, i, n - 1);
    }
  }

  /** Setting a clear bit below `n` adds one to the count; anything else
      leaves it. */
  lemma CountAfterSet(bm: seq<bv8>, i: nat, n: nat)
    ensures CountSet(SetBit(bm, i), n)
         == CountSet(bm, n) + (if i < n && InRange(bm, i) && !GetBit(bm, i) then 1 else 0)
  {
    forall j: nat | j < n && j != i ensures GetBit(bm, j) == GetBit(SetBit(bm, i), j) {
      GetSetBit(bm, i, j);
    }
    GetSetBit(bm, i, i);
    CountSetExcept(bm, SetBit(bm, i), i, n);
  }

  /** Clearing a set bit below `n` removes one from the count; anything
      else leaves it. */
  lemma CountAfterClear(bm: seq<bv8>, i: nat, n: nat)
    ensures CountSet(ClearBit(bm, i), n) + (if i < n && GetBit(bm, i) then 1 else 0) == CountSet(bm, n)
  {
    forall j: nat | j < n && j != i ensures GetBit(bm, j) == GetBit(ClearBit(bm, i), j) {
      GetClearBit(bm, i, j);
    }
    GetClearBit(bm, i, i);
    CountSetExcept(bm, ClearBit(bm, i), i, n);
  }

  /** A map of all-ones bytes has every in-range bit set. */
  lemma {:induction false} CountFull(bm: seq<bv8>, n: nat)
    requires forall k :: 0 <= k < |bm| ==> bm[k] == 0xFF
    requires n <= 8 * |bm|
    ensures CountSet(bm, n) == n
  {
    if n > 0 {
      CountFull(bm, n - 1);
      var i := n - 1;
      BitOfConstants(i % 8);
      assert bm[i / 8] == 0xFF;
    }
  }

  /** A map of all-zero bytes has no bit set. */
  lemma {:induction false} CountEmpty(bm: seq<bv8>, n: nat)
    requires forall k :: 0 <= k < |bm| ==> bm[k] == 0
    ensures CountSet(bm, n) == 0
  {
    if n > 0 {
      CountEmpty(bm, n - 1);
      var i := n - 1;
      if InRange(bm, i) {
        BitOfConstants(i % 8);
        assert bm[i / 8] == 0;
      }
    }
  }

  /** Bits `m .. n - 1` all set add exactly `n - m` to the count. */
  lemma {:induction false} CountSetTail(bm: seq<bv8>, m: nat, n: nat)
    requires m <= n
    requires forall j: nat :: m <= j < n ==> GetBit(bm, j)
    ensures CountSet(bm, n) == CountSet(bm, m) + (n - m)
    decreases n - m
  {
    if m < n {
      CountSetTail(bm, m, n - 1);
    }
  }

  /** A clear bit below `n` keeps the count below `n`. */
  lemma {:induction false} CountSetClear(bm: seq<bv8>, j: nat, n: nat)
    requires j < n && !GetBit(bm, j)
    ensures CountSet(bm, n) < n
  {
    if j < n - 1 {
      CountSetClear(bm, j, n - 1);
    }
  }

  /** All of the first `n` bits are set exactly when `n` of them are. */
  lemma CountSetFull(bm: seq<bv8>, n: nat)
    ensures CountSet(bm, n) == n <==> forall j: nat :: j < n ==> GetBit(bm, j)
  {
    if forall j: nat :: j < n ==> GetBit(bm, j) {
      CountSetTail(bm, 0, n);
    } else {
      var j: nat :| j < n && !GetBit(bm, j);
      CountSetClear(bm, j, n);
    }
  }

  lemma OrThenAndNot(x: bv8, k: nat)
    requires k < 8 && !BitOf(x, k)
    ensures (x | Mask(k)) & !Mask(k) == x
  {
  }

  /** Clearing a bit just set, that was clear before, gives the map back. */
  lemma ClearSetBit(bm: seq<bv8>, i: nat)
    requires !GetBit(bm, i)
    ensures ClearBit(SetBit(bm, i), i) == bm
  {
    if InRange(bm, i) {
      OrThenAndNot(bm[i / 8], i % 8);
      assert ClearBit(SetBit(bm, i), i) == bm[i / 8 := bm[i / 8]];
    }
  }

  /** A map of all-zero bytes reads clear everywhere. */
  lemma ZerosClear(bm: seq<bv8>, i: nat)
    requires forall k :: 0 <= k < |bm| ==> bm[k] == 0
    ensures !GetBit(bm, i)
  {
    if InRange(bm, i) {
      BitOfConstants(i % 8);
      assert bm[i / 8] == 0;
    }
  }

  /** A map of all-ones bytes reads set everywhere in range. */
  lemma OnesSet(bm: seq<bv8>, i: nat)
    requires forall k :: 0 <= k < |bm| ==> bm[k] == 0xFF
    ensures GetBit(bm, i) <==> InRange(bm, i)
  {
    if InRange(bm, i) {
      BitOfConstants(i % 8);
      assert bm[i / 8] == 0xFF;
    }
  }

  /** The smallest index in `[from, to)` whose bit is clear, if any. */
  function FirstClear(bm: seq<bv8>, from: nat, to: nat): (r: Option<nat>)
    ensures r.Some? ==> from <= r.value < to && !GetBit(bm, r.value)
    ensures r.Some? ==> forall j :: from <= j < r.value ==> GetBit(bm, j)
    ensures r.None? ==> forall j :: from <= j < to ==> GetBit(bm, j)
    decreases if to > from then to - from else 0
  {
    if from >= to then None
    else if !GetBit(bm, from) then Some(from)
    else FirstClear(bm, from + 1, to)
  }
}
