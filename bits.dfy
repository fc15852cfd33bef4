/**
 * BIT and MASK of flash-fuse-common.h over 32-bit words.
 *
 * A bit position is a `bv32` below 32, so that statements about single bits stay
 * inside bit-vector arithmetic.
 */
module Bits {

  type Word = bv32

  type Index = k: bv32 | k < 32

  /** True when bit `k` of `w` is set. */
  predicate HasBit(w: Word, k: Index)
  {
    (w >> k) & 1 == 1
  }

  /** `BIT(n)`: `1 << n`; the source only calls it with 0 <= n <= 31. */
  function Bit(n: int): (w: Word)
    requires 0 <= n <= 31
  {
    (1 as Word) << n
  }

  /** `BIT(n)` has exactly bit `n` set. */
  lemma BitExact(n: int, k: Index)
    requires 0 <= n <= 31
    ensures HasBit(Bit(n), k) <==> k as int == n
  {}

  lemma OrHasBit(a: Word, b: Word, k: Index)
    ensures HasBit(a | b, k) <==> HasBit(a, k) || HasBit(b, k)
  {}

  /**
   * The value `MASK(start, end)` computes: bits `start..end` inclusive, 0 when
   * `start > end`. Shifting by a negative amount or by 32 or more is undefined in
   * C++, so a non-empty range must lie inside 0..31.
   */
  function MaskBits(start: int, end: int): Word
    requires start <= end ==> 0 <= start && end <= 31
    decreases end - start
  {
    if start > end then 0 else MaskBits(start, end - 1) | Bit(end)
  }

  /** `MASK(start, end)` has exactly the bits `start..end` set. */
  lemma {:induction false} MaskBitsExact(start: int, end: int, k: Index)
    requires start <= end ==> 0 <= start && end <= 31
    ensures HasBit(MaskBits(start, end), k) <==> start <= k as int <= end
    decreases end - start
  {
    if start <= end {
      MaskBitsExact(start, end - 1, k);
      BitExact(end, k);
      OrHasBit(MaskBits(start, end - 1), Bit(end), k);
    }
  }

  /** An empty range gives the empty mask. */
  lemma MaskBitsEmpty(start: int, end: int)
    requires start > end
    ensures MaskBits(start, end) == 0
  {}

  /** `MASK(n, n) == BIT(n)`. */
  lemma MaskBitsSingle(n: int)
    requires 0 <= n <= 31
    ensures MaskBits(n, n) == Bit(n)
  {}

  /** A range splits into two adjacent ranges. */
  lemma {:induction false} MaskBitsSplit(start: int, mid: int, end: int)
    requires 0 <= start <= mid < end <= 31
    ensures MaskBits(start, end) == MaskBits(start, mid) | MaskBits(mid + 1, end)
    decreases end - mid
  {
    if mid + 1 < end {
      MaskBitsSplit(start, mid, end - 1);
    }
  }

  /** `w & m`: the bits of `w` that `m` selects. */
  function Masked(w: Word, m: Word): Word
  {
    w & m
  }

  /** `v & ~m == 0`: no bit of `v` lies outside `m`. */
  predicate Within(v: Word, m: Word)
  {
    v & !m == 0
  }

  lemma ShiftStep(w: Word, k: Index)
    requires k < 31 && w >> k != 0 && (w >> k) & 1 == 0
    ensures w >> (k + 1) != 0
  {}

  lemma ShiftLast(w: Word)
    requires w >> 31 != 0
    ensures (w >> 31) & 1 == 1
  {}

  /** A word with a set bit at or above `k` has a set bit. */
  lemma {:induction false} SomeBitFrom(w: Word, k: Index) returns (j: Index)
    requires w >> k != 0
    ensures HasBit(w, j)
    decreases 31 - k as int
  {
    if k == 31 {
      ShiftLast(w);
      j := k;
    } else if HasBit(w, k) {
      j := k;
    } else {
      ShiftStep(w, k);
      j := SomeBitFrom(w, k + 1);
    }
  }

  lemma HasBitAndNot(v: Word, m: Word, k: Index)
    ensures HasBit(v & !m, k) <==> HasBit(v, k) && !HasBit(m, k)
  {}

  /** `Within` is bit-wise inclusion. */
  lemma WithinBits(v: Word, m: Word)
    ensures Within(v, m) <==> forall k: Index :: HasBit(v, k) ==> HasBit(m, k)
  {
    if !Within(v, m) {
      var k := SomeBitFrom(v & !m, 0);
      HasBitAndNot(v, m, k);
    } else {
      forall k: Index | HasBit(v, k)
        ensures HasBit(m, k)
      {
        HasBitAndNot(v, m, k);
        assert v & !m == 0;
      }
    }
  }

  /** A value with no bit outside `m` is unchanged by masking with `m`. */
  lemma WithinMask(v: Word, m: Word)
    requires Within(v, m)
    ensures Masked(v, m) == v
  {}

  lemma MaskedTwice(w: Word, m: Word)
    ensures Masked(Masked(w, m), m) == Masked(w, m)
  {}

  /** A masked word has no bit outside the mask. */
  lemma MaskedWithin(w: Word, m: Word)
    ensures Within(Masked(w, m), m)
  {}

  /** A value inside `a` has no bit inside a mask `b` disjoint from `a`. */
  lemma WithinDisjoint(v: Word, a: Word, b: Word)
    requires Within(v, a) && Masked(a, b) == 0
    ensures Masked(v, b) == 0
  {}

  /** `MASK(start, end)`: the source's loop `ret |= 1 << n` for n from start to end. */
  method Mask(start: int, end: int) returns (ret: Word)
    requires start <= end ==> 0 <= start && end <= 31
    ensures ret == MaskBits(start, end)
    ensures forall k: Index :: HasBit(ret, k) <==> start <= k as int <= end
  {
    ret := 0;
    var n := start;
    while n <= end
      invariant start <= n
      invariant start <= end ==> n <= end + 1
      invariant start > end ==> n == start
      invariant ret == MaskBits(start, n - 1)
    {
      ret := ret | Bit(n);
      n := n + 1;
    }
    forall k: Index
      ensures HasBit(ret, k) <==> start <= k as int <= end
    {
      MaskBitsExact(start, end, k);
    }
  }
}
