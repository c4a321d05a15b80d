/** Bit-level vocabulary for 32-bit unsigned words (C's `uint32_t`), and the
    small word identities the interface's address arithmetic rests on. Each
    identity is its own lemma so that the solver meets one bit-vector goal at
    a time. */
module Bits {

  /** 2 to the power k, as an unbounded natural number. */
  function Pow2(k: nat): (r: nat)
    ensures r >= 1
  {
    if k == 0 then 1 else 2 * Pow2(k - 1)
  }

  /** Bit i (0 = least significant) of x is set. */
  predicate Bit(x: bv32, i: bv8)
    requires i < 32
  {
    (x >> i) & 1 == 1
  }

  /** Every bit set in x is also set in y. */
  predicate SubsetOf(x: bv32, y: bv32)
  {
    x & y == x
  }

  /** Shifting `1U` one more place doubles it. */
  lemma ShiftStep(k: nat)
    requires 0 < k < 32
    ensures (1 as bv32) << k == ((1 as bv32) << (k - 1)) << 1
  {
  }

  /** Below bit 31, `1U << k` leaves the top bit clear. */
  lemma ShiftSmall(k: nat)
    requires k < 31
    ensures ((1 as bv32) << k) < 0x8000_0000
  {
  }

  /** A word with its top bit clear doubles without wrapping. */
  lemma DoubleNoWrap(x: bv32)
    requires x < 0x8000_0000
    ensures (x << 1) as int == 2 * (x as int)
  {
  }

  /** A word with its top bit clear shifts in a low one without wrapping. */
  lemma DoublePlusOneNoWrap(x: bv32)
    requires x < 0x8000_0000
    ensures ((x << 1) | 1) as int == 2 * (x as int) + 1
  {
  }

  /** `1U << k` in C, for a shift count C defines (k < 32), is the number 2^k. */
  lemma {:induction false} ShiftOneIsPow2(k: nat)
    requires k < 32
    ensures ((1 as bv32) << k) as int == Pow2(k)
  {
    if k > 0 {
      ShiftOneIsPow2(k - 1);
      ShiftStep(k);
      ShiftSmall(k - 1);
      DoubleNoWrap((1 as bv32) << (k - 1));
    }
  }

  /** A bit-subset is never larger as an unsigned number. */
  lemma SubsetIsNotLarger(x: bv32, y: bv32)
    requires SubsetOf(x, y)
    ensures x <= y
  {
  }

  /** Masking twice with the same mask is masking once. */
  lemma MaskTwice(a: bv32, m: bv32)
    ensures (a & m) & m == a & m
  {
  }

  /** Masking keeps nothing outside the mask. */
  lemma MaskedOutsideClear(a: bv32, m: bv32)
    ensures (a & m) & !m == 0
  {
  }

  /** Masking only removes bits. */
  lemma MaskedIsSubset(a: bv32, m: bv32)
    ensures SubsetOf(a & m, a)
  {
  }

  /** Filling the bits outside a mask keeps the bits inside it. */
  lemma FilledInside(a: bv32, m: bv32)
    ensures ((a & m) | !m) & m == a & m
  {
  }

  /** Filling the bits outside a mask sets all of them. */
  lemma FilledOutside(a: bv32, m: bv32)
    ensures ((a & m) | !m) & !m == !m
  {
  }

  /** Filling the bits outside a mask only adds bits. */
  lemma FilledIsSuperset(a: bv32, m: bv32)
    ensures SubsetOf(a, (a & m) | !m)
  {
  }
}
