/**
 * The fixed-width C integer arithmetic the special event header relies on,
 * written out on unbounded integers: int32_t and int64_t as ranges, the
 * U64T and I64T casts as arithmetic modulo 2^64, a left shift within 64
 * bits, and bitwise OR on naturals.
 */
module CInt {

  type int32 = x: int | -0x8000_0000 <= x < 0x8000_0000
  type int64 = x: int | -0x8000_0000_0000_0000 <= x < 0x8000_0000_0000_0000

  const Int32Max: int := 0x7FFF_FFFF
  const TwoTo63: nat := 0x8000_0000_0000_0000
  const TwoTo64: nat := 0x1_0000_0000_0000_0000

  function Pow2(k: nat): (p: nat)
    ensures p >= 1
  {
    if k == 0 then 1 else 2 * Pow2(k - 1)
  }

  /** a * 2^k, by doubling: the shift on unbounded naturals. */
  function Shl(a: nat, k: nat): nat
  {
    if k == 0 then a else 2 * Shl(a, k - 1)
  }

  /** A uint64_t value. */
  type uint64 = u: nat | u < TwoTo64

  /** U64T of a signed value: C's conversion to uint64_t, which keeps the value modulo 2^64. */
  function U64(x: int64): (u: uint64)
    ensures (u - x) % TwoTo64 == 0
  {
    if x >= 0 then x else x + TwoTo64
  }

  /** I64T of an unsigned value: the two's complement reading of its 64 bits. */
  function I64(u: uint64): (x: int64)
    ensures U64(x) == u
  {
    if u < TwoTo63 then u else u - TwoTo64
  }

  /**
   * `u << k` on uint64_t for k <= 64: the bits shifted past bit 63 are lost,
   * so only the low 64 - k bits of u survive, moved up by k places.
   */
  function ShiftLeft(u: uint64, k: nat): (r: uint64)
    requires k <= 64
  {
    var low := u % Pow2(64 - k);
    ShlBound(low, 64 - k, k);
    Pow2At64();
    Shl(low, k)
  }

  /** Bitwise OR of two naturals, one bit at a time from the bottom. */
  function Or(a: nat, b: nat): nat
    decreases a
  {
    if a == 0 then b
    else if b == 0 then a
    else 2 * Or(a / 2, b / 2) + (if a % 2 == 1 || b % 2 == 1 then 1 else 0)
  }

  lemma {:induction false} Pow2Add(j: nat, k: nat)
    ensures Pow2(j + k) == Shl(Pow2(j), k)
    decreases k
  {
    if k > 0 {
      Pow2Add(j, k - 1);
    }
  }

  lemma Pow2Mul(j: nat, k: nat)
    ensures Pow2(j + k) == Pow2(j) * Pow2(k)
  {
    Pow2Add(j, k);
    ShlIsMultiply(Pow2(j), k);
  }

  /** The powers of two the 64-bit arithmetic needs, as literals. */
  lemma Pow2At64()
    ensures Pow2(31) == 0x8000_0000 && Pow2(33) == 0x2_0000_0000
    ensures Pow2(63) == TwoTo63 && Pow2(64) == TwoTo64
  {
    assert Pow2(4) == 0x10;
    Pow2Mul(4, 4);
    Pow2Mul(8, 8);
    Pow2Mul(16, 15);
    Pow2Mul(15, 16);
    assert Pow2(31) == 0x8000_0000;
    Pow2Mul(31, 2);
    Pow2Mul(31, 32);
    Pow2Mul(16, 16);
    Pow2Mul(32, 32);
    Pow2Mul(33, 31);
  }

  /** Doubling k times is multiplying by 2^k. */
  lemma {:induction false} ShlIsMultiply(a: nat, k: nat)
    ensures Shl(a, k) == a * Pow2(k)
    decreases k
  {
    if k > 0 {
      ShlIsMultiply(a, k - 1);
      assert a * Pow2(k) == 2 * (a * Pow2(k - 1));
    }
  }

  /** A value below 2^j shifted by k stays below 2^(j+k). */
  lemma {:induction false} ShlBound(a: nat, j: nat, k: nat)
    requires a < Pow2(j)
    ensures Shl(a, k) < Pow2(j + k)
    decreases k
  {
    if k > 0 {
      ShlBound(a, j, k - 1);
    }
  }

  /** One step of Or: the lowest bit of the result is the OR of the lowest bits. */
  lemma OrStep(a: nat, b: nat, bit: nat)
    requires bit <= 1
    ensures Or(2 * a, 2 * b + bit) == 2 * Or(a, b) + bit
  {
    if a == 0 {
      OrZero(b);
    } else if 2 * b + bit != 0 {
      assert (2 * a) / 2 == a && (2 * b + bit) / 2 == b;
    }
  }

  lemma OrZero(b: nat)
    ensures Or(0, b) == b
  {
  }

  /**
   * OR with a value whose bits all lie below bit k adds it to a value
   * shifted up by k: the two sets of bits do not overlap.
   */
  lemma {:induction false} OrDisjoint(h: nat, l: nat, k: nat)
    requires l < Pow2(k)
    ensures Or(Shl(h, k), l) == Shl(h, k) + l
    decreases k
  {
    if k > 0 {
      OrDisjoint(h, l / 2, k - 1);
      OrStep(Shl(h, k - 1), l / 2, l % 2);
    } else {
      assert l == 0;
    }
  }

  /** OR with a value of k one-bits absorbs every value below 2^k. */
  lemma {:induction false} OrAllOnes(a: nat, k: nat)
    requires a < Pow2(k)
    ensures Or(a, Pow2(k) - 1) == Pow2(k) - 1
    decreases k
  {
    if a != 0 {
      var p := Pow2(k - 1);
      assert (Pow2(k) - 1) / 2 == p - 1 && (Pow2(k) - 1) % 2 == 1;
      if p - 1 == 0 {
        assert a == 1;
      } else {
        OrAllOnes(a / 2, k - 1);
      }
    }
  }

  /** OR of two values shifted by k, below a common low part, is their OR shifted. */
  lemma {:induction false} OrShifted(a: nat, b: nat, l: nat, k: nat)
    requires l < Pow2(k)
    ensures Or(Shl(a, k), Shl(b, k) + l) == Shl(Or(a, b), k) + l
    decreases k
  {
    if k > 0 {
      OrShifted(a, b, l / 2, k - 1);
      OrStep(Shl(a, k - 1), Shl(b, k - 1) + l / 2, l % 2);
    } else {
      assert l == 0;
    }
  }

  /** OR never sets a bit above the highest bit of its operands. */
  lemma {:induction false} OrBound(a: nat, b: nat, k: nat)
    requires a < Pow2(k) && b < Pow2(k)
    ensures Or(a, b) < Pow2(k)
    decreases k
  {
    if a != 0 && b != 0 {
      OrBound(a / 2, b / 2, k - 1);
    }
  }
}
