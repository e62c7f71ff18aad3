/** Unsigned C integer types and the bitwise operators the hash uses,
    defined on natural numbers one bit at a time. */
module Bits {

  type byte = x: int | 0 <= x < 256
  type uint16 = x: int | 0 <= x < 65536

  function Pow2(k: nat): (r: nat)
    ensures r >= 1
  {
    if k == 0 then 1 else 2 * Pow2(k - 1)
  }

  /** Bitwise AND (`&`): a result bit is set when both operand bits are. */
  function And(a: nat, b: nat): (r: nat)
    ensures r <= a && r <= b
    decreases a
  {
    if a == 0 || b == 0 then 0
    else 2 * And(a / 2, b / 2) + (if a % 2 == 1 && b % 2 == 1 then 1 else 0)
  }

  /** Bitwise OR (`|`). */
  function Or(a: nat, b: nat): nat
    decreases a
  {
    if a == 0 then b
    else if b == 0 then a
    else 2 * Or(a / 2, b / 2) + (if a % 2 == 1 || b % 2 == 1 then 1 else 0)
  }

  /** Bitwise exclusive OR (`^`). */
  function Xor(a: nat, b: nat): nat
    decreases a
  {
    if a == 0 then b
    else if b == 0 then a
    else 2 * Xor(a / 2, b / 2) + (if a % 2 != b % 2 then 1 else 0)
  }

  /** `(hi << k) | lo` is plain addition when `lo` fits in the low k bits. */
  lemma {:induction false} OrLow(hi: nat, lo: nat, k: nat)
    requires lo < Pow2(k)
    ensures Or(hi * Pow2(k), lo) == hi * Pow2(k) + lo
  {
    if k == 0 {
      assert lo == 0;
    } else if hi == 0 {
    } else if lo == 0 {
    } else {
      var x := hi * Pow2(k);
      assert x == 2 * (hi * Pow2(k - 1));
      assert x / 2 == hi * Pow2(k - 1) && x % 2 == 0;
      assert lo / 2 < Pow2(k - 1);
      OrLow(hi, lo / 2, k - 1);
      assert Or(x, lo) == 2 * Or(x / 2, lo / 2) + lo % 2;
    }
  }

  /** XOR of two k-bit values is a k-bit value. */
  lemma {:induction false} XorBound(a: nat, b: nat, k: nat)
    requires a < Pow2(k) && b < Pow2(k)
    ensures Xor(a, b) < Pow2(k)
  {
    if a == 0 || b == 0 {
    } else {
      assert k > 0;
      XorBound(a / 2, b / 2, k - 1);
    }
  }

  /** `(hi << 8) | lo` for a byte `lo`: the big-endian 16-bit pair. */
  lemma OrByte(hi: nat, lo: nat)
    requires lo < 256
    ensures Or(hi * 256, lo) == hi * 256 + lo
  {
    assert Pow2(8) == 256;
    OrLow(hi, lo, 8);
  }

  /** `(hi << 4) | lo` for a nibble `lo`. */
  lemma OrNibble(hi: nat, lo: nat)
    requires lo < 16
    ensures Or(hi * 16, lo) == hi * 16 + lo
  {
    assert Pow2(4) == 16;
    OrLow(hi, lo, 4);
  }

  /** XOR of two bytes is a byte. */
  lemma XorByte(a: nat, b: nat)
    requires a < 256 && b < 256
    ensures Xor(a, b) < 256
  {
    assert Pow2(8) == 256;
    XorBound(a, b, 8);
  }
}
