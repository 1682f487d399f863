/** Bitwise operations on unbounded naturals, as Python evaluates `<<`, `>>`
    and `|` on non-negative ints: no width, so an oversized operand keeps all
    of its bits and may overlap the bits of the other operand. */
module Bits {

  function Pow2(k: nat): (r: nat)
    ensures r >= 1
  {
    if k == 0 then 1 else 2 * Pow2(k - 1)
  }

  /** `a << k` */
  function Shl(a: nat, k: nat): nat
  {
    a * Pow2(k)
  }

  /** `a >> k`, one bit at a time. */
  function Shr(a: nat, k: nat): nat
    decreases k
  {
    if k == 0 then a else Shr(a / 2, k - 1)
  }

  /** `a | b`, bit by bit from the least significant end. */
  function Or(a: nat, b: nat): nat
    decreases a + b
  {
    if a == 0 && b == 0 then 0
    else 2 * Or(a / 2, b / 2) + (if a % 2 == 1 || b % 2 == 1 then 1 else 0)
  }

  lemma {:induction false} OrZeroRight(a: nat)
    ensures Or(a, 0) == a
    decreases a
  {
    if a != 0 {
      OrZeroRight(a / 2);
    }
  }

  lemma {:induction false} OrZeroLeft(b: nat)
    ensures Or(0, b) == b
    decreases b
  {
    if b != 0 {
      OrZeroLeft(b / 2);
    }
  }

  /** The result is zero exactly when both operands are. */
  lemma {:induction false} OrIsZero(a: nat, b: nat)
    ensures Or(a, b) == 0 <==> a == 0 && b == 0
    decreases a + b
  {
    if !(a == 0 && b == 0) {
      OrIsZero(a / 2, b / 2);
    }
  }

  /** `a | b` fits in `k` bits exactly when both operands do. */
  lemma {:induction false} OrBelow(a: nat, b: nat, k: nat)
    ensures Or(a, b) < Pow2(k) <==> a < Pow2(k) && b < Pow2(k)
    decreases k
  {
    if k == 0 {
      OrIsZero(a, b);
    } else if !(a == 0 && b == 0) {
      OrBelow(a / 2, b / 2, k - 1);
    }
  }

  /** When `b` fits below the shifted operand, `|` is plain addition: the
      fields do not overlap. */
  lemma {:induction false} OrDisjoint(a: nat, k: nat, b: nat)
    requires b < Pow2(k)
    ensures Or(Shl(a, k), b) == a * Pow2(k) + b
    decreases k
  {
    if k == 0 {
      OrZeroRight(a);
    } else {
      var p := Pow2(k - 1);
      assert Pow2(k) == 2 * p;
      assert a * Pow2(k) == 2 * (a * p);
      assert Shl(a, k) / 2 == Shl(a, k - 1);
      assert Shl(a, k) % 2 == 0;
      OrDisjoint(a, k - 1, b / 2);
      if a * Pow2(k) == 0 && b == 0 {
      } else {
        assert Or(Shl(a, k), b) == 2 * Or(Shl(a, k - 1), b / 2) + b % 2;
      }
    }
  }

  /** `(2 * a) | b`: the low bit of `b` stays, the rest of `b` is OR-ed into
      `a` one position up. */
  lemma {:induction false} OrDouble(a: nat, b: nat)
    ensures Or(2 * a, b) == 2 * Or(a, b / 2) + b % 2
  {
    if a == 0 && b == 0 {
      assert Or(0, 0) == 0;
    }
  }

  /** `(a << 2) | b` is `(a | (b >> 2)) << 2` plus the low two bits of `b`. */
  lemma {:induction false} OrShift2(a: nat, b: nat)
    ensures Or(4 * a, b) == 4 * Or(a, b / 4) + b % 4
  {
    OrDouble(2 * a, b);
    OrDouble(a, b / 2);
    assert 2 * (2 * a) == 4 * a;
    assert b / 2 / 2 == b / 4 && 2 * (b / 2 % 2) + b % 2 == b % 4;
  }

  /** `(a << 4) | b` is `(a | (b >> 4)) << 4` plus the low nibble of `b`. */
  lemma {:induction false} OrShift4(a: nat, b: nat)
    ensures Or(16 * a, b) == 16 * Or(a, b / 16) + b % 16
  {
    OrShift2(4 * a, b);
    OrShift2(a, b / 4);
    assert 4 * (4 * a) == 16 * a;
    assert b / 4 / 4 == b / 16 && 4 * (b / 4 % 4) + b % 4 == b % 16;
  }

  /** `(a << 5) | b` is `(a | (b >> 5)) << 5` plus the low five bits of `b`. */
  lemma {:induction false} OrShift5(a: nat, b: nat)
    ensures Or(32 * a, b) == 32 * Or(a, b / 32) + b % 32
  {
    OrShift4(2 * a, b);
    OrDouble(a, b / 16);
    assert 16 * (2 * a) == 32 * a;
    assert b / 16 / 2 == b / 32 && 16 * (b / 16 % 2) + b % 16 == b % 32;
  }

  /** Shifting right by eight bits drops the low byte. */
  lemma {:induction false} ShrByte(a: nat)
    ensures Shr(a, 8) == a / 0x100
  {
    assert Shr(a, 8) == a / 2 / 2 / 2 / 2 / 2 / 2 / 2 / 2;
  }

  /** Concrete powers used by the header layouts. */
  lemma {:induction false} Pow2Values()
    ensures Pow2(1) == 2 && Pow2(2) == 4 && Pow2(4) == 16 && Pow2(5) == 32
    ensures Pow2(6) == 64 && Pow2(8) == 256 && Pow2(16) == 0x1_0000
  {
    assert Pow2(4) == 16;
    assert Pow2(8) == 256 by { assert Pow2(8) == 16 * Pow2(4); }
    assert Pow2(16) == 0x1_0000 by { assert Pow2(16) == 256 * Pow2(8); }
  }
}
