/** Bitwise operators on naturals, and when an or of shifted parts is a sum. */
module Bits {

  /** `x << k`. */
  function Shl(x: nat, k: nat): nat {
    if k == 0 then x else 2 * Shl(x, k - 1)
  }

  function Pow2(k: nat): nat {
    Shl(1, k)
  }

  /** `a | b`. */
  function Or(a: nat, b: nat): nat {
    if a == 0 && b == 0 then 0
    else (if a % 2 == 1 || b % 2 == 1 then 1 else 0) + 2 * Or(a / 2, b / 2)
  }

  /** `a ^ b`. */
  function Xor(a: nat, b: nat): nat {
    if a == 0 && b == 0 then 0
    else (if a % 2 != b % 2 then 1 else 0) + 2 * Xor(a / 2, b / 2)
  }

  lemma {:induction false} XorBound(a: nat, b: nat, k: nat)
    requires a < Pow2(k) && b < Pow2(k)
    ensures Xor(a, b) < Pow2(k)
  {
    if k != 0 { XorBound(a / 2, b / 2, k - 1); }
  }

  /** Bit i of a number. */
  predicate Bit(x: nat, i: nat) {
    if i == 0 then x % 2 == 1 else Bit(x / 2, i - 1)
  }

  lemma {:induction false} XorBits(a: nat, b: nat, i: nat)
    ensures Bit(Xor(a, b), i) <==> Bit(a, i) != Bit(b, i)
  {
    if i == 0 {
    } else {
      XorBits(a / 2, b / 2, i - 1);
    }
  }

  lemma {:induction false} OrZero(a: nat)
    ensures Or(a, 0) == a == Or(0, a)
  {
    if a != 0 { OrZero(a / 2); }
  }

  lemma {:induction false} ShlTwice(x: nat, j: nat, k: nat)
    ensures Shl(Shl(x, j), k) == Shl(x, j + k)
  {
    if k != 0 { ShlTwice(x, j, k - 1); }
  }

  lemma {:induction false} ShlSum(x: nat, y: nat, k: nat)
    ensures Shl(x + y, k) == Shl(x, k) + Shl(y, k)
  {
    if k != 0 { ShlSum(x, y, k - 1); }
  }

  lemma {:induction false} ShlMonotone(x: nat, y: nat, k: nat)
    requires x <= y
    ensures Shl(x, k) <= Shl(y, k)
  {
    if k != 0 { ShlMonotone(x, y, k - 1); }
  }

  /** A k-bit number under a shifted j-bit number makes a (j + k)-bit number. */
  lemma Concatenated(lo: nat, x: nat, j: nat, k: nat)
    requires lo < Pow2(k) && x < Pow2(j)
    ensures lo + Shl(x, k) < Pow2(j + k)
  {
    ShlMonotone(x + 1, Pow2(j), k);
    ShlSum(x, 1, k);
    ShlTwice(1, j, k);
  }

  lemma {:induction false} ShlZero(k: nat)
    ensures Shl(0, k) == 0
  {
    if k != 0 { ShlZero(k - 1); }
  }

  lemma ByteBits()
    ensures Pow2(8) == 256
    ensures forall x: nat :: Shl(x, 8) == 256 * x
  {
    forall x: nat ensures Shl(x, 8) == 256 * x {
      assert Shl(x, 1) == 2 * x;
      assert Shl(x, 2) == 4 * x;
      assert Shl(x, 3) == 8 * x;
      assert Shl(x, 4) == 16 * x;
      assert Shl(x, 5) == 32 * x;
      assert Shl(x, 6) == 64 * x;
      assert Shl(x, 7) == 128 * x;
    }
  }

  lemma WideBits()
    ensures Pow2(56) == 0x100_0000_0000_0000 && Pow2(64) == 0x1_0000_0000_0000_0000
    ensures forall x: nat :: Shl(x, 56) == 0x100_0000_0000_0000 * x
  {
    ByteBits();
    forall x: nat ensures Shl(x, 56) == 0x100_0000_0000_0000 * x {
      ShlTwice(x, 8, 8);
      ShlTwice(x, 16, 8);
      ShlTwice(x, 24, 8);
      ShlTwice(x, 32, 8);
      ShlTwice(x, 40, 8);
      ShlTwice(x, 48, 8);
    }
    ShlTwice(1, 56, 8);
  }

  lemma {:induction false} OrDouble(bit: nat, a: nat, b: nat)
    requires bit < 2
    ensures Or(bit + 2 * a, 2 * b) == bit + 2 * Or(a, b)
  {
    var x, y := bit + 2 * a, 2 * b;
    assert x / 2 == a && y / 2 == b && x % 2 == bit && y % 2 == 0;
  }

  /** Low bits that only the left operand has pass through an or. */
  lemma {:induction false} OrAbove(lo: nat, x: nat, y: nat, k: nat)
    requires lo < Pow2(k)
    ensures Or(lo + Shl(x, k), Shl(y, k)) == lo + Shl(Or(x, y), k)
  {
    if k != 0 {
      OrAbove(lo / 2, x, y, k - 1);
      OrDouble(lo % 2, lo / 2 + Shl(x, k - 1), Shl(y, k - 1));
    }
  }

  /** A k-bit number or-ed under a multiple of 2^k is added to it. */
  lemma {:induction false} OrBelow(h: nat, b: nat, k: nat)
    requires b < Pow2(k)
    ensures Or(Shl(h, k), b) == Shl(h, k) + b
  {
    if k == 0 {
      OrZero(h);
    } else {
      OrBelow(h, b / 2, k - 1);
      var x := Shl(h, k);
      assert x / 2 == Shl(h, k - 1) && x % 2 == 0;
    }
  }

  /** Or-ing a byte into a gap: `lo` below it, `h` above it. */
  lemma OrByteIntoGap(lo: nat, b: nat, h: nat, k: nat)
    requires lo < Pow2(k) && b < 256
    ensures Or(lo + Shl(h, k + 8), Shl(b, k)) == lo + Shl(b, k) + Shl(h, k + 8)
  {
    ByteBits();
    ShlTwice(h, 8, k);
    OrAbove(lo, Shl(h, 8), b, k);
    OrBelow(h, b, 8);
    ShlSum(Shl(h, 8), b, k);
  }

  /** `hi << 8 | lo`. */
  function Join(hi: nat, lo: nat): nat {
    Or(Shl(hi, 8), lo)
  }

  lemma JoinBytes(hi: nat, lo: nat)
    requires lo < 256
    ensures Join(hi, lo) == 256 * hi + lo
  {
    ByteBits();
    OrBelow(hi, lo, 8);
  }
}
