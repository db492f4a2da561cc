/** The bitwise operators of C and Python on nonnegative integers, and what the masks in use compute. */
module Bits {
  function Pow2(k: nat): (r: nat)
    ensures r >= 1
  {
    if k == 0 then 1 else 2 * Pow2(k - 1)
  }

  /** a & b, binary digit by binary digit. */
  function And(a: nat, b: nat): nat {
    if a == 0 || b == 0 then 0
    else (if a % 2 == 1 && b % 2 == 1 then 1 else 0) + 2 * And(a / 2, b / 2)
  }

  /** a | b. */
  function Or(a: nat, b: nat): nat {
    if a == 0 then b
    else if b == 0 then a
    else (if a % 2 == 1 || b % 2 == 1 then 1 else 0) + 2 * Or(a / 2, b / 2)
  }

  lemma MulMono(x: nat, y: nat, z: nat)
    requires x <= y
    ensures x * z <= y * z
  {
  }

  /** The quotient and remainder are the only ones there are. */
  lemma DivModUnique(n: nat, d: nat, q: nat, r: nat)
    requires n == d * q + r && r < d
    ensures n / d == q && n % d == r
  {
    var q', r' := n / d, n % d;
    assert n == d * q' + r';
    if q' < q {
      MulMono(q' + 1, q, d);
      assert false;
    }
    if q < q' {
      MulMono(q + 1, q', d);
      assert false;
    }
  }

  lemma OddMask(a: nat, m: nat, mask: nat)
    requires mask == 2 * m + 1
    ensures And(a, mask) == a % 2 + 2 * And(a / 2, m)
  {
  }

  /** A mask of k ones keeps the value modulo 2^k. */
  lemma {:induction false} LowOnes(a: nat, k: nat)
    ensures And(a, Pow2(k) - 1) == a % Pow2(k)
  {
    if k > 0 {
      var p := Pow2(k - 1);
      LowOnes(a / 2, k - 1);
      OddMask(a, p - 1, Pow2(k) - 1);
      JoinDigits(a, p, Pow2(k), And(a, Pow2(k) - 1));
    }
  }

  lemma JoinDigits(a: nat, p: nat, d: nat, x: nat)
    requires p >= 1 && d == 2 * p && x == a % 2 + 2 * ((a / 2) % p)
    ensures x == a % d
  {
    HalfMod(a, p);
  }

  lemma HalfMod(a: nat, p: nat)
    requires p >= 1
    ensures a % (2 * p) == a % 2 + 2 * ((a / 2) % p)
  {
    var q, r := (a / 2) / p, (a / 2) % p;
    assert a / 2 == p * q + r;
    assert a == (2 * p) * q + (a % 2 + 2 * r);
    DivModUnique(a, 2 * p, q, a % 2 + 2 * r);
  }

  /** A zero digit at the end of a mask drops that digit of the value. */
  lemma EvenMask(a: nat, m: nat, mask: nat)
    requires mask == 2 * m
    ensures And(a, mask) == 2 * And(a / 2, m)
  {
  }

  lemma FourZeros(a: nat, m: nat, mask: nat)
    requires mask == 16 * m
    ensures And(a, mask) == 16 * And(a / 16, m)
  {
    EvenMask(a, 8 * m, mask);
    ThreeZeros(a / 2, m, 8 * m);
  }

  lemma ThreeZeros(a: nat, m: nat, mask: nat)
    requires mask == 8 * m
    ensures And(a, mask) == 8 * And(a / 8, m)
  {
    var half := a / 2;
    var quarter := half / 2;
    EvenMask(a, 4 * m, mask);
    EvenMask(half, 2 * m, 4 * m);
    EvenMask(quarter, m, 2 * m);
    assert quarter / 2 == a / 8;
  }

  // ---------------------------------------------------------------- the masks in use

  lemma SmallPowers()
    ensures Pow2(1) == 2 && Pow2(2) == 4 && Pow2(3) == 8 && Pow2(4) == 0x10
    ensures Pow2(7) == 0x80 && Pow2(8) == 0x100 && Pow2(11) == 0x800
  {
    assert Pow2(5) == 0x20;
    assert Pow2(6) == 0x40;
    assert Pow2(9) == 0x200;
    assert Pow2(10) == 0x400;
  }

  lemma Pow31()
    ensures Pow2(31) == 0x8000_0000
  {
    assert Pow2(8) == 0x100;
    assert Pow2(16) == 0x1_0000 by { assert Pow2(12) == 0x1000; }
    assert Pow2(24) == 0x100_0000 by { assert Pow2(20) == 0x10_0000; }
    assert Pow2(28) == 0x1000_0000;
  }

  /** & 0x0F, & 0x7F and & 0x7FF. */
  lemma LowMasks(a: nat)
    ensures And(a, 0x0F) == a % 16 && And(a, 0x7F) == a % 128 && And(a, 0x7FF) == a % 0x800
  {
    SmallPowers();
    LowOnes(a, 4);
    LowOnes(a, 7);
    LowOnes(a, 11);
  }

  /** & 0xF0 on a byte. */
  lemma HighNibble(b: nat)
    requires b < 256
    ensures And(b, 0xF0) == b / 16 * 16
  {
    FourZeros(b, 0xF, 0xF0);
    SmallPowers();
    LowOnes(b / 16, 4);
    SmallRemainder(b / 16);
  }

  lemma SmallRemainder(a: nat)
    requires a < 16
    ensures a % 16 == a
  {
  }

  /** & 0x80 on a byte. */
  lemma HighBit(b: nat)
    requires b < 256
    ensures And(b, 0x80) == 0 <==> b < 128
  {
    FourZeros(b, 8, 0x80);
    ThreeZeros(b / 16, 1, 8);
    SmallPowers();
    LowOnes(b / 128, 1);
  }

  /** & 0x7fffffff */
  lemma Low31(a: nat)
    ensures And(a, 0x7fffffff) == a % 0x8000_0000
  {
    Pow31();
    LowOnes(a, 31);
  }

  /** | 2^k on a value without that binary digit. */
  lemma {:induction false} OrBit(a: nat, hi: nat, lo: nat, k: nat)
    requires a == 2 * Pow2(k) * hi + lo && lo < Pow2(k)
    ensures Or(a, Pow2(k)) == a + Pow2(k)
  {
    if k > 0 {
      var p := Pow2(k - 1);
      TwiceTop(p, hi);
      OrBit(a / 2, hi, lo / 2, k - 1);
      OrEven(a, p);
    }
  }

  lemma TwiceTop(p: nat, hi: nat)
    ensures 2 * (2 * p) * hi == 2 * (2 * p * hi)
  {
  }

  lemma OrEven(a: nat, p: nat)
    requires p > 0
    ensures Or(a, 2 * p) == a % 2 + 2 * Or(a / 2, p)
  {
  }

  /** | 0x80 on a seven-bit value. */
  lemma SetBit7(b: nat)
    requires b < 128
    ensures Or(b, 0x80) == b + 0x80
  {
    SmallPowers();
    OrBit(b, 0, b, 7);
  }
}
