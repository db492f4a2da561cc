/** A uint32_t of event bits and the set of bits it stands for. */
module Mask32 {
  import opened Bits
  import opened EventGroupSpec

  const ALL: nat := 0xFFFF_FFFF

  type u32 = n: int | 0 <= n < 0x1_0000_0000

  /** Bit b of m. */
  predicate Has(m: nat, b: nat) {
    if b == 0 then m % 2 == 1 else Has(m / 2, b - 1)
  }

  /** Bit 0 is the lowest binary digit, and doubling moves every bit up by one. */
  lemma HasDigits(m: nat, d: nat, b: nat)
    requires d < 2
    ensures (Has(2 * m + d, 0) <==> d == 1) && (Has(2 * m + d, b + 1) <==> Has(m, b))
  {
    assert (2 * m + d) / 2 == m;
  }

  function BitsOf(m: u32): (s: EventGroupSpec.Bits)
    ensures forall b: Bit :: b in s <==> Has(m, b)
  {
    set b: Bit | 0 <= b < 32 && Has(m, b)
  }

  /** ~m */
  function Not(m: u32): u32 {
    ALL - m
  }

  lemma {:induction false} HasAnd(a: nat, m: nat, b: nat)
    ensures Has(And(a, m), b) <==> Has(a, b) && Has(m, b)
  {
    if a == 0 || m == 0 {
      HasZero(b);
    } else if b > 0 {
      assert And(a, m) / 2 == And(a / 2, m / 2);
      HasAnd(a / 2, m / 2, b - 1);
    }
  }

  lemma {:induction false} HasOr(a: nat, m: nat, b: nat)
    ensures Has(Or(a, m), b) <==> Has(a, b) || Has(m, b)
  {
    if a == 0 || m == 0 {
      HasZero(b);
    } else if b > 0 {
      assert Or(a, m) / 2 == Or(a / 2, m / 2);
      HasOr(a / 2, m / 2, b - 1);
    }
  }

  lemma {:induction false} HasZero(b: nat)
    ensures !Has(0, b)
  {
    if b > 0 {
      HasZero(b - 1);
    }
  }

  /** Below k, the bits of 2^k - 1 - m are those m does not have. */
  lemma {:induction false} HasNot(m: nat, k: nat, b: nat)
    requires m < Pow2(k) && b < k
    ensures Has(Pow2(k) - 1 - m, b) <==> !Has(m, b)
  {
    var p := Pow2(k - 1);
    if b > 0 {
      assert (2 * p - 1 - m) / 2 == p - 1 - m / 2;
      HasNot(m / 2, k - 1, b - 1);
    }
  }

  lemma {:induction false} SameBits(a: nat, m: nat, k: nat)
    requires a < Pow2(k) && m < Pow2(k)
    requires forall b: nat :: b < k ==> (Has(a, b) <==> Has(m, b))
    ensures a == m
  {
    if k > 0 {
      forall b: nat | b < k - 1
        ensures Has(a / 2, b) <==> Has(m / 2, b)
      {
        assert Has(a, b + 1) <==> Has(m, b + 1);
      }
      SameBits(a / 2, m / 2, k - 1);
      assert Has(a, 0) <==> Has(m, 0);
    }
  }

  lemma Pow32()
    ensures Pow2(32) == ALL + 1
  {
    Pow31();
  }

  lemma {:induction false} AndBelow(a: nat, m: nat)
    ensures And(a, m) <= a && And(a, m) <= m
  {
    if a > 0 && m > 0 {
      AndBelow(a / 2, m / 2);
    }
  }

  lemma {:induction false} OrBelow(a: nat, m: nat, k: nat)
    requires a < Pow2(k) && m < Pow2(k)
    ensures Or(a, m) < Pow2(k)
  {
    if a > 0 && m > 0 {
      OrBelow(a / 2, m / 2, k - 1);
    }
  }

  function And32(a: u32, m: u32): (r: u32)
    ensures BitsOf(r) == BitsOf(a) * BitsOf(m)
  {
    AndBelow(a, m);
    AndIsIntersection(a, m);
    And(a, m)
  }

  function Or32(a: u32, m: u32): (r: u32)
    ensures BitsOf(r) == BitsOf(a) + BitsOf(m)
  {
    OrIsUnion(a, m);
    Or(a, m)
  }

  /** a & ~m */
  function Clear32(a: u32, m: u32): (r: u32)
    ensures BitsOf(r) == BitsOf(a) - BitsOf(m)
  {
    NotIsComplement(m);
    And32(a, Not(m))
  }

  lemma AndIsIntersection(a: u32, m: u32)
    ensures And(a, m) <= a && BitsOf(And(a, m)) == BitsOf(a) * BitsOf(m)
  {
    AndBelow(a, m);
    forall b: Bit
      ensures Has(And(a, m), b) <==> Has(a, b) && Has(m, b)
    {
      HasAnd(a, m, b);
    }
  }

  lemma OrIsUnion(a: u32, m: u32)
    ensures Or(a, m) <= ALL && BitsOf(Or(a, m)) == BitsOf(a) + BitsOf(m)
  {
    Pow32();
    OrBelow(a, m, 32);
    forall b: Bit
      ensures Has(Or(a, m), b) <==> Has(a, b) || Has(m, b)
    {
      HasOr(a, m, b);
    }
  }

  lemma NotIsComplement(m: u32)
    ensures forall b: Bit :: b in BitsOf(Not(m)) <==> b !in BitsOf(m)
  {
    Pow32();
    forall b: Bit
      ensures Has(Not(m), b) <==> !Has(m, b)
    {
      HasNot(m, 32, b);
    }
  }

  /** Masks are equal exactly when they stand for the same bits. */
  lemma MaskEquality(a: u32, m: u32)
    ensures a == m <==> BitsOf(a) == BitsOf(m)
  {
    if BitsOf(a) == BitsOf(m) {
      Pow32();
      forall b: nat | b < 32
        ensures Has(a, b) <==> Has(m, b)
      {
        assert b as Bit in BitsOf(a) <==> b as Bit in BitsOf(m);
      }
      SameBits(a, m, 32);
    }
  }

  lemma NoBits()
    ensures BitsOf(0) == {}
  {
    forall b: Bit
      ensures !Has(0, b)
    {
      HasZero(b);
    }
  }
}
