/** The linear congruential generator of lwip_fuzz_rand and the proof that its period is full. */
module FuzzRand {
  import opened Bits

  const A: nat := 1103515245
  const C: nat := 12345
  const M: nat := 0x8000_0000

  /** The next state: 31 bits. */
  function Next(x: nat): (r: nat)
    ensures r < M
  {
    (x * A + C) % M
  }

  /** The state after n steps. */
  function After(n: nat, x: nat): nat {
    if n == 0 then x else Next(After(n - 1, x))
  }

  /** The step in 64-bit arithmetic. */
  lemma NextFits(x: nat)
    requires x < U32
    ensures var val := (x * A + C) % U64;
            And(val, 0x7fffffff) == Next(x) < U32
  {
    MulMono(x, U32, A);
    NoWrap(x * A + C, U64);
    Low31(x * A + C);
  }

  lemma NoWrap(v: nat, m: nat)
    requires v < m
    ensures v % m == v
  {
  }

  lemma NextInNumbers(x: nat)
    ensures Next(x) == (x * 1103515245 + 12345) % 0x8000_0000
  {
  }

  /** The outputs of the first three calls. */
  lemma FirstOutputs()
    ensures After(1, SEED) == 469847548 && After(2, SEED) == 523840645 && After(3, SEED) == 1791404762
  {
    assert After(0, SEED) == SEED;
  }

  const SEED: nat := 0xdeadbeef
  const U32: nat := 0x1_0000_0000
  const U64: nat := 0x1_0000_0000_0000_0000

  class Generator {
    /** s32_t state[1]; its initializer is negative as an s32_t. */
    var state: int
    /** Calls made so far. */
    ghost var calls: nat

    ghost predicate Valid()
      reads this
    {
      -0x8000_0000 <= state < 0x8000_0000 && state % U32 == After(calls, SEED)
    }

    constructor ()
      ensures Valid() && calls == 0 && state == -559038737
    {
      state, calls := SEED - U32, 0;
    }

    /** lwip_fuzz_rand: `val` is a uint64_t, which the step fits. */
    method Rand() returns (result: nat)
      requires Valid()
      modifies this
      ensures Valid() && calls == old(calls) + 1
      ensures result == After(calls, SEED) == state
      ensures result == (old(state) % 0x1_0000_0000 * 1103515245 + 12345) % 0x8000_0000
      ensures old(calls) == 0 ==> result == 469847548
    {
      NextInNumbers(state % U32);
      FirstOutputs();
      var val := state % U32;
      NextFits(val);
      val := (val * A + C) % U64;
      val := And(val, 0x7fffffff);
      NoWrap(val, U32);
      state := val;
      result := val;
      calls := calls + 1;
    }
  }

  // ---------------------------------------------------------------- arithmetic modulo 2^k

  /** x and y agree in their low k bits. */
  ghost predicate Cong(x: int, y: int, k: nat) {
    exists q: int :: x - y == q * Pow2(k)
  }

  lemma CongFrom(x: int, y: int, k: nat, q: int)
    requires x - y == q * Pow2(k)
    ensures Cong(x, y, k)
  {
  }

  lemma CongTrans(x: int, y: int, z: int, k: nat)
    requires Cong(x, y, k) && Cong(y, z, k)
    ensures Cong(x, z, k)
  {
    var p, m :| x - y == p * m && m == Pow2(k);
    var q: int :| y - z == q * Pow2(k);
    assert x - z == (p + q) * Pow2(k) by { assert p * m + q * m == (p + q) * m; }
  }

  lemma CongSym(x: int, y: int, k: nat)
    requires Cong(x, y, k)
    ensures Cong(y, x, k)
  {
    var q: int :| x - y == q * Pow2(k);
    assert y - x == (-q) * Pow2(k);
  }

  lemma CongWeaken(x: int, y: int, k: nat)
    requires Cong(x, y, k + 1)
    ensures Cong(x, y, k)
  {
    var q: int :| x - y == q * Pow2(k + 1);
    assert x - y == (2 * q) * Pow2(k);
  }

  /** One step of the generator without the final mask. */
  function Affine(x: int): int {
    x * A + C
  }

  lemma CongAffine(x: int, y: int, k: nat)
    requires Cong(x, y, k)
    ensures Cong(Affine(x), Affine(y), k)
  {
    var q: int :| x - y == q * Pow2(k);
    assert Affine(x) - Affine(y) == (x - y) * A == (q * A) * Pow2(k);
  }

  function Iterate(n: nat, x: int): int {
    if n == 0 then x else Affine(Iterate(n - 1, x))
  }

  lemma {:induction false} IterateAdd(m: nat, n: nat, x: int)
    ensures Iterate(m + n, x) == Iterate(m, Iterate(n, x))
  {
    if m > 0 {
      IterateAdd(m - 1, n, x);
    }
  }

  // ---------------------------------------------------------------- 2^k steps at once

  /** 2^k steps are x -> Slope(k) * x + Shift(k). */
  function Slope(k: nat): int {
    if k == 0 then A else Slope(k - 1) * Slope(k - 1)
  }

  function Shift(k: nat): int {
    if k == 0 then C else (Slope(k - 1) + 1) * Shift(k - 1)
  }

  lemma {:induction false} PowerSteps(k: nat, x: int)
    ensures Iterate(Pow2(k), x) == Slope(k) * x + Shift(k)
  {
    if k == 0 {
      assert Iterate(1, x) == Affine(Iterate(0, x));
    } else {
      var p, s, d := Pow2(k - 1), Slope(k - 1), Shift(k - 1);
      IterateAdd(p, p, x);
      PowerSteps(k - 1, x);
      PowerSteps(k - 1, s * x + d);
      Compose(s, d, x);
    }
  }

  lemma Compose(s: int, d: int, x: int)
    ensures s * (s * x + d) + d == (s * s) * x + (s + 1) * d
  {
  }

  /** Slope(k) is 1 plus a multiple of 2^(k+2); Shift(k) is 2^k times an odd number. */
  lemma {:induction false} Residues(k: nat) returns (u: int, v: int)
    ensures Slope(k) == 1 + 4 * (Pow2(k) * u)
    ensures Shift(k) == Pow2(k) * (1 + 2 * v)
  {
    if k == 0 {
      u, v := (A - 1) / 4, (C - 1) / 2;
    } else {
      var u', v' := Residues(k - 1);
      var p := Pow2(k - 1);
      SlopeStep(p, u');
      ShiftStep(p, u', v');
      u := u' + 2 * (p * (u' * u'));
      v := v' + (p * u') * (1 + 2 * v');
    }
  }

  lemma SlopeStep(p: int, u: int)
    ensures (1 + 4 * (p * u)) * (1 + 4 * (p * u)) == 1 + 4 * ((2 * p) * (u + 2 * (p * (u * u))))
  {
    var w := p * u;
    assert (p * u) * (p * u) == p * (p * (u * u));
    assert (1 + 4 * w) * (1 + 4 * w) == 1 + 8 * w + 16 * (w * w);
    assert (2 * p) * (u + 2 * (p * (u * u))) == 2 * (p * u) + 4 * (p * (p * (u * u)));
  }

  lemma ShiftStep(p: int, u: int, v: int)
    ensures ((1 + 4 * (p * u)) + 1) * (p * (1 + 2 * v)) == (2 * p) * (1 + 2 * (v + (p * u) * (1 + 2 * v)))
  {
    var w, o := p * u, 1 + 2 * v;
    assert (2 + 4 * w) * (p * o) == 2 * (p * o) + 4 * (w * (p * o));
    assert w * (p * o) == p * (w * o);
    assert (2 * p) * (o + 2 * (w * o)) == 2 * (p * o) + 4 * (p * (w * o));
    assert 1 + 2 * (v + w * o) == o + 2 * (w * o);
  }

  /** 2^k steps add 2^k modulo 2^(k+1): they flip bit k and keep the bits below it. */
  lemma PowerStepsFlip(k: nat, x: int)
    ensures Cong(Iterate(Pow2(k), x), x + Pow2(k), k + 1)
  {
    var u, v := Residues(k);
    PowerSteps(k, x);
    Expand(Pow2(k), u, v, x);
    CongFrom(Iterate(Pow2(k), x), x + Pow2(k), k + 1, 2 * (u * x) + v);
  }

  lemma Expand(p: int, u: int, v: int, x: int)
    ensures (1 + 4 * (p * u)) * x + p * (1 + 2 * v) - (x + p) == (2 * (u * x) + v) * (2 * p)
  {
    assert (p * u) * x == p * (u * x);
    assert (1 + 4 * (p * u)) * x == x + 4 * (p * (u * x));
    assert p * (1 + 2 * v) == p + 2 * (p * v);
    assert (2 * (u * x) + v) * (2 * p) == 4 * (p * (u * x)) + 2 * (p * v);
  }

  lemma CongAdd(x: int, y: int, d: int, k: nat)
    requires Cong(x, y, k)
    ensures Cong(x + d, y + d, k)
  {
    var q: int :| x - y == q * Pow2(k);
    CongFrom(x + d, y + d, k, q);
  }

  lemma {:induction false} MultipleSteps(k: nat, q: nat, n: nat, x: int)
    requires n == q * Pow2(k)
    ensures Cong(Iterate(n, x), x + n, k + 1)
  {
    if q == 0 {
      CongFrom(x, x, k + 1, 0);
    } else {
      var m := (q - 1) * Pow2(k);
      OneLess(q, Pow2(k));
      MultipleSteps(k, q - 1, m, x);
      OneMore(k, m, x);
    }
  }

  lemma OneLess(q: nat, p: nat)
    requires q > 0
    ensures q * p == p + (q - 1) * p
  {
  }

  lemma OneMore(k: nat, m: nat, x: int)
    requires Cong(Iterate(m, x), x + m, k + 1)
    ensures Cong(Iterate(Pow2(k) + m, x), x + (Pow2(k) + m), k + 1)
  {
    var p, y := Pow2(k), Iterate(m, x);
    IterateAdd(p, m, x);
    PowerStepsFlip(k, y);
    CongAdd(y, x + m, p, k + 1);
    CongTrans(Iterate(p, y), y + p, x + m + p, k + 1);
  }

  // ---------------------------------------------------------------- the period

  lemma AtLeast(a: int, p: int)
    requires a >= 1 && p >= 1
    ensures a * p >= p
  {
  }

  lemma DivModInt(x: int, d: int, q: int, r: int)
    requires x == q * d + r && 0 <= r < d
    ensures x % d == r
  {
    var q', r' := x / d, x % d;
    assert x == d * q' + r';
    Difference(q, q', d);
    if q > q' {
      AtLeast(q - q', d);
      assert false;
    } else if q < q' {
      AtLeast(q' - q, d);
      assert false;
    }
  }

  lemma Difference(a: int, b: int, d: int)
    ensures (a - b) * d == a * d - b * d && (b - a) * d == b * d - a * d
  {
  }

  lemma CongMod(x: int, y: int, k: nat)
    ensures Cong(x, y, k) <==> x % Pow2(k) == y % Pow2(k)
  {
    var p := Pow2(k);
    var a, b, s := x / p, y / p, y % p;
    assert x == p * a + x % p && y == p * b + s;
    if Cong(x, y, k) {
      var q: int :| x - y == q * p;
      assert x == (b + q) * p + s;
      DivModInt(x, p, b + q, s);
    }
    if x % p == s {
      assert x - y == (a - b) * p;
    }
  }

  /** q * 2^k is a multiple of 2^(k+1) exactly when q is even. */
  lemma EvenMultiple(x: int, q: int, n: int, k: nat)
    requires n == q * Pow2(k)
    ensures Cong(x + n, x, k + 1) <==> q % 2 == 0
  {
    if q % 2 == 0 {
      Double(q / 2, Pow2(k));
      CongFrom(x + n, x, k + 1, q / 2);
    } else if Cong(x + n, x, k + 1) {
      var m := HalfQuotient(x, q, n, k);
      assert false;
    }
  }

  lemma HalfQuotient(x: int, q: int, n: int, k: nat) returns (m: int)
    requires n == q * Pow2(k) && Cong(x + n, x, k + 1)
    ensures q == 2 * m
  {
    m :| (x + n) - x == m * Pow2(k + 1);
    Double(m, Pow2(k));
    Cancel(q, 2 * m, Pow2(k));
  }

  lemma Double(m: int, p: int)
    ensures (2 * m) * p == m * (2 * p)
  {
  }

  lemma Cancel(a: int, b: int, p: int)
    requires p > 0 && a * p == b * p
    ensures a == b
  {
    Difference(a, b, p);
    if a < b {
      AtLeast(b - a, p);
      assert false;
    } else if b < a {
      AtLeast(a - b, p);
      assert false;
    }
  }

  /** d steps bring the low k bits back to where they were exactly when 2^k divides d. */
  lemma {:induction false} ExactPeriod(k: nat, d: nat, x: int)
    ensures Cong(Iterate(d, x), x, k) <==> d % Pow2(k) == 0
  {
    if k == 0 {
      CongFrom(Iterate(d, x), x, 0, Iterate(d, x) - x);
    } else {
      var p, y := Pow2(k - 1), Iterate(d, x);
      ExactPeriod(k - 1, d, x);
      if d % p != 0 {
        if Cong(y, x, k) {
          CongWeaken(y, x, k - 1);
        }
        if d % (2 * p) == 0 {
          HalfDivides(d, p);
        }
      } else {
        var q := d / p;
        assert d == q * p;
        MultipleSteps(k - 1, q, d, x);
        EvenMultiple(x, q, d, k - 1);
        if Cong(y, x, k) {
          CongSym(y, x + d, k);
          CongTrans(x + d, y, x, k);
        } else if q % 2 == 0 {
          CongTrans(y, x + d, x, k);
        }
        EvenQuotient(d, p, q);
      }
    }
  }

  lemma HalfDivides(d: nat, p: nat)
    requires p >= 1 && d % (2 * p) == 0
    ensures d % p == 0
  {
    var m := d / (2 * p);
    assert d == (2 * p) * m == (2 * m) * p;
    DivModInt(d, p, 2 * m, 0);
  }

  lemma EvenQuotient(d: nat, p: nat, q: nat)
    requires p >= 1 && d == q * p
    ensures d % (2 * p) == 0 <==> q % 2 == 0
  {
    var h := q / 2;
    if q % 2 == 0 {
      assert d == h * (2 * p) + 0 by { assert q == 2 * h; }
      DivModInt(d, 2 * p, h, 0);
    } else {
      assert d == h * (2 * p) + p by { assert q == 2 * h + 1; assert (2 * h + 1) * p == (2 * h) * p + p; }
      DivModInt(d, 2 * p, h, p);
    }
  }

  /** Every residue of the low k bits is reached within the first 2^k states. */
  lemma {:induction false} Reaches(k: nat, x: int, r: int) returns (i: nat)
    ensures i < Pow2(k) && Cong(Iterate(i, x), r, k)
  {
    if k == 0 {
      i := 0;
      CongFrom(x, r, 0, x - r);
    } else {
      var p := Pow2(k - 1);
      i := Reaches(k - 1, x, r);
      var y := Iterate(i, x);
      if !Cong(y, r, k) {
        OtherHalf(k - 1, y, r);
        IterateAdd(p, i, x);
        i := p + i;
      }
    }
  }

  /** Right below bit k but wrong in it: 2^k more steps put it right. */
  lemma Distributes(q: int, p: int)
    ensures (q + 1) * p == q * p + p
  {
  }

  lemma OtherHalf(k: nat, y: int, r: int)
    requires Cong(y, r, k) && !Cong(y, r, k + 1)
    ensures Cong(Iterate(Pow2(k), y), r, k + 1)
  {
    var p := Pow2(k);
    var q: int :| y - r == q * p;
    EvenMultiple(r, q, y - r, k);
    assert (q + 1) * p == y - r + p by { Distributes(q, p); }
    EvenMultiple(r, q + 1, y - r + p, k);
    PowerStepsFlip(k, y);
    CongTrans(Iterate(p, y), y + p, r, k + 1);
  }

  // ---------------------------------------------------------------- the generator itself

  /** Up to 31 bits, masking each step changes nothing. */
  lemma {:induction false} MaskedSteps(n: nat, x: nat, k: nat)
    requires k <= 31
    ensures Cong(After(n, x), Iterate(n, x), k)
  {
    if n == 0 {
      CongFrom(x, x, k, 0);
    } else {
      var y := After(n - 1, x);
      MaskedSteps(n - 1, x, k);
      CongAffine(y, Iterate(n - 1, x), k);
      Mask(y * A + C, k);
      CongTrans(Next(y), Affine(y), Iterate(n, x), k);
    }
  }

  lemma {:induction false} Mask(v: nat, k: nat)
    requires k <= 31
    ensures Cong(v % M, v, k)
    decreases 31 - k
  {
    if k == 31 {
      Pow31();
      assert v == M * (v / M) + v % M;
      CongFrom(v % M, v, 31, -(v / M));
    } else {
      Mask(v, k + 1);
      CongWeaken(v % M, v, k);
    }
  }

  lemma SameLowBits(i: nat, j: nat, x: nat, k: nat)
    requires k <= 31 && i <= j
    ensures After(i, x) % Pow2(k) == After(j, x) % Pow2(k) <==> (j - i) % Pow2(k) == 0
  {
    MaskedSteps(i, x, k);
    MaskedSteps(j, x, k);
    CongMod(After(i, x), Iterate(i, x), k);
    CongMod(After(j, x), Iterate(j, x), k);
    IterateAdd(j - i, i, x);
    ExactPeriod(k, j - i, Iterate(i, x));
    CongMod(Iterate(j, x), Iterate(i, x), k);
  }

  /**
   * Full period of the low k bits, k up to 31: from every start, each residue below 2^k occurs
   * exactly once among any 2^k successive states, and then the cycle repeats.
   */
  lemma FullPeriod(k: nat, x: nat, start: nat, r: nat) returns (i: nat)
    requires k <= 31 && r < Pow2(k)
    ensures start <= i < start + Pow2(k) && After(i, x) % Pow2(k) == r
    ensures forall j :: start <= j < start + Pow2(k) && After(j, x) % Pow2(k) == r ==> j == i
    ensures forall j: nat :: After(j + Pow2(k), x) % Pow2(k) == After(j, x) % Pow2(k)
  {
    var p := Pow2(k);
    var d := Reaches(k, Iterate(start, x), r);
    i := d + start;
    IterateAdd(d, start, x);
    MaskedSteps(i, x, k);
    CongTrans(After(i, x), Iterate(i, x), r, k);
    CongMod(After(i, x), r, k);
    DivModInt(r, p, 0, r);
    forall j | start <= j < start + p && After(j, x) % p == r
      ensures j == i
    {
      var lo, hi := if i <= j then i else j, if i <= j then j else i;
      SameLowBits(lo, hi, x, k);
      DivModInt(hi - lo, p, 0, hi - lo);
    }
    forall j: nat
      ensures After(j + p, x) % p == After(j, x) % p
    {
      SameLowBits(j, j + p, x, k);
      DivModInt(p, p, 1, 0);
    }
  }

  /** Every one of the 2^31 outputs is returned exactly once in 2^31 successive calls. */
  lemma EveryOutputOnce(x: nat, start: nat, r: nat) returns (i: nat)
    requires r < M && start >= 1
    ensures start <= i < start + M && After(i, x) == r
    ensures forall j :: start <= j < start + M && After(j, x) == r ==> j == i
  {
    Pow31();
    i := FullPeriod(31, x, start, r);
    forall j: nat | j >= 1
      ensures After(j, x) % M == After(j, x)
    {
      DivModInt(After(j, x), M, 0, After(j, x));
    }
  }
}
