/**
 * The variable byte integer of MQTT (section 2.2.3 of MQTT 3.1.1, section 1.5.5 of MQTT 5.0):
 * the encoder loop of gen_seeds.py and the decoder loop of esp_transport_fuzz.c.
 */
module RemainingLength {
  import opened Bits
  import opened Bytes

  /** The bytes the encoder produces: seven bits a byte, least significant group first. */
  function Encode(n: nat): (r: seq<byte>)
    ensures |r| >= 1
  {
    if n < 128 then [n] else [n % 128 + 128] + Encode(n / 128)
  }

  datatype Parsed = Parsed(value: nat, used: nat)

  /** What a decoder limited to k bytes reads from p, and how many bytes it looks at. */
  function Parse(p: seq<byte>, k: nat): Parsed {
    if p == [] || k == 0 then Parsed(0, 0)
    else if p[0] < 128 then Parsed(p[0], 1)
    else
      var rest := Parse(p[1..], k - 1);
      Parsed(p[0] - 128 + 128 * rest.value, 1 + rest.used)
  }

  function Pow128(k: nat): (r: nat)
    ensures r >= 1
  {
    if k == 0 then 1 else 128 * Pow128(k - 1)
  }

  /** The decoder of the transport gives up after this many bytes. */
  const MAX_BYTES: nat := 4

  /** 128^4, the first length that no longer fits MAX_BYTES bytes. */
  const LIMIT: nat := 0x1000_0000

  lemma LimitIsPow128()
    ensures Pow128(MAX_BYTES) == LIMIT
  {
    assert Pow128(1) == 128;
    assert Pow128(2) == 128 * 128;
    assert Pow128(3) == 128 * 128 * 128;
  }

  /** One pass of the encoder loop writes one byte of the encoding. */
  lemma EncodeGroup(m: nat)
    ensures m / 128 == 0 ==> Encode(m) == [m % 128]
    ensures m / 128 > 0 ==> Or(m % 128, 0x80) < 256 && Encode(m) == [Or(m % 128, 0x80)] + Encode(m / 128)
  {
    SetBit7(m % 128);
  }

  /** enc_remaining_length: the while loop over `n` and `out`. */
  method EncRemainingLength(n: int) returns (r: Result<seq<byte>>)
    ensures n < 0 ==> r == Err(ValueError)
    ensures n >= 0 ==> r == Ok(Encode(n))
  {
    if n < 0 {
      return Err(ValueError);
    }
    var m, out: seq<byte> := n, [];
    while true
      invariant m >= 0
      invariant out + Encode(m) == Encode(n)
      decreases m
    {
      EncodeGroup(m);
      var b := m % 128;
      m := m / 128;
      if m > 0 {
        b := Or(b, 0x80);
        Assoc(out, [b], Encode(m));
      }
      out := out + [b];
      if m == 0 {
        break;
      }
    }
    return Ok(out);
  }

  /**
   * parse_varint_remaining: `value`, `mul` and `i` are C ints; the invariants keep each of them
   * at most 128^4, so nothing wraps.
   */
  method ParseVarintRemaining(p: seq<byte>, inLen: int) returns (value: int, outLen: int)
    requires inLen <= |p|
    ensures var q := if inLen < 0 then [] else p[..inLen];
            value == Parse(q, MAX_BYTES).value && outLen == Parse(q, MAX_BYTES).used
    ensures 0 <= value < LIMIT
  {
    var mul: int, i: int := 1, 0;
    value := 0;
    ghost var q := if inLen < 0 then [] else p[..inLen];
    LimitIsPow128();
    assert q[0..] == q;
    while i < inLen
      invariant 0 <= i <= |q| && i < MAX_BYTES
      invariant mul == Pow128(i) && 0 <= value < mul
      invariant Continues(q, i, value)
    {
      var b: int := p[i];
      ParseStep(q, i, value);
      LowMasks(b);
      HighBit(b);
      i := i + 1;
      value := value + And(b, 0x7F) * mul;
      if And(b, 0x80) == 0 {
        break;
      }
      mul := mul * 128;
      PowSmall(i);
      if mul > 128 * 128 * 128 {
        break;
      }
    }
    outLen := i;
  }

  /** After i bytes whose groups sum to `value`, the whole parse is that sum plus the parse of the rest. */
  ghost predicate Continues(q: seq<byte>, i: nat, value: int) {
    && i <= |q| && i <= MAX_BYTES
    && Parse(q, MAX_BYTES).value == value + Pow128(i) * Parse(q[i..], MAX_BYTES - i).value
    && Parse(q, MAX_BYTES).used == i + Parse(q[i..], MAX_BYTES - i).used
  }

  lemma ParseStep(q: seq<byte>, i: nat, value: int)
    requires Continues(q, i, value) && i < |q| && i < MAX_BYTES && 0 <= value < Pow128(i)
    ensures var sum := value + q[i] % 128 * Pow128(i);
            && 0 <= sum < Pow128(i + 1) <= LIMIT
            && (q[i] < 128 ==> Parse(q, MAX_BYTES) == Parsed(sum, i + 1))
            && (q[i] >= 128 ==> Continues(q, i + 1, sum))
  {
    var mul, b := Pow128(i), q[i] % 128;
    assert q[i..][0] == q[i] && q[i..][1..] == q[i + 1..];
    NextGroup(i, b, value);
    Distribute(mul, b, Parse(q[i + 1..], MAX_BYTES - i - 1).value);
  }

  lemma NextGroup(i: nat, b: nat, value: int)
    requires i < MAX_BYTES && b < 128 && 0 <= value < Pow128(i)
    ensures 0 <= value + b * Pow128(i) < Pow128(i + 1) <= LIMIT
  {
    MulMono(b, 127, Pow128(i));
    PowMono(i + 1, MAX_BYTES);
    LimitIsPow128();
  }

  lemma Distribute(mul: nat, b: nat, v: nat)
    ensures mul * (b + 128 * v) == b * mul + (mul * 128) * v
  {
  }

  /** Four factors of 128 are exactly what exceeds 128^3. */
  lemma PowSmall(i: nat)
    requires i <= MAX_BYTES
    ensures Pow128(i) > 128 * 128 * 128 <==> i == MAX_BYTES
  {
    LimitIsPow128();
    if i < MAX_BYTES {
      PowMono(i, MAX_BYTES - 1);
    }
  }

  // ---------------------------------------------------------------- the decoder undoes the encoder

  /** n modulo p, then modulo 128 * p: how one more byte extends what a k-byte decoder can see. */
  lemma ModStep(n: nat, p: nat)
    requires p >= 1
    ensures n % (128 * p) == n % 128 + 128 * ((n / 128) % p)
  {
    var q, m := n / 128, n % 128;
    var u, v := q / p, q % p;
    assert q == p * u + v;
    var r := m + 128 * v;
    assert n == (128 * p) * u + r;
    assert r < 128 * p;
    DivModUnique(n, 128 * p, u, r);
  }

  /** A k-byte decoder on an encoded n followed by anything reads n modulo 128^k. */
  lemma {:induction false} ParseEncodeBounded(n: nat, tail: seq<byte>, k: nat)
    ensures Parse(Encode(n) + tail, k).value == n % Pow128(k)
    ensures Parse(Encode(n) + tail, k).used == if |Encode(n)| < k then |Encode(n)| else k
  {
    if k == 0 {
    } else if n < 128 {
      assert Pow128(k) == 128 * Pow128(k - 1);
      MulMono(1, Pow128(k - 1), 128);
      DivModUnique(n, Pow128(k), 0, n);
    } else {
      ParseEncodeBounded(n / 128, tail, k - 1);
      assert (Encode(n) + tail)[1..] == Encode(n / 128) + tail;
      ModStep(n, Pow128(k - 1));
    }
  }

  /**
   * parse_varint_remaining on enc_remaining_length(n) plus any tail yields n modulo 128^4 and
   * consumes min(4, encoded length): it is an exact inverse exactly when n is below 128^4.
   */
  lemma ParseEncode(n: nat, tail: seq<byte>)
    ensures Parse(Encode(n) + tail, MAX_BYTES).value == n % LIMIT
    ensures Parse(Encode(n) + tail, MAX_BYTES).used == if |Encode(n)| < 4 then |Encode(n)| else 4
    ensures Parse(Encode(n) + tail, MAX_BYTES) == Parsed(n, |Encode(n)|) <==> n < LIMIT
  {
    ParseEncodeBounded(n, tail, MAX_BYTES);
    LimitIsPow128();
    if n < LIMIT {
      EncodeLength(n);
      if |Encode(n)| > 4 {
        PowMono(4, |Encode(n)| - 1);
      }
    }
  }

  lemma {:induction false} PowMono(i: nat, j: nat)
    requires i <= j
    ensures Pow128(i) <= Pow128(j)
    decreases j
  {
    if i < j {
      PowMono(i, j - 1);
    }
  }

  // ---------------------------------------------------------------- prefix-free, shortest, canonical

  /** k bytes exactly for 128^(k-1) <= n < 128^k, where n below 128 (zero included) takes one. */
  lemma {:induction false} EncodeLength(n: nat)
    ensures n < Pow128(|Encode(n)|)
    ensures |Encode(n)| == 1 || Pow128(|Encode(n)| - 1) <= n
  {
    if n < 128 {
      assert Pow128(1) == 128;
    } else {
      EncodeLength(n / 128);
      assert Pow128(|Encode(n)| - 1) <= n by {
        if |Encode(n / 128)| == 1 {
          assert Pow128(1) == 128;
        }
      }
    }
  }

  lemma EncodeLengthExact(n: nat, k: nat)
    requires k >= 1
    ensures |Encode(n)| == k <==> (k == 1 || Pow128(k - 1) <= n) && n < Pow128(k)
  {
    EncodeLength(n);
    var e := |Encode(n)|;
    if k < e {
      PowMono(k, e - 1);
    } else if e < k {
      PowMono(e, k - 1);
    }
  }

  lemma {:induction false} PrefixFree(m: nat, x: seq<byte>, n: nat, y: seq<byte>)
    requires Encode(m) + x == Encode(n) + y
    ensures m == n && x == y
  {
    assert (Encode(m) + x)[0] == Encode(m)[0] && (Encode(n) + y)[0] == Encode(n)[0];
    assert (Encode(m) + x)[1..] == Encode(m)[1..] + x;
    assert (Encode(n) + y)[1..] == Encode(n)[1..] + y;
    if m >= 128 {
      PrefixFree(m / 128, x, n / 128, y);
    } else {
      assert Encode(m)[1..] + x == x && Encode(n)[1..] + y == y;
    }
  }

  /** A terminated varint: continuation bit set on every byte but the last. */
  predicate Terminated(p: seq<byte>) {
    && p != []
    && p[|p| - 1] < 128
    && forall i :: 0 <= i < |p| - 1 ==> p[i] >= 128
  }

  /** Every terminated varint that denotes n is at least as long as the one the encoder writes. */
  lemma {:induction false} Shortest(p: seq<byte>, k: nat)
    requires Terminated(p) && |p| <= k
    ensures Parse(p, k).used == |p|
    ensures |Encode(Parse(p, k).value)| <= |p|
  {
    if |p| > 1 {
      Shortest(p[1..], k - 1);
    }
  }

  /** Re-encoding a parsed terminated varint gives the same bytes iff it has no zero group on top. */
  lemma {:induction false} Canonical(p: seq<byte>, k: nat)
    requires Terminated(p) && |p| <= k
    ensures ReEncodes(Parse(p, k).value, p) <==> |p| == 1 || p[|p| - 1] != 0
  {
    ParseUnfold(p, k);
    if |p| > 1 {
      var rest := p[1..];
      Canonical(rest, k - 1);
      ParseUnfold(rest, k - 1);
      var v := Parse(rest, k - 1).value;
      CanonicalStep(p[0], rest, v);
      assert ReEncodes(v, rest) <==> |rest| == 1 || rest[|rest| - 1] != 0;
      assert p == [p[0]] + rest;
    } else {
      assert p == [p[0]];
    }
  }

  predicate ReEncodes(n: nat, p: seq<byte>) {
    Encode(n) == p
  }

  lemma ParseUnfold(p: seq<byte>, k: nat)
    requires Terminated(p) && k >= 1
    ensures |p| == 1 ==> Parse(p, k).value == p[0]
    ensures |p| > 1 ==> p[0] >= 128 && Terminated(p[1..])
                        && Parse(p, k).value == p[0] - 128 + 128 * Parse(p[1..], k - 1).value
  {
  }

  lemma CanonicalStep(b: byte, rest: seq<byte>, v: nat)
    requires b >= 128 && Terminated(rest)
    requires |rest| == 1 ==> rest[0] == v
    requires ReEncodes(v, rest) <==> |rest| == 1 || rest[|rest| - 1] != 0
    ensures ReEncodes(b - 128 + 128 * v, [b] + rest) <==> rest[|rest| - 1] != 0
  {
    var n := b - 128 + 128 * v;
    assert n / 128 == v && n % 128 == b - 128;
    if v == 0 {
      assert |Encode(n)| == 1;
      if rest[|rest| - 1] != 0 {
        assert false;
      }
    } else {
      assert Encode(n) == [b] + Encode(v);
      assert Encode(n)[1..] == Encode(v) && ([b] + rest)[1..] == rest;
    }
  }

  // ---------------------------------------------------------------- the table of the standard

  /** The bytes for every length the protocol allows, range by range. */
  lemma EncodeTable(n: nat)
    ensures n <= 127 ==> Encode(n) == [n]
    ensures 128 <= n <= 16_383 ==> Encode(n) == [128 + n % 128, n / 128]
    ensures 16_384 <= n <= 2_097_151 ==> Encode(n) == [128 + n % 128, 128 + n / 128 % 128, n / 16_384]
    ensures 2_097_152 <= n <= 268_435_455 ==>
              Encode(n) == [128 + n % 128, 128 + n / 128 % 128, 128 + n / 16_384 % 128, n / 2_097_152]
  {
    if 128 <= n <= 16_383 {
      TwoBytes(n);
    } else if 16_384 <= n <= 2_097_151 {
      ThreeBytes(n);
    } else if 2_097_152 <= n <= 268_435_455 {
      FourBytes(n);
    }
  }

  lemma TwoBytes(n: nat)
    requires 128 <= n <= 16_383
    ensures Encode(n) == [128 + n % 128, n / 128]
  {
    assert Encode(n / 128) == [n / 128];
  }

  lemma ThreeBytes(n: nat)
    requires 16_384 <= n <= 2_097_151
    ensures Encode(n) == [128 + n % 128, 128 + n / 128 % 128, n / 16_384]
  {
    DivTwice(n);
    TwoBytes(n / 128);
  }

  lemma FourBytes(n: nat)
    requires 2_097_152 <= n <= 268_435_455
    ensures Encode(n) == [128 + n % 128, 128 + n / 128 % 128, 128 + n / 16_384 % 128, n / 2_097_152]
  {
    DivTwice(n);
    ThreeBytes(n / 128);
  }

  lemma DivTwice(n: nat)
    ensures n / 128 / 128 == n / 16_384 && n / 128 / 16_384 == n / 2_097_152
  {
  }

  /** What the decoder makes of four bytes or more, whatever they are. */
  lemma ParseTable(a: byte, b: byte, c: byte, d: byte, tail: seq<byte>)
    ensures Parse([a, b, c, d] + tail, MAX_BYTES) ==
      if a < 128 then Parsed(a, 1)
      else if b < 128 then Parsed(a as int - 128 + 128 * b as int, 2)
      else if c < 128 then Parsed(a as int - 128 + 128 * (b as int - 128) + 16_384 * c as int, 3)
      else Parsed(a as int - 128 + 128 * (b as int - 128) + 16_384 * (c as int - 128)
                  + 2_097_152 * (d as int % 128), 4)
  {
    var x, y, z := [b, c, d] + tail, [c, d] + tail, [d] + tail;
    assert [a, b, c, d] + tail == [a] + x && x == [b] + y && y == [c] + z;
    ParseCons(a, x, 4);
    ParseCons(b, y, 3);
    ParseCons(c, z, 2);
    ParseCons(d, tail, 1);
  }

  lemma ParseCons(a: byte, s: seq<byte>, k: nat)
    requires k > 0
    ensures Parse([a] + s, k) ==
      if a < 128 then Parsed(a, 1)
      else Parsed(a as int - 128 + 128 * Parse(s, k - 1).value, 1 + Parse(s, k - 1).used)
  {
    assert ([a] + s)[1..] == s;
  }

  /** And of a buffer that ends earlier: a missing byte counts as the end of the length. */
  lemma ParseTruncated(a: byte, b: byte, c: byte)
    ensures Parse([], MAX_BYTES) == Parsed(0, 0)
    ensures Parse([a], MAX_BYTES) == Parsed(a as int % 128, 1)
    ensures Parse([a, b], MAX_BYTES) ==
      if a < 128 then Parsed(a, 1) else Parsed(a as int - 128 + 128 * (b as int % 128), 2)
    ensures Parse([a, b, c], MAX_BYTES) ==
      if a < 128 then Parsed(a, 1)
      else if b < 128 then Parsed(a as int - 128 + 128 * b as int, 2)
      else Parsed(a as int - 128 + 128 * (b as int - 128) + 16_384 * (c as int % 128), 3)
  {
    OneByteParse(a, 4);
    OneByteParse(b, 3);
    OneByteParse(c, 2);
    assert [a, b][1..] == [b] && [a, b, c][1..] == [b, c] && [b, c][1..] == [c];
  }

  lemma OneByteParse(a: byte, k: nat)
    requires k > 0
    ensures Parse([a], k) == Parsed(a as int % 128, 1)
  {
    assert [a][1..] == [];
  }
}
