/**
 * The C library routines the message parser relies on. A C string is a sequence of characters
 * without '\0'.
 */
module CStrings {
  import opened Bytes

  predicate IsSpace(c: char) {
    c == ' ' || 9 <= c as int <= 13
  }

  predicate IsDigit(c: char) {
    '0' <= c <= '9'
  }

  /** isspace in the C locale: blank, tab, newline, vertical tab, form feed, carriage return. */
  lemma WhiteSpace(c: char)
    ensures IsSpace(c) <==> c in " \t\n\U{0B}\U{0C}\r"
  {
  }

  /** strstr: offset of the first occurrence of n in h. */
  function StrStr(h: string, n: string): (r: Option<nat>)
    ensures r.Some? ==> r.value <= |h| && n <= h[r.value..]
    ensures r.Some? ==> forall i :: 0 <= i < r.value ==> !(n <= h[i..])
    ensures r.None? ==> forall i :: 0 <= i <= |h| ==> !(n <= h[i..])
  {
    if n <= h then Some(0)
    else if h == [] then None
    else
      assert forall i :: 1 <= i <= |h| ==> h[i..] == h[1..][i - 1..];
      var i :- StrStr(h[1..], n);
      Some(1 + i)
  }

  /** strchr: offset of the first c in h. */
  function StrChr(h: string, c: char): (r: Option<nat>)
    ensures r.Some? ==> r.value < |h| && h[r.value] == c && c !in h[..r.value]
    ensures r.None? <==> c !in h
  {
    if h == [] then None
    else if h[0] == c then Some(0)
    else
      var i :- StrChr(h[1..], c);
      assert h[..1 + i] == [h[0]] + h[1..][..i];
      Some(1 + i)
  }

  lemma StrChrIs(x: string, c: char, y: string)
    requires c !in x
    ensures StrChr(x + [c] + y, c) == Some(|x|)
  {
    var h := x + [c] + y;
    var i := StrChr(h, c).value;
    assert h[|x|] == c && c in h;
  }

  function SkipSpaces(s: string): string {
    if s != [] && IsSpace(s[0]) then SkipSpaces(s[1..]) else s
  }

  lemma {:induction false} SkipsExactly(gap: string, s: string)
    requires forall c :: c in gap ==> IsSpace(c)
    requires s != [] && !IsSpace(s[0])
    ensures SkipSpaces(gap + s) == s
  {
    if gap == [] {
      assert gap + s == s;
    } else {
      SkipsExactly(gap[1..], s);
      assert (gap + s)[1..] == gap[1..] + s;
    }
  }

  // ---------------------------------------------------------------- decimal numbers

  const LONG_MAX: int := 0x7FFF_FFFF_FFFF_FFFF
  const LONG_MIN: int := -0x8000_0000_0000_0000

  function Digit(d: nat): (c: char)
    requires d < 10
    ensures IsDigit(c) && DigitValue(c) == d
  {
    ('0' as int + d) as char
  }

  function DigitValue(c: char): int {
    c as int - '0' as int
  }

  function PrintNat(n: nat): (s: string)
    ensures s != [] && forall c :: c in s ==> IsDigit(c)
  {
    if n < 10 then [Digit(n)] else PrintNat(n / 10) + [Digit(n % 10)]
  }

  /** sprintf("%ld"). */
  function PrintLong(n: int): string {
    if n < 0 then "-" + PrintNat(-n) else PrintNat(n)
  }

  /** How many digits s starts with. */
  function DigitRun(s: string): (k: nat)
    ensures k <= |s|
  {
    if s != [] && IsDigit(s[0]) then 1 + DigitRun(s[1..]) else 0
  }

  function Number(s: string): int {
    if s == [] then 0 else 10 * Number(s[..|s| - 1]) + DigitValue(s[|s| - 1])
  }

  function Clamp(n: int): int {
    if n < LONG_MIN then LONG_MIN else if n > LONG_MAX then LONG_MAX else n
  }

  datatype Parsed = Parsed(num: int, used: nat)

  /** strtol in base 10 on text that does not start with white space: value and characters read. */
  function StrToL(s: string): Parsed {
    var sign := if s != [] && (s[0] == '-' || s[0] == '+') then 1 else 0;
    var k := DigitRun(s[sign..]);
    var n := Number(s[sign..][..k]);
    if k == 0 then Parsed(0, 0)
    else Parsed(Clamp(if s[0] == '-' then -n else n), sign + k)
  }

  lemma {:induction false} RunOf(d: string, tail: string)
    requires forall c :: c in d ==> IsDigit(c)
    requires tail == [] || !IsDigit(tail[0])
    ensures DigitRun(d + tail) == |d|
  {
    if d == [] {
      assert d + tail == tail;
    } else {
      RunOf(d[1..], tail);
      assert (d + tail)[1..] == d[1..] + tail;
    }
  }

  lemma {:induction false} NumberOfPrinted(n: nat)
    ensures Number(PrintNat(n)) == n
  {
    var s := PrintNat(n);
    if n < 10 {
      assert Number(s[..0]) == 0;
    } else {
      NumberOfPrinted(n / 10);
      assert s[..|s| - 1] == PrintNat(n / 10);
    }
  }

  lemma DigitsAt(n: nat, tail: string)
    requires tail == [] || !IsDigit(tail[0])
    ensures var s := PrintNat(n) + tail;
            DigitRun(s) == |PrintNat(n)| && Number(s[..DigitRun(s)]) == n
  {
    var d := PrintNat(n);
    RunOf(d, tail);
    NumberOfPrinted(n);
    assert (d + tail)[..|d|] == d;
  }

  lemma ReadNegative(n: nat, tail: string)
    requires n <= -LONG_MIN && (tail == [] || !IsDigit(tail[0]))
    ensures StrToL("-" + (PrintNat(n) + tail)) == Parsed(-(n as int), 1 + |PrintNat(n)|)
  {
    var s := "-" + (PrintNat(n) + tail);
    DigitsAt(n, tail);
    assert s[1..] == PrintNat(n) + tail;
  }

  lemma ReadPositive(n: nat, tail: string)
    requires n <= LONG_MAX && (tail == [] || !IsDigit(tail[0]))
    ensures StrToL(PrintNat(n) + tail) == Parsed(n, |PrintNat(n)|)
  {
    var s := PrintNat(n) + tail;
    DigitsAt(n, tail);
    assert s[0] == PrintNat(n)[0] && PrintNat(n)[0] in PrintNat(n);
    assert s[0..] == s;
  }

  /** strtol reads a printed long back, and stops right after it. */
  lemma StrToLPrinted(n: int, tail: string)
    requires LONG_MIN <= n <= LONG_MAX
    requires tail == [] || !IsDigit(tail[0])
    ensures StrToL(PrintLong(n) + tail) == Parsed(n, |PrintLong(n)|)
  {
    if n < 0 {
      ReadNegative(-n, tail);
      Assoc("-", PrintNat(-n), tail);
    } else {
      ReadPositive(n, tail);
    }
  }

  // ---------------------------------------------------------------- strtol on any number

  const DIGITS: string := "0123456789"

  lemma DigitsAre(c: char)
    ensures IsDigit(c) <==> c in DIGITS
    ensures forall d: nat :: d < 10 ==> DIGITS[d] == Digit(d)
  {
    assert IsDigit(c) ==> c == DIGITS[c as int - '0' as int];
  }

  /** Decimal notation: one digit for a number below ten, and one more for every factor of ten. */
  lemma Decimal(n: nat, d: nat)
    requires d < 10
    ensures PrintNat(d) == [DIGITS[d]]
    ensures n > 0 ==> PrintNat(10 * n + d) == PrintNat(n) + [DIGITS[d]]
  {
    DigitsAre('0');
    assert (10 * n + d) / 10 == n && (10 * n + d) % 10 == d;
  }

  /** A digit more is ten times the value and the digit. */
  lemma NumberSnoc(s: string, d: nat)
    requires d < 10
    ensures Number([]) == 0 && Number(s + [DIGITS[d]]) == 10 * Number(s) + d
  {
    DigitsAre('0');
    assert (s + [DIGITS[d]])[..|s|] == s;
  }

  /** strtol on a sign if any, at least one digit, and then something else; the value saturates. */
  lemma StrToLExact(sign: string, digits: string, tail: string)
    requires sign in {"", "-", "+"} && digits != [] && forall c :: c in digits ==> IsDigit(c)
    requires tail == [] || !IsDigit(tail[0])
    ensures var n := if sign == "-" then -Number(digits) else Number(digits);
            var r := StrToL(sign + (digits + tail));
            && r.used == |sign| + |digits|
            && (n > 9_223_372_036_854_775_807 ==> r.num == 9_223_372_036_854_775_807)
            && (n < -9_223_372_036_854_775_808 ==> r.num == -9_223_372_036_854_775_808)
            && (-9_223_372_036_854_775_808 <= n <= 9_223_372_036_854_775_807 ==> r.num == n)
  {
    var rest := digits + tail;
    assert digits[0] in digits;
    RunOf(digits, tail);
    assert rest[..|digits|] == digits && rest[0] == digits[0];
    Signed(sign, rest);
  }

  lemma Signed(sign: string, rest: string)
    requires sign in {"", "-", "+"} && rest != []
    ensures (sign + rest)[|sign|..] == rest && (sign + rest)[0] == if sign == "" then rest[0] else sign[0]
    ensures |sign| == if sign == "" then 0 else 1
  {
  }

  /** strtol without a digit behind the sign reads nothing, not even the sign. */
  lemma NoDigits(sign: string, tail: string)
    requires sign in {"", "-", "+"} && (tail == [] || !IsDigit(tail[0]))
    requires sign == "" && tail != [] ==> tail[0] != '-' && tail[0] != '+'
    ensures StrToL(sign + tail) == Parsed(0, 0)
  {
    if sign == "" {
      assert sign + tail == tail && tail[0..] == tail;
    } else {
      assert (sign + tail)[0] == sign[0] && (sign + tail)[1..] == tail;
    }
  }

  lemma {:induction false} RunAppend(s: string, rest: string)
    requires rest == [] || !IsDigit(rest[0])
    ensures DigitRun(s + rest) == DigitRun(s)
  {
    if s == [] {
      assert s + rest == rest;
    } else {
      RunAppend(s[1..], rest);
      assert (s + rest)[1..] == s[1..] + rest;
    }
  }

  /** Text that neither continues nor begins a number makes no difference to strtol. */
  lemma StrToLAppend(s: string, rest: string)
    requires rest != [] && !IsDigit(rest[0]) && rest[0] != '-' && rest[0] != '+'
    ensures StrToL(s + rest) == StrToL(s)
  {
    if s == [] {
      assert s + rest == rest && rest[0..] == rest;
    } else {
      var sign := if s[0] == '-' || s[0] == '+' then 1 else 0;
      RunAppend(s[sign..], rest);
      assert (s + rest)[0] == s[0] && (s + rest)[sign..] == s[sign..] + rest;
      assert (s[sign..] + rest)[..DigitRun(s[sign..])] == s[sign..][..DigitRun(s[sign..])];
    }
  }

  // ---------------------------------------------------------------- buffers

  /** The characters of a buffer in front of its first '\0'. */
  function UpToNul(s: seq<char>): string {
    if s == [] || s[0] == '\0' then [] else [s[0]] + UpToNul(s[1..])
  }

  lemma {:induction false} UpToNulIs(x: string, y: seq<char>)
    requires '\0' !in x
    ensures UpToNul(x + ['\0'] + y) == x
  {
    var s := x + ['\0'] + y;
    if x != [] {
      UpToNulIs(x[1..], y);
      assert s[1..] == x[1..] + ['\0'] + y;
    }
  }

  lemma UpToNulEnd(x: string)
    requires '\0' !in x
    ensures UpToNul(x + ['\0']) == x
  {
    UpToNulIs(x, []);
    assert x + ['\0'] + [] == x + ['\0'];
  }

  /** Writing a terminator over character p of a C string leaves two C strings. */
  lemma CutInTwo(text: string, p: nat)
    requires '\0' !in text && p < |text|
    ensures var cut, right := (text + ['\0'])[p := '\0'], text[p + 1..];
            UpToNul(cut) == text[..p] && cut[p + 1..] == right + ['\0'] && UpToNul(cut[p + 1..]) == right
    ensures '\0' !in text[..p] && '\0' !in text[p + 1..]
  {
    var cut, right := (text + ['\0'])[p := '\0'], text[p + 1..];
    assert cut == text[..p] + ['\0'] + (right + ['\0']);
    UpToNulIs(text[..p], right + ['\0']);
    UpToNulEnd(right);
  }

  /** What a buffer holds after a string and its terminator are written at its start. */
  ghost predicate Holds(after: seq<char>, before: seq<char>, s: string) {
    |s| < |before| && after == s + ['\0'] + before[|s| + 1..]
  }

  /** strcpy, and strncpy of a known length followed by the terminator. */
  method Put(dst: array<char>, s: string)
    requires |s| < dst.Length
    modifies dst
    ensures Holds(dst[..], old(dst[..]), s)
  {
    forall i | 0 <= i < |s| {
      dst[i] := s[i];
    }
    dst[|s|] := '\0';
  }
}
