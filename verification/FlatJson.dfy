/** Printed flat JSON objects, and what the substring search of extract_json_value finds in them. */
module FlatJson {
  import opened Bytes
  import opened CStrings
  import opened IotParser

  /** A text in quotes, or anything without: a number, true, null, an array of numbers. */
  datatype Value = Text(s: string) | Bare(t: string)

  /** A pair with the white space a printer puts before the key and after the colon. */
  datatype Pair = Pair(lead: string, key: string, gap: string, value: Value)

  predicate Blank(s: string) {
    forall c :: c in s ==> IsSpace(c)
  }

  /** The longest key search_key has room for. */
  const MAX_KEY: nat := 32

  /**
   * A key that reads like the text between the closing quote of one string and the opening quote of
   * the next: in {"a":":z"}, say, the search for ":" stops between the first two strings.
   */
  ghost predicate LikeGap(k: string) {
    || LikeColon(k)
    || LikeComma(k)
    || exists front: string, lead: string :: LikeBare(k, front, lead)
  }

  predicate LikeColon(k: string) {
    k != [] && k[0] == ':' && Blank(k[1..])
  }

  predicate LikeComma(k: string) {
    k != [] && k[0] == ',' && Blank(k[1..])
  }

  /** A colon first, a comma last but for white space. */
  predicate LikeBare(k: string, front: string, lead: string) {
    Blank(lead) && front != [] && front[0] == ':' && k == front + ("," + lead)
  }

  ghost predicate KeyOk(k: string) {
    |k| <= MAX_KEY && '"' !in k && !LikeGap(k)
  }

  predicate BareOk(t: string) {
    '"' !in t && (t != [] ==> !IsSpace(t[0]))
  }

  predicate Printable(p: Pair) {
    && Blank(p.lead) && Blank(p.gap) && '"' !in p.key
    && match p.value
       case Text(s) => '"' !in s
       case Bare(t) => BareOk(t)
  }

  ghost predicate AllPrintable(ps: seq<Pair>) {
    forall i :: 0 <= i < |ps| ==> Printable(ps[i])
  }

  function PrintValue(v: Value): string {
    match v
    case Text(s) => "\"" + s + "\""
    case Bare(t) => t
  }

  /** The text from the opening brace (c == '{') or from a comma on. */
  function PrintFrom(c: char, ps: seq<Pair>): string
    decreases |ps|
  {
    if ps == [] then (if c == '{' then "{}" else "}")
    else [c] + PrintPair(ps[0], PrintFrom(',', ps[1..]))
  }

  function PrintPair(p: Pair, rest: string): string {
    p.lead + Keyed(p.key, p.gap + (PrintValue(p.value) + rest))
  }

  function Keyed(key: string, after: string): string {
    "\"" + (key + ("\":" + after))
  }

  function Print(ps: seq<Pair>): string {
    PrintFrom('{', ps)
  }

  /** The value of the first pair with this key. */
  function Lookup(ps: seq<Pair>, key: string): Option<Value> {
    if ps == [] then None
    else if ps[0].key == key then Some(ps[0].value)
    else Lookup(ps[1..], key)
  }

  // ---------------------------------------------------------------- text without a match

  /** A quote-free stretch holds no match: the search gives the same with it in front. */
  lemma {:induction false} SkipQuoteFree(x: string, rest: string, n: string)
    requires '"' !in x && n != [] && n[0] == '"'
    ensures AfterKey(x + rest, n) == AfterKey(rest, n)
  {
    if x == [] {
      assert x + rest == rest;
    } else {
      var later := x[1..] + rest;
      SkipQuoteFree(x[1..], rest, n);
      SkipOther(x[0], later, n);
      HeadApart(x, rest);
    }
  }

  lemma HeadApart(x: string, rest: string)
    requires x != []
    ensures x + rest == [x[0]] + (x[1..] + rest)
  {
  }

  lemma SkipOther(c: char, rest: string, n: string)
    requires n != [] && n[0] != c
    ensures AfterKey([c] + rest, n) == AfterKey(rest, n)
  {
    assert ([c] + rest)[0] == c;
    SkipOne(c, rest, n);
  }

  lemma SkipOne(c: char, rest: string, n: string)
    requires !(n <= [c] + rest)
    ensures AfterKey([c] + rest, n) == AfterKey(rest, n)
  {
    var s := [c] + rest;
    assert s[1..] == rest;
    if StrStr(rest, n).Some? {
      var i := StrStr(rest, n).value;
      assert s[1 + i..] == rest[i..];
    }
  }

  lemma BlankQuoteFree(s: string)
    requires Blank(s)
    ensures '"' !in s
  {
  }

  lemma NumberQuoteFree(n: int)
    ensures '"' !in PrintLong(n)
    ensures PrintLong(n) != [] && !IsSpace(PrintLong(n)[0]) && PrintLong(n)[0] != '"'
  {
    var d := PrintNat(if n < 0 then -n else n);
    assert d[0] in d;
  }

  /** Two quote-free words with a quote behind each, one a prefix of the other, are the same word. */
  lemma SameWord(k: string, x: string, w: string, y: string)
    requires '"' !in k && '"' !in w
    requires k + ("\"" + x) <= w + ("\"" + y)
    ensures k == w && x <= y
  {
    var a, b := k + ("\"" + x), w + ("\"" + y);
    assert a[|k|] == '"' && b[|w|] == '"';
    assert |k| == |w|;
    assert a[..|k|] == k && b[..|k|] == w;
    assert a[|k| + 1..] == x && b[|k| + 1..] == y;
  }

  lemma SearchFor(key: string)
    requires |key| <= MAX_KEY
    ensures SearchKey(key) == "\"" + (key + "\":")
  {
    assert "\"" + key + "\":" == "\"" + (key + "\":");
  }

  /** No match starts at a quote whose word differs from the key or is not followed by a colon. */
  lemma NotAtWord(key: string, w: string, y: string)
    requires '"' !in key && '"' !in w
    requires w != key || y == [] || y[0] != ':'
    ensures !("\"" + (key + "\":") <= "\"" + (w + ("\"" + y)))
  {
    var n, t := "\"" + (key + "\":"), "\"" + (w + ("\"" + y));
    if n <= t {
      assert n[1..] == key + ("\"" + ":") && t[1..] == w + ("\"" + y);
      assert n[1..] <= t[1..];
      SameWord(key, ":", w, y);
      assert false;
    }
  }

  /** No match starts where no second quote follows. */
  lemma NotAtEnd(key: string, y: string)
    requires '"' !in y
    ensures !("\"" + (key + "\":") <= "\"" + y)
  {
    var n, t := "\"" + (key + "\":"), "\"" + y;
    assert n[|key| + 1] == '"';
    forall i | 1 <= i < |t|
      ensures t[i] != '"'
    {
      assert t[i] == y[i - 1];
    }
  }

  /** No match starts at the closing quote of a text: up to the next quote there is a comma and space. */
  lemma NotAfterText(key: string, ps: seq<Pair>)
    requires KeyOk(key) && AllPrintable(ps)
    ensures !("\"" + (key + "\":") <= "\"" + PrintFrom(',', ps))
  {
    if ps == [] {
      NotAtEnd(key, "}");
    } else {
      var w, y := "," + ps[0].lead, AfterQuote(ps);
      OpensKey(ps);
      BlankQuoteFree(ps[0].lead);
      assert !LikeComma(key) && w[0] == ',' && w[1..] == ps[0].lead;
      NotAtWord(key, w, y);
    }
  }

  /** What follows the opening quote of the first key. */
  function AfterQuote(ps: seq<Pair>): string
    requires ps != []
  {
    ps[0].key + ("\":" + (ps[0].gap + (PrintValue(ps[0].value) + PrintFrom(',', ps[1..]))))
  }

  lemma OpensKey(ps: seq<Pair>)
    requires ps != []
    ensures PrintFrom(',', ps) == ("," + ps[0].lead) + ("\"" + AfterQuote(ps))
  {
    var t := "\"" + AfterQuote(ps);
    assert PrintFrom(',', ps) == "," + (ps[0].lead + t);
    Assoc(",", ps[0].lead, t);
  }

  /** No match starts at the closing quote of a key whose value is a text. */
  lemma NotBeforeText(key: string, gap: string, s: string, rest: string)
    requires KeyOk(key) && Blank(gap)
    ensures !("\"" + (key + "\":") <= "\"" + (":" + (gap + (PrintValue(Text(s)) + rest))))
  {
    var w, y := ":" + gap, s + ("\"" + rest);
    BlankQuoteFree(gap);
    assert PrintValue(Text(s)) + rest == "\"" + y;
    Assoc(":", gap, "\"" + y);
    assert !LikeColon(key) && w[0] == ':' && w[1..] == gap;
    NotAtWord(key, w, y);
  }

  /** No match starts at the closing quote of a key whose value stands without quotes. */
  lemma NotBeforeBare(key: string, gap: string, t: string, ps: seq<Pair>)
    requires KeyOk(key) && Blank(gap) && AllPrintable(ps) && '"' !in t
    ensures !("\"" + (key + "\":") <= "\"" + (":" + (gap + (t + PrintFrom(',', ps)))))
  {
    BlankQuoteFree(gap);
    if ps == [] {
      NotAtEnd(key, ":" + (gap + (t + "}")));
    } else {
      var lead, y := ps[0].lead, AfterQuote(ps);
      var front := ":" + (gap + t);
      var w := front + ("," + lead);
      OpensKey(ps);
      BlankQuoteFree(lead);
      FrontParts(":", gap, t, "," + lead, "\"" + y);
      assert !LikeBare(key, front, lead);
      NotAtWord(key, w, y);
    }
  }

  lemma FrontParts(a: string, b: string, c: string, d: string, e: string)
    ensures a + (b + (c + (d + e))) == ((a + (b + c)) + d) + e
  {
    Assoc(b, c, d + e);
    Assoc(a, b + c, d + e);
    Assoc(a + (b + c), d, e);
  }

  lemma NotAfterKey(key: string, gap: string, v: Value, ps: seq<Pair>)
    requires KeyOk(key) && Blank(gap) && AllPrintable(ps)
    requires v.Bare? ==> '"' !in v.t
    ensures !("\"" + (key + "\":") <= "\"" + (":" + (gap + (PrintValue(v) + PrintFrom(',', ps)))))
  {
    match v
    case Text(s) => NotBeforeText(key, gap, s, PrintFrom(',', ps));
    case Bare(t) => NotBeforeBare(key, gap, t, ps);
  }

  // ---------------------------------------------------------------- skipping a pair

  lemma SkipValue(v: Value, ps: seq<Pair>, key: string)
    requires KeyOk(key) && AllPrintable(ps)
    requires '"' !in if v.Text? then v.s else v.t
    ensures var rest := PrintFrom(',', ps);
            AfterKey(PrintValue(v) + rest, SearchKey(key)) == AfterKey(rest, SearchKey(key))
  {
    var n, rest := SearchKey(key), PrintFrom(',', ps);
    SearchFor(key);
    match v {
      case Bare(t) =>
        SkipQuoteFree(t, rest, n);
      case Text(s) =>
        assert PrintValue(v) + rest == "\"" + (s + ("\"" + rest));
        RestStart(ps);
        NotAtWord(key, s, rest);
        SkipOne('"', s + ("\"" + rest), n);
        SkipQuoteFree(s, "\"" + rest, n);
        NotAfterText(key, ps);
        SkipOne('"', rest, n);
    }
  }

  lemma SkipLead(c: char, lead: string, t: string, n: string)
    requires Blank(lead) && c != '"' && n != [] && n[0] == '"'
    ensures AfterKey([c] + (lead + t), n) == AfterKey(t, n)
  {
    BlankQuoteFree(lead);
    SkipQuoteFree([c], lead + t, n);
    SkipQuoteFree(lead, t, n);
  }

  /** No match in a key that is not the one searched for, nor at its quotes. */
  lemma SkipKeyed(w: string, after: string, key: string)
    requires |key| <= MAX_KEY && '"' !in key && '"' !in w && w != key
    requires !("\"" + (key + "\":") <= "\"" + (":" + after))
    ensures AfterKey(Keyed(w, after), SearchKey(key)) == AfterKey(after, SearchKey(key))
  {
    var n := SearchKey(key);
    SearchFor(key);
    SkipWord(w, after, key);
    SkipOne('"', ":" + after, n);
    SkipQuoteFree(":", after, n);
  }

  lemma SkipWord(w: string, after: string, key: string)
    requires |key| <= MAX_KEY && '"' !in key && '"' !in w && w != key
    ensures AfterKey(Keyed(w, after), SearchKey(key)) == AfterKey("\"" + (":" + after), SearchKey(key))
  {
    var n, close := SearchKey(key), "\"" + (":" + after);
    SearchFor(key);
    assert Keyed(w, after) == "\"" + (w + close);
    NotAtWord(key, w, ":" + after);
    SkipOne('"', w + close, n);
    SkipQuoteFree(w, close, n);
  }

  lemma SkipPair(c: char, p: Pair, ps: seq<Pair>, key: string)
    requires Printable(p) && AllPrintable(ps) && KeyOk(key) && p.key != key && c != '"'
    ensures var rest := PrintFrom(',', ps);
            AfterKey([c] + PrintPair(p, rest), SearchKey(key)) == AfterKey(rest, SearchKey(key))
  {
    var n, shown := SearchKey(key), PrintValue(p.value) + PrintFrom(',', ps);
    SearchFor(key);
    SkipLead(c, p.lead, Keyed(p.key, p.gap + shown), n);
    NotAfterKey(key, p.gap, p.value, ps);
    SkipKeyed(p.key, p.gap + shown, key);
    BlankQuoteFree(p.gap);
    SkipQuoteFree(p.gap, shown, n);
    SkipValue(p.value, ps, key);
  }

  lemma AtStart(n: string, after: string)
    ensures AfterKey(n + after, n) == Some(after)
  {
    var t := n + after;
    assert t[..|n|] == n && t[0..] == t && t[|n|..] == after;
  }

  lemma AtKeyed(key: string, after: string)
    requires |key| <= MAX_KEY && '"' !in key
    ensures AfterKey(Keyed(key, after), SearchKey(key)) == Some(after)
  {
    SearchFor(key);
    assert Keyed(key, after) == SearchKey(key) + after;
    AtStart(SearchKey(key), after);
  }

  lemma AtPair(c: char, p: Pair, rest: string)
    requires Printable(p) && |p.key| <= MAX_KEY && c != '"'
    ensures AfterKey([c] + PrintPair(p, rest), SearchKey(p.key))
         == Some(p.gap + (PrintValue(p.value) + rest))
  {
    var after := p.gap + (PrintValue(p.value) + rest);
    SearchFor(p.key);
    SkipLead(c, p.lead, Keyed(p.key, after), SearchKey(p.key));
    AtKeyed(p.key, after);
  }

  lemma RestStart(ps: seq<Pair>)
    ensures var t := PrintFrom(',', ps);
            t != [] && (t[0] == ',' || t[0] == '}')
  {
  }

  // ---------------------------------------------------------------- reading the value

  lemma ReadBare(gap: string, t: string, rest: string)
    requires Blank(gap) && BareOk(t)
    requires rest != [] && (rest[0] == ',' || rest[0] == '}')
    ensures ValueAt(SkipSpaces(gap + (t + rest))) == Found(Bare(t))
  {
    var v := t + rest;
    assert v[0] == if t == [] then rest[0] else t[0];
    assert t != [] ==> t[0] in t;
    SkipsExactly(gap, v);
    StrToLAppend(t, rest);
  }

  lemma ReadText(gap: string, s: string, rest: string)
    requires Blank(gap) && '"' !in s
    ensures ValueAt(SkipSpaces(gap + ("\"" + s + "\"" + rest))) == Found(Text(s))
  {
    var v := "\"" + s + "\"" + rest;
    assert v[0] == '"';
    SkipsExactly(gap, v);
    assert v[1..] == s + ['"'] + rest;
    StrChrIs(s, '"', rest);
    assert v[1..][..|s|] == s;
  }

  lemma ReadValue(p: Pair, rest: string)
    requires Printable(p) && rest != [] && (rest[0] == ',' || rest[0] == '}')
    ensures ValueAt(SkipSpaces(p.gap + (PrintValue(p.value) + rest))) == Found(p.value)
  {
    match p.value {
      case Bare(t) => ReadBare(p.gap, t, rest);
      case Text(s) => ReadText(p.gap, s, rest);
    }
  }

  /** What extract_json_value reports for a value: the string itself, or the number strtol makes of it. */
  function Found(v: Value): Extracted {
    match v
    case Text(s) => Extracted(|s|, Some(s))
    case Bare(t) => Extracted(StrToL(t).used, Some(PrintLong(StrToL(t).num)))
  }

  lemma {:induction false} ExtractFrom(c: char, ps: seq<Pair>, key: string)
    requires AllPrintable(ps) && KeyOk(key) && (c == '{' || c == ',')
    ensures Extract(PrintFrom(c, ps), key) == match Lookup(ps, key)
              case None => Extracted(0, None)
              case Some(v) => Found(v)
  {
    SearchFor(key);
    if ps == [] {
      SkipQuoteFree(PrintFrom(c, ps), [], SearchKey(key));
      assert PrintFrom(c, ps) + [] == PrintFrom(c, ps);
      assert StrStr([], SearchKey(key)) == None;
    } else {
      var rest := PrintFrom(',', ps[1..]);
      RestStart(ps[1..]);
      if ps[0].key == key {
        AtPair(c, ps[0], rest);
        ReadValue(ps[0], rest);
      } else {
        assert AllPrintable(ps[1..]);
        SkipPair(c, ps[0], ps[1..], key);
        ExtractFrom(',', ps[1..], key);
      }
    }
  }

  /**
   * On every printed flat object, extract_json_value returns the value of the first pair with the
   * key and its length; when the key is absent it returns 0 and writes nothing.
   */
  lemma ExtractPrinted(ps: seq<Pair>, key: string)
    requires AllPrintable(ps) && KeyOk(key)
    ensures Extract(Print(ps), key) == match Lookup(ps, key)
              case None => Extracted(0, None)
              case Some(v) => Found(v)
  {
    ExtractFrom('{', ps, key);
  }

  /** A text without its closing quote is not delivered: the value is left alone and 0 returned. */
  lemma UnclosedText(front: string, key: string, gap: string, s: string)
    requires '"' !in front && '"' !in key && |key| <= MAX_KEY && Blank(gap) && '"' !in s
    ensures Extract(front + Keyed(key, gap + ("\"" + s)), key) == Extracted(0, None)
  {
    var v := "\"" + s;
    SearchFor(key);
    SkipQuoteFree(front, Keyed(key, gap + v), SearchKey(key));
    AtKeyed(key, gap + v);
    SkipsExactly(gap, v);
    assert v[1..] == s;
  }

  /** A long comes back as it was printed. */
  lemma LongFound(n: int)
    requires LONG_MIN <= n <= LONG_MAX
    ensures Found(Bare(PrintLong(n))) == Extracted(|PrintLong(n)|, Some(PrintLong(n)))
  {
    StrToLPrinted(n, []);
    assert PrintLong(n) + [] == PrintLong(n);
  }

  /** Of any other number the sign and the digits in front are read, within the range of a long. */
  lemma NumberFound(sign: string, digits: string, more: string)
    requires sign in {"", "-", "+"} && digits != [] && forall c :: c in digits ==> IsDigit(c)
    requires more == [] || !IsDigit(more[0])
    ensures var n := if sign == "-" then -Number(digits) else Number(digits);
            var r := Found(Bare(sign + (digits + more)));
            && r.ret == |sign| + |digits|
            && (-9_223_372_036_854_775_808 <= n <= 9_223_372_036_854_775_807 ==> r.text == Some(PrintLong(n)))
  {
    StrToLExact(sign, digits, more);
  }

  /** The object of the sample message. */
  function Sample(): seq<Pair> {
    [Pair("", "device_id", "", Text("sensor01")), Pair("", "temperature", "", Bare("23.5")),
     Pair("", "status", "", Text("active"))]
  }

  /** The temperature of the sample message loses what is behind its decimal point. */
  lemma SampleTemperature()
    ensures Extract(Print(Sample()), "temperature") == Extracted(2, Some("23"))
  {
    SampleLookup("temperature");
    SampleValue();
    SamplePrintable();
    NoGap("temperature");
    ExtractPrinted(Sample(), "temperature");
  }

  lemma SamplePrintable()
    ensures AllPrintable(Sample())
  {
    assert Printable(Sample()[0]);
    assert Printable(Sample()[1]);
    assert Printable(Sample()[2]);
  }

  lemma SampleLookup(key: string)
    requires key == "temperature"
    ensures Lookup(Sample(), key) == Some(Bare("23.5"))
  {
    SecondFound(Sample()[0], Sample()[1], Sample()[2], key) by {
      assert |"device_id"| == 9 && |key| == 11;
    }
  }

  lemma SecondFound(p: Pair, q: Pair, r: Pair, key: string)
    requires p.key != key == q.key
    ensures Lookup([p, q, r], key) == Some(q.value)
  {
    var later := [p, q, r][1..];
    assert later[0] == q;
    assert Lookup(later, key) == Some(q.value);
  }

  lemma SampleValue()
    ensures Found(Bare("23.5")) == Extracted(2, Some("23"))
  {
    var d := [DIGITS[2], DIGITS[3]];
    TwoDigits(2, 3);
    assert d == "23" && "" + (d + ".5") == "23.5";
    assert forall c :: c in d ==> IsDigit(c);
    NumberFound("", d, ".5");
  }

  lemma TwoDigits(a: nat, b: nat)
    requires 0 < a < 10 && b < 10
    ensures var d := [DIGITS[a], DIGITS[b]];
            Number(d) == 10 * a + b && PrintLong(10 * a + b) == d
  {
    NumberSnoc([], a);
    NumberSnoc([DIGITS[a]], b);
    assert [] + [DIGITS[a]] == [DIGITS[a]] && [DIGITS[a]] + [DIGITS[b]] == [DIGITS[a], DIGITS[b]];
    Decimal(0, a);
    Decimal(a, b);
  }

  /** Keys that begin with neither colon nor comma are not mistaken for a gap. */
  lemma NoGap(key: string)
    requires key == [] || (key[0] != ':' && key[0] != ',')
    ensures !LikeGap(key)
  {
  }

  /** The text begins with digits, a sign in front of them or not. */
  predicate BeginsNumber(t: string) {
    || (t != [] && IsDigit(t[0]))
    || (|t| >= 2 && (t[0] == '-' || t[0] == '+') && IsDigit(t[1]))
  }

  lemma NothingRead(t: string)
    ensures StrToL(t).used == 0 <==> !BeginsNumber(t)
  {
    if t != [] {
      assert t[0..] == t;
    }
  }

  /** A return value of 0 means the key is absent, or its first value an empty string or no number. */
  lemma ZeroMeans(ps: seq<Pair>, key: string)
    requires AllPrintable(ps) && KeyOk(key)
    ensures Extract(Print(ps), key).ret == 0
            <==> match Lookup(ps, key)
                 case None => true
                 case Some(Text(s)) => s == ""
                 case Some(Bare(t)) => !BeginsNumber(t)
  {
    ExtractPrinted(ps, key);
    match Lookup(ps, key)
    case Some(Bare(t)) => NothingRead(t);
    case _ =>
  }

  /**
   * The limit on the key is sharp: search_key has no room for the colon of a 33-character key, so
   * the search stops in front of it, strtol reads nothing, and every value comes back as "0".
   */
  lemma OneOverTheLimit(p: Pair, ps: seq<Pair>)
    requires |p.key| == 33 && '"' !in p.key && Blank(p.lead)
    ensures Extract(Print([p] + ps), p.key) == Extracted(0, Some("0"))
  {
    var n := SearchKey(p.key);
    var after := p.gap + (PrintValue(p.value) + PrintFrom(',', ps));
    assert ([p] + ps)[1..] == ps;
    LongSearch(p.key, after);
    SkipLead('{', p.lead, Keyed(p.key, after), n);
    AtStart(n, ":" + after);
    assert Print([p] + ps) == ['{'] + (p.lead + Keyed(p.key, after));
    assert AfterKey(Print([p] + ps), n) == Some(":" + after);
    ReadsZero(":" + after);
  }

  lemma LongSearch(key: string, after: string)
    requires |key| == 33
    ensures SearchKey(key) != [] && SearchKey(key)[0] == '"'
    ensures Keyed(key, after) == SearchKey(key) + (":" + after)
  {
    assert SearchKey(key) == "\"" + (key + "\"");
  }

  lemma ReadsZero(v: string)
    requires v != [] && v[0] in ":z"
    ensures ValueAt(SkipSpaces(v)) == Extracted(0, Some("0"))
  {
    assert v[0..] == v;
    assert SkipSpaces(v) == v && StrToL(v) == CStrings.Parsed(0, 0);
    assert PrintLong(0) == "0";
  }

  /** White space is skipped at most up to the next quote. */
  lemma {:induction false} SkipStops(k: string, t: string)
    requires '"' !in k
    ensures var v := SkipSpaces(k + ("\"" + t));
            v != [] && (v[0] == '"' ==> v == "\"" + t)
  {
    var s := k + ("\"" + t);
    if k == [] {
      assert s == "\"" + t;
    } else if IsSpace(s[0]) {
      SkipStops(k[1..], t);
      assert s[1..] == k[1..] + ("\"" + t);
    } else {
      assert s[0] == k[0];
    }
  }

  /** A value that is not the one-character text ":" is read where no opening quote of a value stands. */
  lemma MisreadAt(v: string)
    requires v != [] && (v[0] == '"' ==> v == "\"" + ":\"\"}")
    ensures ValueAt(v) != Found(Text(""))
  {
    if v[0] == '"' {
      assert v[1..] == ":" + ['"'] + "\"}";
      StrChrIs(":", '"', "\"}");
    } else {
      NumberQuoteFree(StrToL(v).num);
    }
  }

  /** What the truncated search leaves in front of the value, for a key beyond the limit. */
  lemma TruncatedSearch(key: string) returns (k: string, t: string)
    requires |key| >= 33 && '"' !in key
    ensures SearchKey(key) != [] && SearchKey(key)[0] == '"'
    ensures '"' !in k && Keyed(key, "\"\"}") == SearchKey(key) + (k + ("\"" + t))
    ensures t == ":\"\"}" || (k != [] && !IsSpace(k[0]))
  {
    var full := Keyed(key, "\"\"}");
    assert SearchKey(key) == full[..SEARCH_KEY_MAX];
    if |key| == 33 {
      k, t := ":", "\"}";
    } else {
      k, t := key[34..], ":\"\"}";
    }
    assert full == full[..SEARCH_KEY_MAX] + (k + ("\"" + t));
  }

  /** The empty string under a key of more than 32 characters is never found. */
  lemma LongKeyMisread(key: string)
    requires |key| > MAX_KEY && '"' !in key
    ensures Extract(Print(OneText(key, "")), key) != Found(Text(""))
  {
    var n, json := SearchKey(key), Print(OneText(key, ""));
    var full := Keyed(key, "\"\"}");
    var k, t := TruncatedSearch(key);
    assert "" + (PrintValue(Text("")) + PrintFrom(',', [])) == "\"\"}";
    assert OneText(key, "")[1..] == [];
    assert json == ['{'] + ("" + full);
    SkipLead('{', "", full, n);
    AtStart(n, k + ("\"" + t));
    SkipStops(k, t);
    MisreadAt(SkipSpaces(k + ("\"" + t)));
  }

  /** An object with this key alone, and a text under it. */
  function OneText(key: string, s: string): seq<Pair> {
    [Pair("", key, "", Text(s))]
  }

  lemma ShortKeyFound(key: string, s: string)
    requires |key| <= MAX_KEY && '"' !in key && '"' !in s
    ensures Extract(Print(OneText(key, s)), key) == Found(Text(s))
  {
    var ps := OneText(key, s);
    PrintOne(ps[0]);
    AtPair('{', ps[0], "}");
    ReadValue(ps[0], "}");
  }

  /**
   * extract_json_value finds every text stored under a key exactly when the key has at most 32
   * characters: the limit is that of the truncating snprintf.
   */
  lemma KeyLimit(key: string)
    requires '"' !in key
    ensures (forall s :: '"' !in s ==> Extract(Print(OneText(key, s)), key) == Found(Text(s)))
            <==> |key| <= MAX_KEY
  {
    if |key| <= MAX_KEY {
      forall s | '"' !in s
        ensures Extract(Print(OneText(key, s)), key) == Found(Text(s))
      {
        ShortKeyFound(key, s);
      }
    } else {
      LongKeyMisread(key);
      assert '"' !in "";
    }
  }

  /** What ExtractPrinted promises of one object. */
  ghost predicate FindsIn(ps: seq<Pair>, key: string) {
    Extract(Print(ps), key) == match Lookup(ps, key)
      case None => Extracted(0, None)
      case Some(v) => Found(v)
  }

  /** A match in front of a 'z' makes the number 0 of an absent key. */
  lemma MistakenIn(ps: seq<Pair>, key: string, v: string)
    requires AfterKey(Print(ps), SearchKey(key)) == Some(v) && v != [] && v[0] == 'z'
    requires Lookup(ps, key) == None
    ensures !FindsIn(ps, key)
  {
    ReadsZero(v);
  }

  /** In an object whose first key is "a", the closing quote of that key begins a match. */
  lemma MatchBehindKey(key: string, after: string, rest: string)
    requires |key| <= MAX_KEY && '"' !in key && key != "a"
    requires "\"" + (":" + after) == SearchKey(key) + rest
    ensures AfterKey("{" + ("" + Keyed("a", after)), SearchKey(key)) == Some(rest)
  {
    SearchFor(key);
    SkipLead('{', "", Keyed("a", after), SearchKey(key));
    SkipWord("a", after, key);
    AtStart(SearchKey(key), rest);
  }

  lemma ColonMistaken(key: string) returns (ps: seq<Pair>)
    requires |key| <= MAX_KEY && LikeColon(key)
    ensures AllPrintable(ps) && !FindsIn(ps, key)
  {
    var gap := key[1..];
    var v := Text(":z");
    ps := [Pair("", "a", gap, v)];
    OnlyA(gap, v, key);
    ColonMatch(key, gap, gap + (PrintValue(v) + "}"));
    MistakenIn(ps, key, "z\"}");
  }

  /** An object whose only key is "a". */
  lemma OnlyA(gap: string, v: Value, key: string)
    requires Blank(gap) && v.Text? && '"' !in v.s && key != "a"
    ensures var ps := [Pair("", "a", gap, v)];
            && Print(ps) == "{" + ("" + Keyed("a", gap + (PrintValue(v) + "}")))
            && AllPrintable(ps) && Lookup(ps, key) == None
  {
    PrintOne(Pair("", "a", gap, v));
  }

  lemma PrintOne(p: Pair)
    ensures Print([p]) == ['{'] + PrintPair(p, "}")
    ensures forall key :: key != p.key ==> Lookup([p], key) == None
  {
    assert [p][1..] == [] && PrintFrom(',', []) == "}";
  }

  lemma ColonMatch(key: string, gap: string, after: string)
    requires |key| <= MAX_KEY && LikeColon(key) && gap == key[1..]
    requires after == gap + (PrintValue(Text(":z")) + "}")
    ensures '"' !in key && AfterKey("{" + ("" + Keyed("a", after)), SearchKey(key)) == Some("z\"}")
  {
    var y := ":z\"}";
    BlankQuoteFree(gap);
    SearchFor(key);
    assert key == ":" + gap && PrintValue(Text(":z")) + "}" == "\"" + y && y == ":" + "z\"}";
    Assoc(":", gap, "\"" + y);
    Closes(key, ":" + after, "z\"}");
    MatchBehindKey(key, after, "z\"}");
  }

  /** An object whose second key is ":z" behind the white space `lead`. */
  function WithColonKey(gap: string, v: Value, lead: string): seq<Pair> {
    [Pair("", "a", gap, v), Pair(lead, ":z", "", Bare("0"))]
  }

  lemma SecondKey(gap: string, v: Value, lead: string) returns (rest: string)
    ensures var ps := WithColonKey(gap, v, lead);
            && PrintFrom(',', ps[1..]) == ("," + lead) + ("\"" + (":" + ("z" + rest)))
            && Print(ps) == "{" + ("" + Keyed("a", gap + (PrintValue(v) + PrintFrom(',', ps[1..]))))
  {
    var ps := WithColonKey(gap, v, lead);
    var last := ps[1..];
    rest := "\":" + ("" + (PrintValue(Bare("0")) + "}"));
    assert last == [Pair(lead, ":z", "", Bare("0"))] && last[1..] == [];
    OpensKey(last);
    assert AfterQuote(last) == ":z" + rest == ":" + ("z" + rest);
  }

  lemma BareMistaken(key: string, front: string, lead: string) returns (ps: seq<Pair>)
    requires |key| <= MAX_KEY && '"' !in key && LikeBare(key, front, lead)
    ensures AllPrintable(ps) && !FindsIn(ps, key)
  {
    var gap, t := SplitGap(front[1..]);
    assert front == ":" + (gap + t);
    assert forall c :: c in t ==> c in front[1..];
    assert forall c :: c in front ==> c in key;
    ps := WithColonKey(gap, Bare(t), lead);
    var rest := SecondKey(gap, Bare(t), lead);
    BareMatch(key, gap, t, lead, PrintFrom(',', ps[1..]), "z" + rest);
    ColonKeyPrintable(gap, Bare(t), lead);
    AbsentKey(key, gap, Bare(t), lead);
    MistakenIn(ps, key, "z" + rest);
  }

  /** The white space x starts with, and what follows it. */
  lemma {:induction false} SplitGap(x: string) returns (gap: string, t: string)
    ensures x == gap + t && Blank(gap) && (t != [] ==> !IsSpace(t[0]))
  {
    if x != [] && IsSpace(x[0]) {
      gap, t := SplitGap(x[1..]);
      gap := [x[0]] + gap;
    } else {
      gap, t := [], x;
    }
  }

  lemma BareMatch(key: string, gap: string, t: string, lead: string, tail: string, rest: string)
    requires |key| <= MAX_KEY && '"' !in key && LikeBare(key, ":" + (gap + t), lead)
    requires tail == ("," + lead) + ("\"" + (":" + rest))
    ensures ',' in key
    ensures AfterKey("{" + ("" + Keyed("a", gap + (t + tail))), SearchKey(key)) == Some(rest)
  {
    var after := gap + (t + tail);
    HoldsComma(":" + (gap + t), key, lead);
    SearchFor(key);
    FrontParts(":", gap, t, "," + lead, "\"" + (":" + rest));
    Closes(key, ":" + after, rest);
    MatchBehindKey(key, after, rest);
  }

  lemma HoldsComma(front: string, key: string, lead: string)
    requires key == front + ("," + lead)
    ensures ',' in key
  {
    assert key[|front|] == ',';
  }

  lemma AbsentKey(key: string, gap: string, v: Value, lead: string)
    requires ',' in key
    ensures Lookup(WithColonKey(gap, v, lead), key) == None
  {
    var ps := WithColonKey(gap, v, lead);
    assert ',' !in "a" && ',' !in ":z";
    PrintOne(ps[1]);
    assert ps[1..] == [ps[1]];
  }

  lemma ColonKeyPrintable(gap: string, v: Value, lead: string)
    requires Blank(gap) && Blank(lead)
    requires if v.Text? then '"' !in v.s else BareOk(v.t)
    ensures AllPrintable(WithColonKey(gap, v, lead))
  {
  }

  lemma Closes(key: string, text: string, rest: string)
    requires text == key + ("\"" + (":" + rest))
    ensures "\"" + text == ("\"" + (key + "\":")) + rest
  {
  }

  lemma CommaMistaken(key: string) returns (ps: seq<Pair>)
    requires |key| <= MAX_KEY && LikeComma(key)
    ensures AllPrintable(ps) && !FindsIn(ps, key)
  {
    var lead := key[1..];
    ps := WithColonKey("", Text("b"), lead);
    var rest := SecondKey("", Text("b"), lead);
    BlankQuoteFree(lead);
    assert '"' !in key && ',' in key by {
      assert key == "," + lead;
    }
    MatchBehindText(key, ps, rest);
    ColonKeyPrintable("", Text("b"), lead);
    AbsentKey(key, "", Text("b"), lead);
    MistakenIn(ps, key, "z" + rest);
  }

  lemma MatchBehindText(key: string, ps: seq<Pair>, rest: string)
    requires |key| <= MAX_KEY && '"' !in key && LikeComma(key) && ps == WithColonKey("", Text("b"), key[1..])
    requires PrintFrom(',', ps[1..]) == ("," + key[1..]) + ("\"" + (":" + ("z" + rest)))
    requires Print(ps) == "{" + ("" + Keyed("a", "" + (PrintValue(Text("b")) + PrintFrom(',', ps[1..]))))
    ensures AfterKey(Print(ps), SearchKey(key)) == Some("z" + rest)
  {
    var n, tail := SearchKey(key), PrintFrom(',', ps[1..]);
    var after := "" + (PrintValue(Text("b")) + tail);
    SearchFor(key);
    assert "," + key[1..] == key;
    assert after == "\"" + ("b" + ("\"" + tail));
    SkipLead('{', "", Keyed("a", after), n);
    NotAtWord(key, ":", "b" + ("\"" + tail));
    SkipKeyed("a", after, key);
    NotAtWord(key, "b", tail);
    SkipOne('"', "b" + ("\"" + tail), n);
    SkipQuoteFree("b", "\"" + tail, n);
    Closes(key, tail, "z" + rest);
    AtStart(n, "z" + rest);
  }

  /**
   * The exact keys: extract_json_value is right about a quote-free key in every printed object if and
   * only if the key has at most 32 characters and does not read like the text between two strings.
   */
  lemma KeyExact(key: string)
    requires '"' !in key
    ensures (forall ps :: AllPrintable(ps) ==> FindsIn(ps, key)) <==> |key| <= MAX_KEY && !LikeGap(key)
  {
    if |key| > MAX_KEY {
      LongKeyMisread(key);
      var ps := OneText(key, "");
      assert AllPrintable(ps) && !FindsIn(ps, key);
    } else if LikeColon(key) {
      var _ := ColonMistaken(key);
    } else if LikeComma(key) {
      var _ := CommaMistaken(key);
    } else if front, lead :| LikeBare(key, front, lead) {
      var _ := BareMistaken(key, front, lead);
    } else {
      forall ps | AllPrintable(ps)
        ensures FindsIn(ps, key)
      {
        ExtractPrinted(ps, key);
      }
    }
  }

  /** From a whole "mqtt<topic> <object>" line to the value: topic split and extraction together. */
  lemma MessageToValue(topic: string, ps: seq<Pair>, key: string)
    requires ' ' !in topic && AllPrintable(ps) && KeyOk(key)
    ensures var parsed := SplitSpace(("mqtt" + topic + " " + Print(ps))[4..]);
            && parsed == Some(Halves(topic, Print(ps)))
            && Extract(parsed.value.right, key) == match Lookup(ps, key)
                 case None => Extracted(0, None)
                 case Some(v) => Found(v)
  {
    assert ("mqtt" + topic + " " + Print(ps))[4..] == topic + " " + Print(ps);
    SplitSpaceExact(topic + " " + Print(ps), Halves(topic, Print(ps)));
    ExtractPrinted(ps, key);
  }
}
