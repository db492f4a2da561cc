/** The message parser of iot_parser.c. Buffer sizes, which the C code does not check, are preconditions. */
module IotParser {
  import opened Bytes
  import opened CStrings

  // ---------------------------------------------------------------- extract_json_value

  /** sizeof(search_key) - 1: what snprintf leaves room for. */
  const SEARCH_KEY_MAX: nat := 35

  function SearchKey(key: string): string {
    var full := "\"" + key + "\":";
    if |full| <= SEARCH_KEY_MAX then full else full[..SEARCH_KEY_MAX]
  }

  /** The return value, and the string written to `value` if anything is. */
  datatype Extracted = Extracted(ret: nat, text: Option<string>)

  function AfterKey(json: string, search: string): Option<string> {
    var p :- StrStr(json, search);
    Some(json[p..][|search|..])
  }

  function ValueAt(v: string): Extracted {
    if v != [] && v[0] == '"' then
      match StrChr(v[1..], '"')
      case None => Extracted(0, None)
      case Some(len) => Extracted(len, Some(v[1..][..len]))
    else
      var r := StrToL(v);
      Extracted(r.used, Some(PrintLong(r.num)))
  }

  function Extract(json: string, key: string): Extracted {
    match AfterKey(json, SearchKey(key))
    case None => Extracted(0, None)
    case Some(rest) => ValueAt(SkipSpaces(rest))
  }

  method ExtractJsonValue(json: string, key: string, value: array<char>) returns (n: int)
    requires '\0' !in json && '\0' !in key
    requires Extract(json, key).text.Some? ==> |Extract(json, key).text.value| < value.Length
    modifies value
    ensures n == Extract(json, key).ret
    ensures match Extract(json, key).text
            case None => value[..] == old(value[..])
            case Some(s) => Holds(value[..], old(value[..]), s)
  {
    var keyEnd := FindKey(json, SearchKey(key));
    if keyEnd.None? {
      return 0;
    }
    var valueStart := SkipWhite(json, keyEnd.value);
    ghost var v := json[valueStart..];
    assert Extract(json, key) == ValueAt(v);
    n := WriteValue(json[valueStart..], value);
  }

  /** strstr, and where the text after the match starts. */
  method FindKey(json: string, searchKey: string) returns (end: Option<nat>)
    ensures end.None? ==> AfterKey(json, searchKey) == None
    ensures end.Some? ==> end.value <= |json| && AfterKey(json, searchKey) == Some(json[end.value..])
  {
    var keyPos := StrStr(json, searchKey);
    if keyPos.None? {
      return None;
    }
    DropTwice(json, keyPos.value, |searchKey|);
    return Some(keyPos.value + |searchKey|);
  }

  lemma DropTwice<T>(x: seq<T>, a: nat, b: nat)
    requires a + b <= |x|
    ensures x[a..][b..] == x[a + b..]
  {
  }

  /** while (isspace(*value_start)) value_start++; */
  method SkipWhite(json: string, from: nat) returns (valueStart: nat)
    requires from <= |json|
    ensures from <= valueStart <= |json| && json[valueStart..] == SkipSpaces(json[from..])
  {
    valueStart := from;
    while valueStart < |json| && IsSpace(json[valueStart])
      invariant from <= valueStart <= |json|
      invariant SkipSpaces(json[valueStart..]) == SkipSpaces(json[from..])
    {
      assert json[valueStart..][1..] == json[valueStart + 1..];
      valueStart := valueStart + 1;
    }
  }

  /** The two branches of extract_json_value, at the start of a value. */
  method WriteValue(v: string, value: array<char>) returns (n: int)
    requires ValueAt(v).text.Some? ==> |ValueAt(v).text.value| < value.Length
    modifies value
    ensures n == ValueAt(v).ret
    ensures match ValueAt(v).text
            case None => value[..] == old(value[..])
            case Some(s) => Holds(value[..], old(value[..]), s)
  {
    if v != [] && v[0] == '"' {
      var valueEnd := StrChr(v[1..], '"');
      if valueEnd.Some? {
        var len := valueEnd.value;
        Put(value, v[1..][..len]);
        return len;
      }
    } else {
      var r := StrToL(v);
      Put(value, PrintLong(r.num));
      return r.used;
    }
    return 0;
  }

  // ---------------------------------------------------------------- splitting at spaces

  datatype Halves = Halves(left: string, right: string)

  /** The text in front of the first space and the text after it. */
  function SplitSpace(s: string): Option<Halves> {
    var p :- StrChr(s, ' ');
    Some(Halves(s[..p], s[p + 1..]))
  }

  /** SplitSpace finds a split with a space-free left half exactly when there is one, and it is the only one. */
  lemma SplitSpaceExact(s: string, h: Halves)
    ensures SplitSpace(s) == Some(h) <==> ' ' !in h.left && h.left + " " + h.right == s
    ensures SplitSpace(s) == None <==> ' ' !in s
  {
    if SplitSpace(s) == Some(h) {
      assert s == s[..|h.left|] + [s[|h.left|]] + s[|h.left| + 1..];
    }
    if ' ' !in h.left && h.left + " " + h.right == s {
      StrChrIs(h.left, ' ', h.right);
      assert s[..|h.left|] == h.left && s[|h.left| + 1..] == h.right;
    }
  }

  class MqttMessage {
    const topic: array<char>
    const payload: array<char>

    constructor ()
      ensures topic.Length == 64 && payload.Length == 256 && topic != payload
      ensures fresh(topic) && fresh(payload)
    {
      topic := new char[64];
      payload := new char[256];
    }

    /** parse_mqtt_topic: without a space the message is left alone. */
    method ParseTopic(input: string)
      requires |input| >= 4 && '\0' !in input && topic != payload
      requires SplitSpace(input[4..]).Some? ==>
                 |SplitSpace(input[4..]).value.left| < topic.Length
                 && |SplitSpace(input[4..]).value.right| < payload.Length
      modifies topic, payload
      ensures match SplitSpace(input[4..])
              case None => topic[..] == old(topic[..]) && payload[..] == old(payload[..])
              case Some(h) =>
                Holds(topic[..], old(topic[..]), h.left) && Holds(payload[..], old(payload[..]), h.right)
    {
      var spacePos := StrChr(input[4..], ' ');
      if spacePos.Some? {
        var topicLen := spacePos.value;
        Put(topic, input[4..][..topicLen]);
        Put(payload, input[4..][topicLen + 1..]);
      }
    }
  }

  /** Method, path and body of a request; a missing second space leaves path and body out. */
  datatype HttpParts = NoParts | MethodOnly(name: string) | Parts(name: string, path: string, body: string)

  function SplitRequest(input: string): HttpParts {
    match SplitSpace(input)
    case None => NoParts
    case Some(h) =>
      match SplitSpace(h.right)
      case None => MethodOnly(h.left)
      case Some(g) => Parts(h.left, g.left, g.right)
  }

  lemma SplitRequestExact(input: string, name: string, path: string, body: string)
    ensures SplitRequest(input) == Parts(name, path, body)
            <==> ' ' !in name && ' ' !in path && name + " " + path + " " + body == input
  {
    var rest := path + " " + body;
    SplitSpaceExact(input, Halves(name, rest));
    SplitSpaceExact(rest, Halves(path, body));
    assert name + " " + path + " " + body == name + " " + rest;
    if SplitRequest(input) == Parts(name, path, body) {
      var h := SplitSpace(input).value;
      SplitSpaceExact(input, h);
      SplitSpaceExact(h.right, Halves(path, body));
    }
  }

  /** With a single space only the method is delivered, with none nothing. */
  lemma SplitRequestShort(input: string, name: string)
    ensures SplitRequest(input) == MethodOnly(name)
            <==> ' ' !in name && exists rest :: ' ' !in rest && name + " " + rest == input
    ensures SplitRequest(input) == NoParts <==> ' ' !in input
  {
    SplitSpaceExact(input, Halves(name, []));
    if SplitSpace(input).Some? {
      var h := SplitSpace(input).value;
      SplitSpaceExact(input, h);
      SplitSpaceExact(h.right, h);
    }
    forall rest | ' ' !in name && ' ' !in rest && name + " " + rest == input
      ensures SplitRequest(input) == MethodOnly(name)
    {
      SplitSpaceExact(input, Halves(name, rest));
      SplitSpaceExact(rest, Halves([], []));
    }
  }

  class HttpMessage {
    const name: array<char>
    const path: array<char>
    const body: array<char>

    ghost predicate Separate() {
      name != path && name != body && path != body
    }

    constructor ()
      ensures name.Length == 8 && path.Length == 64 && body.Length == 256 && Separate()
      ensures fresh(name) && fresh(path) && fresh(body)
    {
      name := new char[8];
      path := new char[64];
      body := new char[256];
    }

    ghost predicate Fits(parts: HttpParts) {
      && (!parts.NoParts? ==> |parts.name| < name.Length)
      && (parts.Parts? ==> |parts.path| < path.Length && |parts.body| < body.Length)
    }

    /** parse_http_request: the two spaces are overwritten with terminators in a heap copy. */
    method ParseRequest(input: string)
      requires '\0' !in input && Separate() && Fits(SplitRequest(input))
      modifies name, path, body
      ensures match SplitRequest(input)
              case NoParts => name[..] == old(name[..]) && path[..] == old(path[..]) && body[..] == old(body[..])
              case MethodOnly(n) =>
                Holds(name[..], old(name[..]), n) && path[..] == old(path[..]) && body[..] == old(body[..])
              case Parts(n, p, b) =>
                && Holds(name[..], old(name[..]), n)
                && Holds(path[..], old(path[..]), p)
                && Holds(body[..], old(body[..]), b)
    {
      var copy := new char[|input| + 1];
      Put(copy, input);
      assert copy[0..] == copy[..] == input + ['\0'];
      var pathStart := CutAtSpace(copy, 0, input);
      if pathStart.Some? {
        ghost var h := SplitSpace(input).value;
        Put(name, UpToNul(copy[..]));
        var bodyStart := CutAtSpace(copy, pathStart.value, h.right);
        if bodyStart.Some? {
          Put(path, UpToNul(copy[pathStart.value..]));
          Put(body, UpToNul(copy[bodyStart.value..]));
        }
      }
    }
  }

  /**
   * Overwrites the first space of the C string `text` at copy[from..] with a terminator and
   * returns where the text after it starts.
   */
  method CutAtSpace(copy: array<char>, from: nat, ghost text: string) returns (next: Option<nat>)
    requires from <= copy.Length && copy[from..] == text + ['\0'] && '\0' !in text
    modifies copy
    ensures next.Some? <==> SplitSpace(text).Some?
    ensures next.None? ==> copy[..] == old(copy[..])
    ensures next.Some? ==>
              var h := SplitSpace(text).value;
              && next.value == from + |h.left| + 1 <= copy.Length
              && '\0' !in h.left && '\0' !in h.right
              && UpToNul(copy[from..]) == h.left
              && copy[next.value..] == h.right + ['\0'] && UpToNul(copy[next.value..]) == h.right
  {
    UpToNulEnd(text);
    var space := StrChr(UpToNul(copy[from..]), ' ');
    if space.None? {
      return None;
    }
    ghost var h := SplitSpace(text).value;
    CutInTwo(text, space.value);
    PutNul(copy, from, space.value);
    next := Some(from + space.value + 1);
    assert UpToNul(copy[from..]) == h.left;
    assert copy[next.value..] == h.right + ['\0'];
  }

  /** Writes a terminator i characters behind `from`. */
  method PutNul(copy: array<char>, from: nat, i: nat)
    requires from + i < copy.Length
    modifies copy
    ensures copy[from..] == old(copy[from..])[i := '\0']
    ensures copy[from + i + 1..] == copy[from..][i + 1..]
  {
    copy[from + i] := '\0';
  }
}
