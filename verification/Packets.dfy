/**
 * The packet builders of gen_seeds.py. Each expression builder is a function; the two PUBLISH
 * builders, which update `ctrl` and `vh` step by step, are methods proved against `Publish`.
 */
module Packets {
  import opened Bits
  import opened Bytes
  import RL = RemainingLength

  /** fh(ctrl, len(body)) + body: a fixed header and what it announces. */
  function WithHeader(ctrl: byte, body: seq<byte>): seq<byte> {
    [ctrl] + RL.Encode(|body|) + body
  }

  /** bytes(iterable): every element has to be a byte. */
  function ToBytes(xs: seq<int>): (r: Result<seq<byte>>)
    ensures r.Ok? ==> |r.value| == |xs| && forall i :: 0 <= i < |xs| ==> r.value[i] == xs[i]
    ensures r.Ok? <==> forall i :: 0 <= i < |xs| ==> 0 <= xs[i] < 256
  {
    if xs == [] then Ok([])
    else if 0 <= xs[0] < 256 then
      var rest :- ToBytes(xs[1..]);
      Ok([xs[0] as byte] + rest)
    else Err(ValueError)
  }

  function Flag(b: bool): byte {
    if b then 1 else 0
  }

  // ---------------------------------------------------------------- MQTT 3.1.1 builders

  function PktConnack(sessionPresent: bool, rc: int): Result<seq<byte>> {
    var code :- ToBytes([rc]);
    Ok(WithHeader(0x20, [Flag(sessionPresent)] + code))
  }

  function PktPingresp(): seq<byte> {
    [0xD0, 0x00]
  }

  /** pkt_puback, pkt_pubrec, pkt_pubrel and pkt_pubcomp differ in the control byte only. */
  function PktAck(ctrl: byte, pktId: int): Result<seq<byte>> {
    var id :- ToBytes2(pktId);
    Ok(WithHeader(ctrl, id))
  }

  const PUBACK: byte := 0x40
  const PUBREC: byte := 0x50
  const PUBREL: byte := 0x62
  const PUBCOMP: byte := 0x70

  function PktSuback(pktId: int, grants: seq<int>): Result<seq<byte>> {
    var g :- ToBytes(grants);
    var id :- ToBytes2(pktId);
    Ok(WithHeader(0x90, id + g))
  }

  // ---------------------------------------------------------------- MQTT 5.0 builders

  /** A property block behind its own variable byte length. */
  function Properties(properties: seq<byte>): seq<byte> {
    RL.Encode(|properties|) + properties
  }

  function Pkt5Connack(sessionPresent: bool, reasonCode: int, properties: seq<byte>): Result<seq<byte>> {
    var code :- ToBytes([reasonCode]);
    Ok(WithHeader(0x20, [Flag(sessionPresent)] + code + Properties(properties)))
  }

  function Pkt5Suback(pktId: int, reasonCodes: seq<int>, properties: seq<byte>): Result<seq<byte>> {
    var codes :- ToBytes(reasonCodes);
    var id :- ToBytes2(pktId);
    Ok(WithHeader(0x90, id + Properties(properties) + codes))
  }

  function Pkt5PubackLike(ctrl: int, pktId: int, includeReason: bool): Result<seq<byte>> {
    var id :- ToBytes2(pktId);
    var c :- ToBytes([ctrl]);
    Ok(WithHeader(c[0], if includeReason then id + [0x00, 0x00] else id))
  }

  // ---------------------------------------------------------------- PUBLISH

  /**
   * The arguments of pkt_publish (properties absent) and pkt5_publish (properties present).
   * `topic` is the UTF-8 encoding of the topic string.
   */
  datatype PublishArgs = PublishArgs(
    topic: seq<byte>, payload: seq<byte>, qos: int, dup: bool, retain: bool,
    pktId: Option<int>, properties: Option<seq<byte>>)

  /** Control byte of a PUBLISH (section 3.3.1 of MQTT 3.1.1): 0011, DUP, two QoS bits, RETAIN. */
  function PublishCtrl(qos: int, dup: bool, retain: bool): (c: byte)
    requires 0 <= qos <= 2
  {
    0x30 + 8 * Flag(dup) as int + 2 * qos + Flag(retain) as int
  }

  function PublishBody(a: PublishArgs): (r: Result<seq<byte>>) {
    if a.qos < 0 || a.qos > 2 then Err(ValueError)
    else if |a.topic| > 0xFFFF then Err(ValueError)
    else if a.qos > 0 && a.pktId.None? then Err(ValueError)
    else
      var id :- if a.qos > 0 then ToBytes2(a.pktId.value) else Ok([]);
      Ok(U16Bytes(|a.topic|) + a.topic + id
         + (if a.properties.Some? then Properties(a.properties.value) else [])
         + a.payload)
  }

  function Publish(a: PublishArgs): Result<seq<byte>> {
    var body :- PublishBody(a);
    Ok(WithHeader(PublishCtrl(a.qos, a.dup, a.retain), body))
  }

  /** enc_utf8 on an already encoded string. */
  function EncUtf8(b: seq<byte>): Result<seq<byte>> {
    if |b| > 0xFFFF then Err(ValueError) else Ok(U16Bytes(|b|) + b)
  }

  /** The steps by which both PUBLISH builders put `ctrl` together. */
  method OrFlags(qos: int, dup: bool, retain: bool) returns (ctrl: byte)
    requires 0 <= qos <= 2
    ensures ctrl == PublishCtrl(qos, dup, retain)
  {
    SmallPowers();
    var c: nat := 0x30;
    if dup {
      OrBit(c, 3, 0, 3);
      c := Or(c, 0x08);
    }
    if qos == 1 {
      OrBit(c, c / 4, 0, 1);
      c := Or(c, 0x02);
    } else if qos == 2 {
      OrBit(c, c / 8, 0, 2);
      c := Or(c, 0x04);
    }
    if retain {
      OrBit(c, c / 2, 0, 0);
      c := Or(c, 0x01);
    }
    ctrl := c;
  }

  method PktPublish(topic: seq<byte>, payload: seq<byte>, qos: int, dup: bool, retain: bool,
                    pktId: Option<int>)
    returns (r: Result<seq<byte>>)
    ensures r == Publish(PublishArgs(topic, payload, qos, dup, retain, pktId, None))
    ensures r.Ok? <==> qos in {0, 1, 2} && |topic| <= 0xFFFF
                       && (qos != 0 ==> pktId.Some? && 0 <= pktId.value <= 0xFFFF)
  {
    PublishBuilt(PublishArgs(topic, payload, qos, dup, retain, pktId, None));
    if qos != 0 && qos != 1 && qos != 2 {
      return Err(ValueError);
    }
    var ctrl := OrFlags(qos, dup, retain);
    var vh :- EncUtf8(topic);
    if qos > 0 {
      if pktId.None? {
        return Err(ValueError);
      }
      var id :- ToBytes2(pktId.value);
      vh := vh + id;
    }
    var header := [ctrl] + RL.Encode(|vh| + |payload|);
    assert qos == 0 ==> U16Bytes(|topic|) + topic + [] == vh;
    assert vh + [] == vh;
    assert header + vh + payload == header + (vh + payload);
    return Ok(header + vh + payload);
  }

  method Pkt5Publish(topic: seq<byte>, payload: seq<byte>, qos: int, dup: bool, retain: bool,
                     pktId: Option<int>, properties: seq<byte>)
    returns (r: Result<seq<byte>>)
    ensures r == Publish(PublishArgs(topic, payload, qos, dup, retain, pktId, Some(properties)))
    ensures r.Ok? <==> qos in {0, 1, 2} && |topic| <= 0xFFFF
                       && (qos != 0 ==> pktId.Some? && 0 <= pktId.value <= 0xFFFF)
  {
    PublishBuilt(PublishArgs(topic, payload, qos, dup, retain, pktId, Some(properties)));
    if qos != 0 && qos != 1 && qos != 2 {
      return Err(ValueError);
    }
    var ctrl := OrFlags(qos, dup, retain);
    var vh :- EncUtf8(topic);
    if qos > 0 {
      if pktId.None? {
        return Err(ValueError);
      }
      var id :- ToBytes2(pktId.value);
      vh := vh + id;
    }
    assert qos == 0 ==> U16Bytes(|topic|) + topic + [] == vh;
    vh := vh + (RL.Encode(|properties|) + properties);
    var header := [ctrl] + RL.Encode(|vh| + |payload|);
    assert header + vh + payload == header + (vh + payload);
    return Ok(header + vh + payload);
  }

  // ---------------------------------------------------------------- byte by byte

  /** Every element is a byte. */
  predicate AllBytes(xs: seq<int>) {
    forall i :: 0 <= i < |xs| ==> 0 <= xs[i] <= 255
  }

  /** xs as the bytes it consists of, when it does. */
  function AsBytes(xs: seq<int>): (b: seq<byte>)
    requires AllBytes(xs)
    ensures |b| == |xs| && forall i :: 0 <= i < |xs| ==> b[i] == xs[i]
  {
    seq(|xs|, i requires 0 <= i < |xs| && 0 <= xs[i] <= 255 => xs[i] as byte)
  }

  lemma ToBytesExact(xs: seq<int>)
    ensures ToBytes(xs) == if AllBytes(xs) then Ok(AsBytes(xs)) else Err(ValueError)
  {
    if AllBytes(xs) {
      assert ToBytes(xs).value == AsBytes(xs);
    } else {
      ToBytesFails(xs);
    }
  }

  lemma {:induction false} ToBytesFails(xs: seq<int>)
    requires !AllBytes(xs)
    ensures ToBytes(xs) == Err(ValueError)
  {
    if 0 <= xs[0] <= 255 {
      assert xs == [xs[0]] + xs[1..];
      ToBytesFails(xs[1..]);
    }
  }

  lemma SmallEncode(n: nat)
    requires n < 128
    ensures RL.Encode(n) == [n]
  {
  }

  /** CONNACK: the session flag, then the code; a code that is no byte raises ValueError. */
  lemma ConnackBytes(sessionPresent: bool, rc: int)
    ensures PktConnack(sessionPresent, rc) ==
      if 0 <= rc <= 255 then Ok([0x20, 2, if sessionPresent then 1 else 0, rc]) else Err(ValueError)
  {
    ToBytesExact([rc]);
    SmallEncode(2);
    if 0 <= rc <= 255 {
      assert AsBytes([rc]) == [rc];
      assert [0x20] + [2] + ([if sessionPresent then 1 else 0] + [rc])
          == [0x20, 2, if sessionPresent then 1 else 0, rc];
    }
  }

  /** The four acknowledgements of MQTT 3.1.1: big-endian id, OverflowError beyond 16 bits. */
  lemma AckBytes(id: int)
    ensures var k: seq<int> := [0x40, 0x50, 0x62, 0x70];
            var built := [PktAck(PUBACK, id), PktAck(PUBREC, id), PktAck(PUBREL, id), PktAck(PUBCOMP, id)];
            forall i :: 0 <= i < 4 ==>
              built[i] == if 0 <= id <= 0xFFFF then Ok([k[i], 2, id / 256, id % 256]) else Err(OverflowError)
  {
    SmallEncode(2);
    if 0 <= id <= 0xFFFF {
      forall c: byte
        ensures [c] + [2] + [id / 256, id % 256] == [c, 2, id / 256, id % 256]
      {
      }
    }
  }

  /** SUBACK: the grants are looked at before the id. */
  lemma SubackBytes(id: int, grants: seq<int>)
    ensures PktSuback(id, grants) ==
      if !AllBytes(grants) then Err(ValueError)
      else if id < 0 || 0xFFFF < id then Err(OverflowError)
      else Ok([0x90] + RL.Encode(2 + |grants|) + ([id / 256, id % 256] + AsBytes(grants)))
  {
    ToBytesExact(grants);
  }

  lemma Connack5Bytes(sessionPresent: bool, rc: int, ps: seq<byte>)
    ensures Pkt5Connack(sessionPresent, rc, ps) ==
      if rc < 0 || 255 < rc then Err(ValueError)
      else
        var body := [if sessionPresent then 1 else 0, rc] + (RL.Encode(|ps|) + ps);
        Ok([0x20] + RL.Encode(|body|) + body)
  {
    ToBytesExact([rc]);
    if 0 <= rc <= 255 {
      assert AsBytes([rc]) == [rc];
      assert [if sessionPresent then 1 else 0] + [rc] == [if sessionPresent then 1 else 0, rc];
    }
  }

  lemma Suback5Bytes(id: int, codes: seq<int>, ps: seq<byte>)
    ensures Pkt5Suback(id, codes, ps) ==
      if !AllBytes(codes) then Err(ValueError)
      else if id < 0 || 0xFFFF < id then Err(OverflowError)
      else
        var body := [id / 256, id % 256] + (RL.Encode(|ps|) + ps) + AsBytes(codes);
        Ok([0x90] + RL.Encode(|body|) + body)
  {
    ToBytesExact(codes);
  }

  /** The acknowledgements of MQTT 5.0, with or without reason code and property length. */
  lemma Ack5Bytes(ctrl: int, id: int, includeReason: bool)
    ensures Pkt5PubackLike(ctrl, id, includeReason) ==
      if id < 0 || 0xFFFF < id then Err(OverflowError)
      else if ctrl < 0 || 255 < ctrl then Err(ValueError)
      else if includeReason then Ok([ctrl, 4, id / 256, id % 256, 0, 0])
      else Ok([ctrl, 2, id / 256, id % 256])
  {
    ToBytesExact([ctrl]);
    SmallEncode(2);
    SmallEncode(4);
    if 0 <= id <= 0xFFFF && 0 <= ctrl <= 255 {
      var c: byte := ctrl;
      assert AsBytes([ctrl]) == [c];
      assert [c] + [4] + ([id / 256, id % 256] + [0, 0]) == [c, 4, id / 256, id % 256, 0, 0];
      assert [c] + [2] + [id / 256, id % 256] == [c, 2, id / 256, id % 256];
    }
  }

  /** Which arguments make a PUBLISH. */
  predicate Publishable(a: PublishArgs) {
    && a.qos in {0, 1, 2} && |a.topic| <= 0xFFFF
    && (a.qos != 0 ==> a.pktId.Some? && 0 <= a.pktId.value <= 0xFFFF)
  }

  /** Everything but the range of the id is in order. */
  predicate OnlyIdWrong(a: PublishArgs) {
    a.qos in {1, 2} && |a.topic| <= 0xFFFF && a.pktId.Some? && !(0 <= a.pktId.value <= 0xFFFF)
  }

  /**
   * A PUBLISH is built exactly for qos 0, 1 and 2, a topic that fits its length field and, above
   * qos 0, a 16-bit packet id; only an id out of range raises OverflowError.
   */
  lemma PublishBuilt(a: PublishArgs)
    ensures Publish(a).Ok? <==> Publishable(a)
    ensures Publish(a) == Err(OverflowError) <==> OnlyIdWrong(a)
    ensures Publish(a) == Err(ValueError) <==> !Publishable(a) && !OnlyIdWrong(a)
  {
  }

  /** Fixed header, topic length, topic, id above qos 0, property block if any, payload. */
  lemma PublishBytes(a: PublishArgs)
    requires Publishable(a)
    ensures var id := if a.qos == 0 then [] else [a.pktId.value / 256, a.pktId.value % 256];
            var properties := if a.properties.None? then []
                              else RL.Encode(|a.properties.value|) + a.properties.value;
            var body := [|a.topic| / 256, |a.topic| % 256] + a.topic + id + properties + a.payload;
            var ctrl := 48 + (if a.dup then 8 else 0) + 2 * a.qos + (if a.retain then 1 else 0);
            Publish(a) == Ok([ctrl] + RL.Encode(|body|) + body)
  {
  }
}
