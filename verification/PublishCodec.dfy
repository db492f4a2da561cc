/** The left inverse of pkt_publish and pkt5_publish. */
module PublishCodec {
  import opened Bytes
  import opened Packets
  import opened Framing
  import RL = RemainingLength

  /** Cuts s after its first n bytes. */
  function Cut(s: seq<byte>, n: nat): Option<(seq<byte>, seq<byte>)> {
    if |s| < n then None else Some((s[..n], s[n..]))
  }

  function TakeU16(s: seq<byte>): Option<(u16, seq<byte>)> {
    if |s| < 2 then None else Some((U16At(s), s[2..]))
  }

  function TakeProperties(s: seq<byte>): Option<(seq<byte>, seq<byte>)> {
    var q :- TakeLength(s);
    Cut(s[q.used..], q.value)
  }

  /** Topic, packet id, properties and payload of a PUBLISH body (section 3.3 of MQTT 3.1.1 and 5.0). */
  function DecodeBody(v5: bool, qos: int, dup: bool, retain: bool, body: seq<byte>): Option<PublishArgs> {
    var (n, s) :- TakeU16(body);
    var (topic, s) :- Cut(s, n);
    var (id, s) :- if qos > 0 then TakeU16(s) else Some((0, s));
    var (props, payload) :- if v5 then TakeProperties(s) else Some(([], s));
    Some(PublishArgs(topic, payload, qos, dup, retain,
                     if qos > 0 then Some(id) else None, if v5 then Some(props) else None))
  }

  function DecodePublish(v5: bool, s: seq<byte>): Option<(PublishArgs, seq<byte>)> {
    var (p, tail) :- TakePacket(s);
    var qos := p.ctrl / 2 % 4;
    if p.ctrl / 16 != 3 || qos == 3 then None
    else
      var a :- DecodeBody(v5, qos, p.ctrl / 8 % 2 == 1, p.ctrl % 2 == 1, p.body);
      Some((a, tail))
  }

  /** The arguments up to the packet id, which a QoS 0 PUBLISH does not carry. */
  function Normal(a: PublishArgs): PublishArgs {
    if a.qos == 0 then a.(pktId := None) else a
  }

  lemma CtrlBits(qos: int, dup: bool, retain: bool)
    requires 0 <= qos <= 2
    ensures var c := PublishCtrl(qos, dup, retain) as int;
            c / 16 == 3 && c / 2 % 4 == qos && (c / 8 % 2 == 1 <==> dup) && (c % 2 == 1 <==> retain)
  {
  }

  lemma CutAppend(x: seq<byte>, y: seq<byte>)
    ensures Cut(x + y, |x|) == Some((x, y))
  {
    assert (x + y)[..|x|] == x && (x + y)[|x|..] == y;
  }

  lemma TakeU16Append(n: u16, y: seq<byte>)
    ensures TakeU16(U16Bytes(n) + y) == Some((n, y))
  {
    var s := U16Bytes(n) + y;
    assert s[2..] == y && s[0] == U16Bytes(n)[0] && s[1] == U16Bytes(n)[1];
  }

  lemma TakePropertiesAppend(ps: seq<byte>, y: seq<byte>)
    requires |ps| < RL.LIMIT
    ensures TakeProperties(Properties(ps) + y) == Some((ps, y))
  {
    var e := RL.Encode(|ps|);
    assert Properties(ps) + y == e + (ps + y);
    TakeEncoded(|ps|, ps + y);
    assert (e + (ps + y))[|e|..] == ps + y;
    CutAppend(ps, y);
  }

  /** The part of a body after the topic and the packet id. */
  function AfterId(a: PublishArgs): seq<byte> {
    (if a.properties.Some? then Properties(a.properties.value) else []) + a.payload
  }

  function IdBytes(a: PublishArgs): seq<byte>
    requires PublishBody(a).Ok?
  {
    if a.qos > 0 then U16Bytes(a.pktId.value) else []
  }

  lemma BodyParts(a: PublishArgs)
    requires PublishBody(a).Ok?
    ensures PublishBody(a).value == U16Bytes(|a.topic|) + (a.topic + (IdBytes(a) + AfterId(a)))
  {
    var ps := if a.properties.Some? then Properties(a.properties.value) else [];
    assert U16Bytes(|a.topic|) + a.topic + IdBytes(a) + ps + a.payload
        == U16Bytes(|a.topic|) + (a.topic + (IdBytes(a) + (ps + a.payload)));
  }

  lemma BodyRoundTrip(a: PublishArgs)
    requires PublishBody(a).Ok? && |PublishBody(a).value| < RL.LIMIT
    ensures DecodeBody(a.properties.Some?, a.qos, a.dup, a.retain, PublishBody(a).value) == Some(Normal(a))
  {
    BodyParts(a);
    var rest := IdBytes(a) + AfterId(a);
    TakeU16Append(|a.topic|, a.topic + rest);
    CutAppend(a.topic, rest);
    if a.qos > 0 {
      TakeU16Append(a.pktId.value, AfterId(a));
    } else {
      assert rest == AfterId(a);
    }
    if a.properties.Some? {
      TakePropertiesAppend(a.properties.value, a.payload);
    } else {
      assert AfterId(a) == a.payload;
    }
  }

  /**
   * Topic, payload, qos, dup, retain, properties and, for qos above 0, the packet id are all
   * recovered from a PUBLISH followed by any tail, exactly when its Remaining Length is below 128^4.
   */
  lemma PublishRoundTrip(a: PublishArgs, tail: seq<byte>)
    requires Publish(a).Ok?
    ensures DecodePublish(a.properties.Some?, Publish(a).value + tail) == Some((Normal(a), tail))
            <==> |PublishBody(a).value| < RL.LIMIT
  {
    var p := Packet(PublishCtrl(a.qos, a.dup, a.retain), PublishBody(a).value);
    TakeWritten(p, tail);
    CtrlBits(a.qos, a.dup, a.retain);
    if |p.body| < RL.LIMIT {
      BodyRoundTrip(a);
    }
  }

  /** Both builders are injective, with no bound on the size of the packet. */
  lemma PublishInjective(a: PublishArgs, b: PublishArgs)
    requires Publish(a).Ok? && Publish(b).Ok? && Publish(a).value == Publish(b).value
    requires a.properties.Some? == b.properties.Some?
    ensures Normal(a) == Normal(b)
  {
    var p := Packet(PublishCtrl(a.qos, a.dup, a.retain), PublishBody(a).value);
    var q := Packet(PublishCtrl(b.qos, b.dup, b.retain), PublishBody(b).value);
    assert p.Bytes() + [] == q.Bytes() + [];
    BytesPrefixFree(p, [], q, []);
    CtrlBits(a.qos, a.dup, a.retain);
    CtrlBits(b.qos, b.dup, b.retain);
    BodyInjective(a, b);
  }

  lemma BodyInjective(a: PublishArgs, b: PublishArgs)
    requires PublishBody(a).Ok? && PublishBody(b).Ok? && PublishBody(a).value == PublishBody(b).value
    requires a.properties.Some? == b.properties.Some? && a.qos == b.qos
    ensures a.topic == b.topic && a.payload == b.payload && a.properties == b.properties
    ensures a.qos > 0 ==> a.pktId == b.pktId
  {
    BodyParts(a);
    BodyParts(b);
    var x, y := IdBytes(a) + AfterId(a), IdBytes(b) + AfterId(b);
    TakeU16Append(|a.topic|, a.topic + x);
    TakeU16Append(|b.topic|, b.topic + y);
    CutAppend(a.topic, x);
    CutAppend(b.topic, y);
    assert x == y;
    CutAppend(IdBytes(a), AfterId(a));
    CutAppend(IdBytes(b), AfterId(b));
    assert AfterId(a) == AfterId(b);
    AfterIdInjective(a, b);
    if a.qos > 0 {
      assert U16Bytes(a.pktId.value) == U16Bytes(b.pktId.value);
    }
  }

  lemma AfterIdInjective(a: PublishArgs, b: PublishArgs)
    requires a.properties.Some? == b.properties.Some? && AfterId(a) == AfterId(b)
    ensures a.properties == b.properties && a.payload == b.payload
  {
    if a.properties.Some? {
      PropertiesPrefixFree(a.properties.value, a.payload, b.properties.value, b.payload);
    } else {
      assert AfterId(a) == a.payload && AfterId(b) == b.payload;
    }
  }

  lemma PropertiesPrefixFree(s: seq<byte>, x: seq<byte>, t: seq<byte>, y: seq<byte>)
    requires Properties(s) + x == Properties(t) + y
    ensures s == t && x == y
  {
    assert Properties(s) + x == RL.Encode(|s|) + (s + x);
    assert Properties(t) + y == RL.Encode(|t|) + (t + y);
    RL.PrefixFree(|s|, s + x, |t|, t + y);
    SameCut(s, x, t, y);
  }

  lemma SameCut(s: seq<byte>, x: seq<byte>, t: seq<byte>, y: seq<byte>)
    requires |s| == |t| && s + x == t + y
    ensures s == t && x == y
  {
    CutAppend(s, x);
    CutAppend(t, y);
  }
}
