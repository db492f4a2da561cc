/**
 * What a client learns from the SUBACK of the autopilot: one return code, however many topic filters
 * its SUBSCRIBE had (sections 3.8.3 and 3.9.3 of MQTT 3.1.1 and MQTT 5.0).
 */
module Subscriptions {
  import opened Bytes
  import opened TransportSpec
  import opened Autopilot
  import opened AckCodec
  import F = Framing
  import P = Packets
  import RL = RemainingLength

  /** A topic filter in UTF-8 and the options byte behind it. */
  datatype Filter = Filter(topic: seq<byte>, options: byte)

  predicate Fits(filter: Filter) {
    |filter.topic| < 0x1_0000
  }

  function Payload(filters: seq<Filter>): seq<byte>
    requires forall i :: 0 <= i < |filters| ==> Fits(filters[i])
  {
    if filters == [] then []
    else
      var f := filters[0];
      assert Fits(f);
      U16Bytes(|f.topic|) + f.topic + [f.options] + Payload(filters[1..])
  }

  /** A SUBSCRIBE for the protocol version of the mode. */
  function Subscribe(mode: Mode, id: u16, properties: seq<byte>, filters: seq<Filter>): Request
    requires forall i :: 0 <= i < |filters| ==> Fits(filters[i])
  {
    var rest := U16Bytes(id) + ((if mode.Mqtt5? then P.Properties(properties) else []) + Payload(filters));
    Request(0x82, |rest|, rest)
  }

  /** The fields of a reply that is one packet and nothing else. */
  function FieldsOf(v5: bool, reply: seq<byte>): Option<Fields> {
    var (p, tail) :- F.TakePacket(reply);
    if tail == [] then DecodeAck(v5, p) else None
  }

  lemma ReplyFields(mode: Mode, q: Request)
    requires q.rl < RL.LIMIT && Reply(mode, q).Some?
    requires var c := Reply(mode, q).value;
             c.Suback? || c.Suback5?
    ensures var c := Reply(mode, q).value;
            F.Build(c).Ok? && FieldsOf(Version5(c), Answer(mode, q.Wire())) == Some(Expected(c))
  {
    var a, c := Answer(mode, q.Wire()), Reply(mode, q).value;
    AnswerIsEncoderPacket(mode, q);
    AnswerIsShort(mode, q.Wire());
    F.BuiltIsPacket(c);
    AckRoundTrip(c, []);
    assert a + [] == a;
  }

  /**
   * A SUBSCRIBE gets a SUBACK with its packet id, and as many return codes as it has topic filters
   * if and only if it has exactly one.
   */
  lemma OneReturnCode(mode: Mode, id: u16, properties: seq<byte>, filters: seq<Filter>)
    requires mode.Subscribe? || mode.Connected? || mode.Mqtt5?
    requires forall i :: 0 <= i < |filters| ==> Fits(filters[i])
    requires Subscribe(mode, id, properties, filters).rl < RL.LIMIT
    ensures var d := FieldsOf(mode.Mqtt5?, Answer(mode, Subscribe(mode, id, properties, filters).Wire()));
            && d.Some? && d.value.SubackFields? && d.value.id == id
            && (|d.value.codes| == |filters| <==> |filters| == 1)
  {
    var q := Subscribe(mode, id, properties, filters);
    assert q.rest[0] == U16Bytes(id)[0] && q.rest[1] == U16Bytes(id)[1];
    assert U16At(q.rest) == U16At(U16Bytes(id)) == id;
    assert q.ctrl / 16 == 0x8;
    ReplyFields(mode, q);
    OneByte(0);
  }
}
