/** Reading back the packets a broker answers with: CONNACK, SUBACK and the acknowledgements. */
module AckCodec {
  import opened Bytes
  import opened Packets
  import opened Framing
  import opened PublishCodec
  import RL = RemainingLength

  /** The arguments of a builder call, as a reader of the packet sees them. */
  datatype Fields =
    | ConnackFields(present: bool, code: byte, properties: Option<seq<byte>>)
    | AckFields(id: u16, more: seq<byte>)
    | SubackFields(id: u16, codes: seq<byte>, properties: Option<seq<byte>>)
    | PingFields

  /** Fields of a packet other than PUBLISH; v5 says whether a property block is expected. */
  function DecodeAck(v5: bool, p: Packet): Option<Fields> {
    var kind := p.ctrl / 16;
    if kind == 0x2 then
      if |p.body| < 2 || p.body[0] > 1 then None
      else
        var (props, rest) :- if v5 then TakeProperties(p.body[2..]) else Some(([], p.body[2..]));
        if rest != [] then None
        else Some(ConnackFields(p.body[0] == 1, p.body[1], if v5 then Some(props) else None))
    else if kind == 0x9 then
      var (id, rest) :- TakeU16(p.body);
      var (props, codes) :- if v5 then TakeProperties(rest) else Some(([], rest));
      Some(SubackFields(id, codes, if v5 then Some(props) else None))
    else if kind == 0xD then
      if p.body == [] then Some(PingFields) else None
    else
      var (id, rest) :- TakeU16(p.body);
      Some(AckFields(id, rest))
  }

  predicate Version5(c: Call) {
    c.Connack5? || c.Suback5? || c.AckLike5?
  }

  /** What the reader should find. */
  function Expected(c: Call): Fields
    requires Build(c).Ok? && !c.PublishCall?
  {
    match c
    case Connack(present, rc) => ConnackFields(present, rc, None)
    case Pingresp => PingFields
    case Ack(_, id) => AckFields(id, [])
    case Suback(id, grants) => SubackFields(id, ToBytes(grants).value, None)
    case Connack5(present, rc, ps) => ConnackFields(present, rc, Some(ps))
    case Suback5(id, codes, ps) => SubackFields(id, ToBytes(codes).value, Some(ps))
    case AckLike5(_, id, more) => AckFields(id, if more then [0x00, 0x00] else [])
  }

  /** The control bytes the acknowledgement builders are called with. */
  predicate AckControl(ctrl: int) {
    ctrl == PUBACK || ctrl == PUBREC || ctrl == PUBREL || ctrl == PUBCOMP
  }

  lemma OneCode(rc: int)
    requires ToBytes([rc]).Ok?
    ensures 0 <= rc < 256 && ToBytes([rc]).value == [rc as byte]
  {
    assert [rc][0] == rc;
    assert ToBytes([rc]).value[0] == rc;
  }

  lemma ConnackBody(ctrl: byte, flag: byte, rc: byte, ps: seq<byte>)
    requires ctrl / 16 == 0x2 && flag <= 1 && |ps| < RL.LIMIT
    ensures DecodeAck(true, Packet(ctrl, [flag] + [rc] + Properties(ps)))
         == Some(ConnackFields(flag == 1, rc, Some(ps)))
  {
    var body := [flag] + [rc] + Properties(ps);
    assert body[2..] == Properties(ps) + [];
    TakePropertiesAppend(ps, []);
  }

  lemma SubackBody(ctrl: byte, id: u16, codes: seq<byte>, ps: seq<byte>)
    requires ctrl / 16 == 0x9 && |ps| < RL.LIMIT
    ensures DecodeAck(true, Packet(ctrl, U16Bytes(id) + Properties(ps) + codes))
         == Some(SubackFields(id, codes, Some(ps)))
  {
    Assoc(U16Bytes(id), Properties(ps), codes);
    TakeU16Append(id, Properties(ps) + codes);
    TakePropertiesAppend(ps, codes);
  }

  lemma DecodeBodyOf(c: Call, ctrl: byte)
    requires Build(c).Ok? && !c.PublishCall? && |BodyOf(c)| < RL.LIMIT && ctrl == Build(c).value[0]
    requires c.Ack? ==> AckControl(c.ctrl)
    requires c.AckLike5? ==> AckControl(c.control)
    ensures DecodeAck(Version5(c), Packet(ctrl, BodyOf(c))) == Some(Expected(c))
  {
    var body := BodyOf(c);
    match c {
      case Connack(present, rc) =>
        OneCode(rc);
        assert body[2..] == [];
      case Pingresp =>
      case Ack(_, id) =>
        TakeU16Append(id, []);
        assert U16Bytes(id) + [] == U16Bytes(id);
      case Suback(id, grants) => TakeU16Append(id, ToBytes(grants).value);
      case Connack5(present, rc, ps) =>
        OneCode(rc);
        ConnackBody(ctrl, Flag(present), rc, ps);
      case Suback5(id, codes, ps) =>
        SubackBody(ctrl, id, ToBytes(codes).value, ps);
      case AckLike5(_, id, more) =>
        OneCode(c.control);
        TakeU16Append(id, if more then [0x00, 0x00] else []);
        assert U16Bytes(id) + [] == U16Bytes(id);
    }
  }

  /**
   * Every field of a CONNACK, SUBACK, PUBACK, PUBREC, PUBREL, PUBCOMP or PINGRESP of either version
   * is recovered from the bytes the builder wrote, followed by any tail, if and only if the
   * Remaining Length is below 128^4.
   */
  lemma AckRoundTrip(c: Call, tail: seq<byte>)
    requires Build(c).Ok? && !c.PublishCall?
    requires c.Ack? ==> AckControl(c.ctrl)
    requires c.AckLike5? ==> AckControl(c.control)
    ensures var r := TakePacket(Build(c).value + tail);
            (&& r.Some? && r.value.1 == tail
             && r.value.0.ctrl == Build(c).value[0]
             && DecodeAck(Version5(c), r.value.0) == Some(Expected(c)))
            <==> |BodyOf(c)| < RL.LIMIT
  {
    BuiltIsPacket(c);
    TakeWritten(PacketOf(c), tail);
    if |BodyOf(c)| < RL.LIMIT {
      DecodeBodyOf(c, Build(c).value[0]);
    }
  }
}
