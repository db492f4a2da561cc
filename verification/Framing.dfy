/**
 * Reading back what the builders write: the split of a byte stream by control byte and Remaining
 * Length. Lengths are read the way the transport reads them, with
 * RemainingLength.Parse over at most four bytes.
 */
module Framing {
  import opened Bytes
  import opened Packets
  import RL = RemainingLength

  datatype Packet = Packet(ctrl: byte, body: seq<byte>) {
    function Bytes(): seq<byte> {
      WithHeader(ctrl, body)
    }
  }

  /** A length the four-byte decoder accepts: the last byte it looked at ends the varint. */
  function TakeLength(s: seq<byte>): Option<RL.Parsed> {
    var q := RL.Parse(s, RL.MAX_BYTES);
    if 0 < q.used <= |s| && s[q.used - 1] < 128 then Some(q) else None
  }

  /** The first packet of s and what follows it. */
  function TakePacket(s: seq<byte>): Option<(Packet, seq<byte>)> {
    if s == [] then None
    else
      var q :- TakeLength(s[1..]);
      var end := 1 + q.used + q.value;
      if |s| < end then None
      else Some((Packet(s[0], s[1 + q.used..end]), s[end..]))
  }

  function Split(s: seq<byte>): Option<seq<Packet>>
    decreases |s|
  {
    if s == [] then Some([])
    else
      var (p, tail) :- TakePacket(s);
      var ps :- Split(tail);
      Some([p] + ps)
  }

  function Wire(ps: seq<Packet>): seq<byte> {
    if ps == [] then [] else ps[0].Bytes() + Wire(ps[1..])
  }

  ghost predicate Short(ps: seq<Packet>) {
    forall i :: 0 <= i < |ps| ==> |ps[i].body| < RL.LIMIT
  }

  // ---------------------------------------------------------------- splitting a concatenation

  lemma {:induction false} EncodeTerminated(n: nat)
    ensures RL.Terminated(RL.Encode(n))
  {
    if n >= 128 {
      EncodeTerminated(n / 128);
      var e := RL.Encode(n);
      assert e[1..] == RL.Encode(n / 128);
      forall i | 0 <= i < |e| - 1
        ensures e[i] >= 128
      {
        if i > 0 {
          assert e[i] == e[1..][i - 1];
        }
      }
    }
  }

  /** The four-byte decoder reads an encoded length back exactly when the length is below 128^4. */
  lemma TakeEncoded(n: nat, tail: seq<byte>)
    ensures n < RL.LIMIT ==> TakeLength(RL.Encode(n) + tail) == Some(RL.Parsed(n, |RL.Encode(n)|))
    ensures n >= RL.LIMIT ==> TakeLength(RL.Encode(n) + tail) == None
  {
    RL.ParseEncode(n, tail);
    EncodeTerminated(n);
    var e := RL.Encode(n);
    if n < RL.LIMIT {
      assert (e + tail)[|e| - 1] == e[|e| - 1];
    } else {
      RL.EncodeLengthExact(n, |e|);
      RL.LimitIsPow128();
      if |e| <= 4 {
        RL.PowMono(|e|, 4);
        assert false;
      }
      assert (e + tail)[3] == e[3];
    }
  }

  lemma TakeWritten(p: Packet, tail: seq<byte>)
    ensures |p.body| < RL.LIMIT ==> TakePacket(p.Bytes() + tail) == Some((p, tail))
    ensures |p.body| >= RL.LIMIT ==> TakePacket(p.Bytes() + tail) == None
  {
    var s := p.Bytes() + tail;
    var e := RL.Encode(|p.body|);
    assert s[1..] == e + (p.body + tail);
    TakeEncoded(|p.body|, p.body + tail);
    if |p.body| < RL.LIMIT {
      assert s[1 + |e|..1 + |e| + |p.body|] == p.body;
      assert s[1 + |e| + |p.body|..] == tail;
    }
  }

  /**
   * A concatenation of packets splits back into exactly those packets if and only if no body
   * reaches 128^4 bytes.
   */
  lemma {:induction false} SplitWire(ps: seq<Packet>)
    ensures Split(Wire(ps)) == Some(ps) <==> Short(ps)
  {
    if ps != [] {
      TakeWritten(ps[0], Wire(ps[1..]));
      SplitWire(ps[1..]);
      assert ps == [ps[0]] + ps[1..];
      assert Wire(ps) == ps[0].Bytes() + Wire(ps[1..]);
      assert Short(ps) <==> |ps[0].body| < RL.LIMIT && Short(ps[1..]) by {
        if Short(ps) {
          assert forall i :: 0 <= i < |ps[1..]| ==> ps[1..][i] == ps[i + 1];
        } else if |ps[0].body| < RL.LIMIT {
          var i :| 0 <= i < |ps| && |ps[i].body| >= RL.LIMIT;
          assert ps[1..][i - 1] == ps[i];
        }
      }
    }
  }

  lemma BytesPrefixFree(p: Packet, x: seq<byte>, q: Packet, y: seq<byte>)
    requires p.Bytes() + x == q.Bytes() + y
    ensures p == q && x == y
  {
    var s, t := p.Bytes() + x, q.Bytes() + y;
    assert s[0] == p.ctrl && t[0] == q.ctrl;
    assert s[1..] == RL.Encode(|p.body|) + (p.body + x);
    assert t[1..] == RL.Encode(|q.body|) + (q.body + y);
    RL.PrefixFree(|p.body|, p.body + x, |q.body|, q.body + y);
    assert (p.body + x)[..|p.body|] == p.body && (q.body + y)[..|p.body|] == q.body;
    assert (p.body + x)[|p.body|..] == x && (q.body + y)[|p.body|..] == y;
  }

  /** Two lists of packets with the same concatenation are the same list, whatever their lengths. */
  lemma {:induction false} WireInjective(ps: seq<Packet>, qs: seq<Packet>)
    requires Wire(ps) == Wire(qs)
    ensures ps == qs
  {
    if ps != [] && qs != [] {
      BytesPrefixFree(ps[0], Wire(ps[1..]), qs[0], Wire(qs[1..]));
      WireInjective(ps[1..], qs[1..]);
      assert ps == [ps[0]] + ps[1..] && qs == [qs[0]] + qs[1..];
    }
  }

  // ---------------------------------------------------------------- everything the builders write

  /** A call of one of the packet builders. */
  datatype Call =
    | Connack(present: bool, rc: int)
    | Pingresp
    | Ack(ctrl: byte, id: int)
    | Suback(id: int, grants: seq<int>)
    | Connack5(present: bool, rc: int, properties: seq<byte>)
    | Suback5(id: int, codes: seq<int>, properties: seq<byte>)
    | AckLike5(control: int, id: int, includeReason: bool)
    | PublishCall(args: PublishArgs)

  function Build(c: Call): Result<seq<byte>> {
    match c
    case Connack(present, rc) => PktConnack(present, rc)
    case Pingresp => Ok(PktPingresp())
    case Ack(ctrl, id) => PktAck(ctrl, id)
    case Suback(id, grants) => PktSuback(id, grants)
    case Connack5(present, rc, properties) => Pkt5Connack(present, rc, properties)
    case Suback5(id, codes, properties) => Pkt5Suback(id, codes, properties)
    case AckLike5(ctrl, id, includeReason) => Pkt5PubackLike(ctrl, id, includeReason)
    case PublishCall(args) => Publish(args)
  }

  /** What follows the fixed header in the packet a call builds; its length is the Remaining Length. */
  function BodyOf(c: Call): seq<byte>
    requires Build(c).Ok?
  {
    match c
    case Connack(present, rc) => [Flag(present)] + ToBytes([rc]).value
    case Pingresp => []
    case Ack(_, id) => U16Bytes(id)
    case Suback(id, grants) => U16Bytes(id) + ToBytes(grants).value
    case Connack5(present, rc, ps) => [Flag(present)] + ToBytes([rc]).value + Properties(ps)
    case Suback5(id, codes, ps) => U16Bytes(id) + Properties(ps) + ToBytes(codes).value
    case AckLike5(_, id, more) => if more then U16Bytes(id) + [0x00, 0x00] else U16Bytes(id)
    case PublishCall(args) => PublishBody(args).value
  }

  function PacketOf(c: Call): Packet
    requires Build(c).Ok?
  {
    Packet(Build(c).value[0], BodyOf(c))
  }

  ghost predicate IsPacket(b: seq<byte>) {
    exists p: Packet :: p.Bytes() == b
  }

  lemma BuiltIsPacket(c: Call)
    requires Build(c).Ok?
    ensures PacketOf(c).Bytes() == Build(c).value && IsPacket(Build(c).value)
    ensures |BodyOf(c)| < |Build(c).value|
  {
    if c.Pingresp? {
      assert PacketOf(c).Bytes() == [0xD0, 0x00];
    }
    assert PacketOf(c).Bytes() == Build(c).value;
  }

  /** What a list of builder calls returned, all of them without raising. */
  ghost predicate Built(calls: seq<Call>, outs: seq<seq<byte>>) {
    && |calls| == |outs|
    && forall i :: 0 <= i < |calls| ==> Build(calls[i]) == Ok(outs[i])
  }

  /** The packets behind a list of builder outputs. */
  lemma {:induction false} PacketsOf(calls: seq<Call>, outs: seq<seq<byte>>) returns (ps: seq<Packet>)
    requires Built(calls, outs)
    ensures |ps| == |outs| && Wire(ps) == Flatten(outs)
    ensures forall i :: 0 <= i < |outs| ==> ps[i] == PacketOf(calls[i]) && ps[i].Bytes() == outs[i]
  {
    if outs == [] {
      ps := [];
    } else {
      assert Built(calls[1..], outs[1..]);
      var rest := PacketsOf(calls[1..], outs[1..]);
      BuiltIsPacket(calls[0]);
      ps := [PacketOf(calls[0])] + rest;
      assert ps[1..] == rest;
      forall i | 0 <= i < |outs|
        ensures ps[i] == PacketOf(calls[i]) && ps[i].Bytes() == outs[i]
      {
        if i > 0 {
          assert ps[i] == rest[i - 1] && outs[i] == outs[1..][i - 1] && calls[i] == calls[1..][i - 1];
        }
      }
    }
  }

  /** r is exactly the packets whose bytes are `outs`, in order. */
  ghost predicate SplitsInto(r: Option<seq<Packet>>, outs: seq<seq<byte>>) {
    && r.Some? && |r.value| == |outs|
    && forall i :: 0 <= i < |outs| ==> r.value[i].Bytes() == outs[i]
  }

  lemma SamePackets(ps: seq<Packet>, qs: seq<Packet>, outs: seq<seq<byte>>)
    requires SplitsInto(Some(ps), outs) && SplitsInto(Some(qs), outs)
    ensures ps == qs
  {
    forall i | 0 <= i < |outs|
      ensures ps[i] == qs[i]
    {
      assert ps[i].Bytes() + [] == outs[i] + [] == qs[i].Bytes() + [];
      BytesPrefixFree(ps[i], [], qs[i], []);
    }
  }

  /**
   * Coalesced frames: the concatenation of the outputs of any builder calls splits into exactly
   * those outputs, one packet each and in order, if and only if no Remaining Length reaches 128^4.
   */
  lemma CoalescedSplits(calls: seq<Call>, outs: seq<seq<byte>>)
    requires Built(calls, outs)
    ensures SplitsInto(Split(Flatten(outs)), outs)
            <==> forall i :: 0 <= i < |calls| ==> |BodyOf(calls[i])| < RL.LIMIT
  {
    var ps := PacketsOf(calls, outs);
    SplitWire(ps);
    assert SplitsInto(Some(ps), outs);
    if SplitsInto(Split(Flatten(outs)), outs) {
      SamePackets(Split(Flatten(outs)).value, ps, outs);
      assert forall i :: 0 <= i < |calls| ==> ps[i].body == BodyOf(calls[i]);
    }
  }

  /** No other list of builder outputs has the same concatenation, however long the packets are. */
  lemma CoalescedUnique(calls: seq<Call>, outs: seq<seq<byte>>, calls': seq<Call>, outs': seq<seq<byte>>)
    requires Built(calls, outs) && Built(calls', outs')
    requires Flatten(outs) == Flatten(outs')
    ensures outs == outs'
  {
    var ps := PacketsOf(calls, outs);
    var qs := PacketsOf(calls', outs');
    WireInjective(ps, qs);
    forall i | 0 <= i < |outs|
      ensures outs[i] == outs'[i]
    {
      assert ps[i].Bytes() == outs[i] && qs[i].Bytes() == outs'[i];
    }
  }
}
