/**
 * The autopilot against the encoder: the hard-coded replies of the transport are the packets
 * gen_seeds.py builds, and the reply stream of any run splits into one of them per request answered.
 */
module Autopilot {
  import opened Bytes
  import opened TransportSpec
  import opened TransportRuns
  import F = Framing
  import P = Packets
  import RL = RemainingLength

  /**
   * A client packet: a control byte, a Remaining Length and the bytes after it. The transport
   * never compares `rl` with what follows, so `rl` need not be |rest|.
   */
  datatype Request = Request(ctrl: byte, rl: nat, rest: seq<byte>) {
    function Wire(): (w: seq<byte>)
      ensures |w| >= 2
    {
      [ctrl] + RL.Encode(rl) + rest
    }
  }

  /** The builder call whose packet a broker in this mode sends back, if it answers at all. */
  function Reply(mode: Mode, q: Request): Option<F.Call> {
    var kind := q.ctrl / 16;
    match kind
    case 0x1 =>
      if mode.Connected? then Some(F.Connack(false, 0))
      else if mode.Mqtt5? then Some(F.Connack5(false, 0, []))
      else None
    case 0x8 =>
      if |q.rest| < 2 then None
      else if mode.Subscribe? || mode.Connected? then Some(F.Suback(U16At(q.rest), [0]))
      else if mode.Mqtt5? then Some(F.Suback5(U16At(q.rest), [0], []))
      else None
    case 0x6 =>
      if |q.rest| >= 2 && (mode.Qos? || mode.Connected?) then Some(F.Ack(P.PUBCOMP, U16At(q.rest)))
      else None
    case 0xC => Some(F.Pingresp)
    case _ => None
  }

  lemma HeaderOfRequest(q: Request)
    requires q.rl < RL.LIMIT
    ensures var w, h := q.Wire(), 1 + |RL.Encode(q.rl)|;
            w[0] == q.ctrl && HeaderLength(w) == h && w[h..] == q.rest
  {
    var w := q.Wire();
    assert w[1..] == RL.Encode(q.rl) + q.rest;
    RL.ParseEncode(q.rl, q.rest);
  }

  /**
   * The header is measured correctly exactly when the Remaining Length is below 128^4; above, the
   * packet id is looked for inside the length field.
   */
  lemma HeaderExact(q: Request)
    ensures HeaderLength(q.Wire()) == 1 + |RL.Encode(q.rl)| <==> q.rl < RL.LIMIT
  {
    var w := q.Wire();
    assert w[1..] == RL.Encode(q.rl) + q.rest;
    RL.ParseEncode(q.rl, q.rest);
    RL.EncodeLength(q.rl);
    RL.LimitIsPow128();
    if |RL.Encode(q.rl)| <= 4 {
      RL.PowMono(|RL.Encode(q.rl)|, 4);
    }
  }

  lemma U16BytesAt(s: seq<byte>)
    requires |s| >= 2
    ensures U16Bytes(U16At(s)) == [s[0], s[1]]
  {
  }

  lemma OneByte(x: byte)
    ensures P.ToBytes([x]) == Ok([x])
  {
    assert [x][1..] == [];
    assert P.ToBytes([]) == Ok([]);
    assert P.ToBytes([x]).value == [x];
  }

  lemma BuiltAcks(s: seq<byte>)
    requires |s| >= 2
    ensures P.PktSuback(U16At(s), [0]) == Ok([0x90, 0x03, s[0], s[1], 0x00])
    ensures P.Pkt5Suback(U16At(s), [0], []) == Ok([0x90, 0x04, s[0], s[1], 0x00, 0x00])
    ensures P.PktAck(P.PUBCOMP, U16At(s)) == Ok([0x70, 0x02, s[0], s[1]])
  {
    var id := U16Bytes(U16At(s));
    U16BytesAt(s);
    OneByte(0);
    P.SmallEncode(0);
    P.SmallEncode(2);
    P.SmallEncode(3);
    P.SmallEncode(4);
    assert P.Properties([]) == [0];
    assert id + [0] == [s[0], s[1], 0] && id + [0] + [0] == [s[0], s[1], 0, 0];
    assert P.PktSuback(U16At(s), [0]).value == [0x90, 0x03, s[0], s[1], 0x00];
    assert P.Pkt5Suback(U16At(s), [0], []).value == [0x90, 0x04, s[0], s[1], 0x00, 0x00];
    assert P.PktAck(P.PUBCOMP, U16At(s)).value == [0x70, 0x02, s[0], s[1]];
  }

  lemma BuiltConnacks()
    ensures P.PktConnack(false, 0) == Ok([0x20, 0x02, 0x00, 0x00])
    ensures P.Pkt5Connack(false, 0, []) == Ok([0x20, 0x03, 0x00, 0x00, 0x00])
  {
    OneByte(0);
    P.SmallEncode(0);
    P.SmallEncode(2);
    P.SmallEncode(3);
    assert P.Properties([]) == [0];
    assert P.PktConnack(false, 0).value == [0x20, 0x02, 0x00, 0x00];
    assert P.Pkt5Connack(false, 0, []).value == [0x20, 0x03, 0x00, 0x00, 0x00];
  }

  lemma AcksEcho(w: seq<byte>, h: nat, rest: seq<byte>)
    requires h <= |w| && w[h..] == rest && |rest| >= 2
    ensures P.PktSuback(U16At(rest), [0]) == Ok([0x90, 0x03, w[h], w[h + 1], 0x00])
    ensures P.Pkt5Suback(U16At(rest), [0], []) == Ok([0x90, 0x04, w[h], w[h + 1], 0x00, 0x00])
    ensures P.PktAck(P.PUBCOMP, U16At(rest)) == Ok([0x70, 0x02, w[h], w[h + 1]])
  {
    assert w[h] == w[h..][0] && w[h + 1] == w[h..][1];
    BuiltAcks(rest);
  }

  /** Each answer is exactly what the encoder builds, with the packet id of the request. */
  lemma AnswerIsEncoderPacket(mode: Mode, q: Request)
    requires q.rl < RL.LIMIT
    ensures match Reply(mode, q)
            case None => Answer(mode, q.Wire()) == []
            case Some(c) => Answer(mode, q.Wire()) != [] && F.Build(c) == Ok(Answer(mode, q.Wire()))
  {
    HeaderOfRequest(q);
    AnswerByParts(mode, q, q.Wire(), HeaderLength(q.Wire()));
  }

  lemma AnswerByParts(mode: Mode, q: Request, w: seq<byte>, h: nat)
    requires w != [] && w[0] == q.ctrl && HeaderLength(w) == h <= |w| && w[h..] == q.rest
    ensures Reply(mode, q).None? ==> Answer(mode, w) == []
    ensures Reply(mode, q).Some? ==>
              Answer(mode, w) != [] && F.Build(Reply(mode, q).value) == Ok(Answer(mode, w))
  {
    var kind := q.ctrl / 16;
    if kind == 0x1 {
      BuiltConnacks();
    } else if (kind == 0x8 || kind == 0x6) && |q.rest| >= 2 {
      AcksEcho(w, h, q.rest);
      assert |w| >= h + 2;
    } else {
      assert Reply(mode, q).Some? ==> kind == 0xC;
    }
  }

  /**
   * The reply to any bytes, by the number the mode is opened with: 1 connected, 2 subscribe, 3 qos,
   * 4 mqtt5; every other number answers PINGREQ only. The id is looked for behind the at most four
   * bytes that read as a length, and without it there is no SUBACK and no PUBCOMP.
   */
  lemma RepliesToAnyBytes(mode: int, req: seq<byte>)
    requires req != []
    ensures var a, kind, h := Answer(ModeOf(mode), req), req[0] / 16, 1 + RL.Parse(req[1..], 4).used;
            a == if kind == 0xC then [0xD0, 0]
                 else if kind == 0x1 && mode == 1 then [0x20, 2, 0, 0]
                 else if kind == 0x1 && mode == 4 then [0x20, 3, 0, 0, 0]
                 else if |req| < h + 2 then []
                 else if kind == 0x8 && (mode == 1 || mode == 2) then [0x90, 3, req[h], req[h + 1], 0]
                 else if kind == 0x8 && mode == 4 then [0x90, 4, req[h], req[h + 1], 0, 0]
                 else if kind == 0x6 && (mode == 1 || mode == 3) then [0x70, 2, req[h], req[h + 1]]
                 else []
  {
  }

  /** For a framed request these are the first two bytes behind its Remaining Length. */
  lemma RepliesByNumber(mode: int, q: Request)
    requires q.rl <= 268_435_455
    ensures var a, kind, known := Answer(ModeOf(mode), q.Wire()), q.ctrl / 16, |q.rest| >= 2;
            a == if kind == 0xC then [0xD0, 0]
                 else if kind == 0x1 && mode == 1 then [0x20, 2, 0, 0]
                 else if kind == 0x1 && mode == 4 then [0x20, 3, 0, 0, 0]
                 else if kind == 0x8 && known && (mode == 1 || mode == 2) then [0x90, 3, q.rest[0], q.rest[1], 0]
                 else if kind == 0x8 && known && mode == 4 then [0x90, 4, q.rest[0], q.rest[1], 0, 0]
                 else if kind == 0x6 && known && (mode == 1 || mode == 3) then [0x70, 2, q.rest[0], q.rest[1]]
                 else []
  {
    var w, h := q.Wire(), HeaderLength(q.Wire());
    HeaderOfRequest(q);
    if |q.rest| >= 2 {
      assert w[h] == w[h..][0] && w[h + 1] == w[h..][1];
    }
  }

  /** Whatever is written, framed or not, an answer is nothing or one whole packet. */
  lemma AnswerIsPacket(mode: Mode, req: seq<byte>)
    requires req != []
    ensures Answer(mode, req) == [] || F.IsPacket(Answer(mode, req))
  {
    var a, h := Answer(mode, req), HeaderLength(req);
    BuiltConnacks();
    if |a| == 2 {
      F.BuiltIsPacket(F.Pingresp);
    } else if a == [0x20, 0x02, 0x00, 0x00] {
      F.BuiltIsPacket(F.Connack(false, 0));
    } else if a == [0x20, 0x03, 0x00, 0x00, 0x00] {
      F.BuiltIsPacket(F.Connack5(false, 0, []));
    } else if a != [] {
      var id := req[h..];
      BuiltAcks(id);
      assert id[0] == req[h] && id[1] == req[h + 1];
      F.BuiltIsPacket(F.Suback(U16At(id), [0]));
      F.BuiltIsPacket(F.Suback5(U16At(id), [0], []));
      F.BuiltIsPacket(F.Ack(P.PUBCOMP, U16At(id)));
    }
  }

  // ---------------------------------------------------------------- whole runs

  /** One move of a client that writes framed packets only. */
  datatype Move = Send(q: Request, grown: bool) | Other(op: Call)

  predicate Framed(m: Move) {
    if m.Send? then m.q.rl < RL.LIMIT else !m.op.Write?
  }

  function OpOf(m: Move): Call {
    match m
    case Send(q, grown) => Write(q.Wire(), |q.Wire()|, grown)
    case Other(op) => op
  }

  function Ops(moves: seq<Move>): (ops: seq<Call>)
    ensures |ops| == |moves|
  {
    if moves == [] then [] else Ops(moves[..|moves| - 1]) + [OpOf(moves[|moves| - 1])]
  }

  /** The builder calls for the requests that get an answer, in the order they were written. */
  function Answered(autopilot: bool, mode: Mode, moves: seq<Move>): seq<F.Call> {
    if moves == [] then []
    else
      var m := moves[|moves| - 1];
      Answered(autopilot, mode, moves[..|moves| - 1])
      + if m.Send? && autopilot && m.grown && Reply(mode, m.q).Some? then [Reply(mode, m.q).value] else []
  }

  function Outputs(calls: seq<F.Call>): (outs: seq<seq<byte>>)
    ensures |outs| == |calls|
  {
    if calls == [] then []
    else Outputs(calls[..|calls| - 1]) + [F.Build(calls[|calls| - 1]).GetOr([])]
  }

  lemma OutputsSnoc(calls: seq<F.Call>, c: F.Call)
    ensures Outputs(calls + [c]) == Outputs(calls) + [F.Build(c).GetOr([])]
  {
    assert (calls + [c])[..|calls|] == calls;
  }

  lemma AnswerIsShort(mode: Mode, req: seq<byte>)
    requires req != []
    ensures |Answer(mode, req)| <= 6
  {
  }

  lemma {:induction false} RunKeepsSetup(s: State, ops: seq<Call>)
    requires s.Valid()
    ensures var t := Run(s, ops).state;
            t.autopilot == s.autopilot && t.mode == s.mode && t.frag == s.frag && t.input == s.input
  {
    if ops != [] {
      RunKeepsSetup(s, ops[..|ops| - 1]);
    }
  }

  /** `queued` is the concatenation of what these builder calls returned, each packet at most six bytes. */
  ghost predicate IsOutputOf(queued: seq<byte>, calls: seq<F.Call>) {
    && F.Built(calls, Outputs(calls))
    && (forall i :: 0 <= i < |calls| ==> |Outputs(calls)[i]| <= 6)
    && queued == Flatten(Outputs(calls))
  }

  lemma OneMoreOutput(queued: seq<byte>, calls: seq<F.Call>, c: F.Call, packet: seq<byte>)
    requires IsOutputOf(queued, calls) && F.Build(c) == Ok(packet) && |packet| <= 6
    ensures IsOutputOf(queued + packet, calls + [c])
  {
    OutputsSnoc(calls, c);
    FlattenSnoc(Outputs(calls), packet);
  }

  /** What a run queues is the concatenation of the encoder's packets for the requests answered. */
  lemma {:induction false} QueuedIsAnswers(s: State, moves: seq<Move>)
    requires s.Valid() && forall m :: m in moves ==> Framed(m)
    ensures IsOutputOf(Collect(Run(s, Ops(moves)).trace, QueuedBy), Answered(s.autopilot, s.mode, moves))
  {
    if moves != [] {
      var n := |moves| - 1;
      var m, op := moves[n], OpOf(moves[n]);
      assert m in moves && Framed(m);
      QueuedIsAnswers(s, moves[..n]);
      var calls := Answered(s.autopilot, s.mode, moves[..n]);
      var before := Run(s, Ops(moves[..n]));
      var e := Step(before.state, op).1;
      RunSnoc(s, Ops(moves[..n]), op);
      RunKeepsSetup(s, Ops(moves[..n]));
      CollectSnoc(before.trace, e, QueuedBy);
      MoveQueues(before.state, m);
      if m.Send? && s.autopilot && m.grown && Reply(s.mode, m.q).Some? {
        OneMoreOutput(Collect(before.trace, QueuedBy), calls, Reply(s.mode, m.q).value, QueuedBy(e));
      } else {
        assert calls + [] == calls && Collect(before.trace, QueuedBy) + [] == Collect(before.trace, QueuedBy);
      }
    }
  }

  lemma MoveQueues(s: State, m: Move)
    requires s.Valid() && Framed(m)
    ensures var queued := QueuedBy(Step(s, OpOf(m)).1);
            if m.Send? && s.autopilot && m.grown && Reply(s.mode, m.q).Some? then
              F.Build(Reply(s.mode, m.q).value) == Ok(queued) && |queued| <= 6
            else queued == []
  {
    if m.Send? {
      assert m.q.Wire()[..|m.q.Wire()|] == m.q.Wire();
      AnswerIsEncoderPacket(s.mode, m.q);
      AnswerIsShort(s.mode, m.q.Wire());
    }
  }

  /**
   * For every sequence of framed client packets mixed with reads of any size, polls, connects and
   * closes, under any `frag`: the replies read so far followed by those still pending split by
   * length prefix into exactly one encoder packet per answered request, in order and with its id.
   */
  lemma RepliesSplit(s: State, moves: seq<Move>)
    requires s.Valid() && s.pending == [] && forall m :: m in moves ==> Framed(m)
    ensures var r := Run(s, Ops(moves));
            var outs := Outputs(Answered(s.autopilot, s.mode, moves));
            F.SplitsInto(F.Split(Collect(r.trace, RepliesBy) + r.state.pending), outs)
  {
    var r := Run(s, Ops(moves));
    var calls := Answered(s.autopilot, s.mode, moves);
    QueuedIsAnswers(s, moves);
    Conservation(s, Ops(moves));
    assert [] + Collect(r.trace, QueuedBy) == Collect(r.trace, QueuedBy);
    forall i | 0 <= i < |calls|
      ensures |F.BodyOf(calls[i])| < RL.LIMIT
    {
      F.BuiltIsPacket(calls[i]);
    }
    F.CoalescedSplits(calls, Outputs(calls));
  }

  /** Once drained, the bytes the client has read as replies are exactly those packets. */
  lemma DrainedReplies(s: State, moves: seq<Move>)
    requires s.Valid() && s.pending == [] && forall m :: m in moves ==> Framed(m)
    requires Run(s, Ops(moves)).state.pending == []
    ensures Collect(Run(s, Ops(moves)).trace, RepliesBy)
         == Flatten(Outputs(Answered(s.autopilot, s.mode, moves)))
  {
    QueuedIsAnswers(s, moves);
    Conservation(s, Ops(moves));
    var replies := Collect(Run(s, Ops(moves)).trace, RepliesBy);
    assert replies + [] == replies;
    assert [] + Collect(Run(s, Ops(moves)).trace, QueuedBy) == Collect(Run(s, Ops(moves)).trace, QueuedBy);
  }

  // ---------------------------------------------------------------- writes of any bytes

  /** What one call queues under these settings. */
  function AnswerTo(autopilot: bool, mode: Mode, op: Call): seq<byte> {
    if op.Write? && autopilot && op.len > 0 && op.grown then Answer(mode, op.buf[..op.len]) else []
  }

  /** The replies to the writes that queue something, in order. */
  function Answers(autopilot: bool, mode: Mode, ops: seq<Call>): seq<seq<byte>> {
    if ops == [] then []
    else
      var a := AnswerTo(autopilot, mode, ops[|ops| - 1]);
      Answers(autopilot, mode, ops[..|ops| - 1]) + if a == [] then [] else [a]
  }

  ghost predicate ShortPacket(b: seq<byte>) {
    |b| <= 6 && F.IsPacket(b)
  }

  lemma StepAnswers(s: State, op: Call)
    requires s.Valid()
    ensures var a := AnswerTo(s.autopilot, s.mode, op);
            QueuedBy(Step(s, op).1) == a && (a == [] || ShortPacket(a))
  {
    if op.Write? && op.len > 0 {
      AnswerIsPacket(s.mode, op.buf[..op.len]);
      AnswerIsShort(s.mode, op.buf[..op.len]);
    }
  }

  lemma {:induction false} QueuedIsAnswered(s: State, ops: seq<Call>)
    requires s.Valid()
    ensures var outs := Answers(s.autopilot, s.mode, ops);
            && Collect(Run(s, ops).trace, QueuedBy) == Flatten(outs)
            && forall i :: 0 <= i < |outs| ==> ShortPacket(outs[i])
  {
    if ops != [] {
      var front, op := ops[..|ops| - 1], ops[|ops| - 1];
      var before := Run(s, front);
      QueuedIsAnswered(s, front);
      RunKeepsSetup(s, front);
      StepAnswers(before.state, op);
      CollectSnoc(before.trace, Step(before.state, op).1, QueuedBy);
      var outs, a := Answers(s.autopilot, s.mode, front), AnswerTo(s.autopilot, s.mode, op);
      if a == [] {
        assert outs + [] == outs && Flatten(outs) + [] == Flatten(outs);
      } else {
        FlattenSnoc(outs, a);
      }
    }
  }

  lemma {:induction false} PacketsBehind(outs: seq<seq<byte>>) returns (ps: seq<F.Packet>)
    requires forall i :: 0 <= i < |outs| ==> ShortPacket(outs[i])
    ensures F.Short(ps) && F.Wire(ps) == Flatten(outs) && F.SplitsInto(Some(ps), outs)
  {
    if outs == [] {
      ps := [];
    } else {
      assert ShortPacket(outs[0]);
      var p: F.Packet :| p.Bytes() == outs[0];
      assert |p.body| <= |p.Bytes()|;
      var rest := PacketsBehind(outs[1..]);
      ps := [p] + rest;
      assert ps[1..] == rest;
      forall i | 0 <= i < |outs|
        ensures ps[i].Bytes() == outs[i] && |ps[i].body| < RL.LIMIT
      {
        assert i > 0 ==> ps[i] == rest[i - 1] && outs[i] == outs[1..][i - 1];
      }
    }
  }

  /**
   * For every sequence of calls, whatever bytes they write: the replies read so far followed by those
   * still pending split into exactly one packet per write that got an answer, in order.
   */
  lemma AnyRepliesSplit(s: State, ops: seq<Call>)
    requires s.Valid() && s.pending == []
    ensures var r := Run(s, ops);
            F.SplitsInto(F.Split(Collect(r.trace, RepliesBy) + r.state.pending), Answers(s.autopilot, s.mode, ops))
  {
    var r := Run(s, ops);
    QueuedIsAnswered(s, ops);
    Conservation(s, ops);
    assert [] + Collect(r.trace, QueuedBy) == Collect(r.trace, QueuedBy);
    var ps := PacketsBehind(Answers(s.autopilot, s.mode, ops));
    F.SplitWire(ps);
  }

  // ---------------------------------------------------------------- what handshake mode answers

  /** Modes that answer PINGREQ and nothing else. */
  predicate AnswersPingOnly(m: Mode) {
    m.Handshake? || m.Dynamic?
  }

  /** A written PINGREQ for which the reply buffer can grow. */
  predicate Pings(op: Call) {
    op.Write? && op.len > 0 && op.grown && op.buf[0] / 16 == 0xC
  }

  /** Handshake mode is not silent, whatever its description says: PINGREQ gets its PINGRESP. */
  lemma HandshakeAnswersPing()
    ensures Answer(Handshake, [0xC0, 0x00]) == P.PktPingresp() != []
  {
    assert 0xC0 / 16 == 0xC;
  }

  lemma PingOnlyStep(s: State, op: Call)
    requires s.Valid() && s.autopilot && AnswersPingOnly(s.mode)
    ensures QueuedBy(Step(s, op).1) == if Pings(op) then P.PktPingresp() else []
  {
    if op.Write? && op.len > 0 {
      assert op.buf[..op.len][0] == op.buf[0];
    }
  }

  /**
   * With autopilot on, a whole run in handshake mode stays without automatic replies if and only
   * if no PINGREQ is written in it.
   */
  lemma {:induction false} HandshakeSilentExactly(s: State, ops: seq<Call>)
    requires s.Valid() && s.autopilot && AnswersPingOnly(s.mode)
    ensures Collect(Run(s, ops).trace, QueuedBy) == [] <==> forall i :: 0 <= i < |ops| ==> !Pings(ops[i])
  {
    if ops != [] {
      var front, op := ops[..|ops| - 1], ops[|ops| - 1];
      var before := Run(s, front);
      HandshakeSilentExactly(s, front);
      RunKeepsSetup(s, front);
      PingOnlyStep(before.state, op);
      CollectSnoc(before.trace, Step(before.state, op).1, QueuedBy);
      NoPings(ops);
    }
  }

  lemma NoPings(ops: seq<Call>)
    requires ops != []
    ensures var front := ops[..|ops| - 1];
            (forall i :: 0 <= i < |ops| ==> !Pings(ops[i]))
            <==> !Pings(ops[|ops| - 1]) && forall i :: 0 <= i < |front| ==> !Pings(front[i])
  {
    var front := ops[..|ops| - 1];
    assert ops == front + [ops[|ops| - 1]];
  }
}
