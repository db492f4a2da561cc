/**
 * The dynamic mode of the transport against the selector prefix of write_dynamic_seed: which
 * transports a caller cannot tell apart.
 */
module DynamicMode {
  import opened Bytes
  import opened TransportSpec
  import opened TransportRuns
  import opened Autopilot

  /** The bytes write_dynamic_seed writes for a mode selector. */
  function DynamicSeed(sel: int, data: seq<byte>): Result<seq<byte>> {
    if 0 <= sel <= 0x0F then Ok([sel as byte] + data) else Err(ValueError)
  }

  // ---------------------------------------------------------------- bisimulation

  /** Modes that form the same answers. */
  predicate SameAnswers(autopilot: bool, m: Mode, n: Mode) {
    !autopilot || m == n || (AnswersPingOnly(m) && AnswersPingOnly(n))
  }

  /** The two states differ at most in bytes of `input` already behind the read position. */
  ghost predicate Similar(s: State, t: State) {
    && s.Valid() && t.Valid()
    && s.Unread() == t.Unread()
    && s.(input := [], inOff := 0, mode := Handshake) == t.(input := [], inOff := 0, mode := Handshake)
    && SameAnswers(s.autopilot, s.mode, t.mode)
  }

  lemma SimilarStep(s: State, t: State, op: Call)
    requires Similar(s, t)
    ensures Similar(Step(s, op).0, Step(t, op).0) && Step(s, op).1 == Step(t, op).1
  {
    assert |s.Unread()| == |s.input| - s.inOff == |t.input| - t.inOff;
    if op.Read? && s.connected && s.pending == [] && s.inOff < |s.input| {
      SimilarInput(s, t, op.max);
    }
  }

  lemma SimilarInput(s: State, t: State, max: nat)
    requires Similar(s, t) && s.connected && s.pending == [] && s.inOff < |s.input| && t.inOff < |t.input|
    requires |s.input| - s.inOff == |t.input| - t.inOff
    ensures Similar(Step(s, Read(max)).0, Step(t, Read(max)).0) && Step(s, Read(max)).1 == Step(t, Read(max)).1
  {
    var n := Min(Cap(s.frag, max), |s.input| - s.inOff);
    StepInput(s, max);
    StepInput(t, max);
    assert s.Unread()[..n] == t.Unread()[..n] && s.Unread()[n..] == t.Unread()[n..];
  }

  lemma StepInput(s: State, max: nat)
    requires s.Valid() && s.connected && s.pending == [] && s.inOff < |s.input|
    ensures var n := Min(Cap(s.frag, max), |s.input| - s.inOff);
            var (t, e) := Step(s, Read(max));
            && t == s.(inOff := s.inOff + n) && t.Unread() == s.Unread()[n..]
            && e == FromInput(s.Unread()[..n])
  {
    var n := Min(Cap(s.frag, max), |s.input| - s.inOff);
    SliceTwice(s.input, s.inOff, n);
  }

  lemma {:induction false} SimilarRuns(s: State, t: State, ops: seq<Call>)
    requires Similar(s, t)
    ensures Similar(Run(s, ops).state, Run(t, ops).state) && Run(s, ops).trace == Run(t, ops).trace
  {
    if ops != [] {
      SimilarRuns(s, t, ops[..|ops| - 1]);
      SimilarStep(Run(s, ops[..|ops| - 1]).state, Run(t, ops[..|ops| - 1]).state, ops[|ops| - 1]);
    }
  }

  /**
   * A transport opened in dynamic mode on a seed with selector 0..4 behaves, on every sequence of
   * calls, like one opened in that fixed mode on the payload; selectors 5..15 behave as handshake.
   */
  lemma SeedSelectsMode(sel: int, data: seq<byte>, autopilot: bool, frag: int, ops: seq<Call>)
    ensures DynamicSeed(sel, data).Ok? <==> 0 <= sel <= 15
    ensures DynamicSeed(sel, data).Ok? ==>
              var dynamic := Run(Open(DynamicSeed(sel, data).value, autopilot, 5, frag), ops);
              var fixed := Run(Open(data, autopilot, if sel <= 4 then sel else 0, frag), ops);
              dynamic.trace == fixed.trace && Similar(dynamic.state, fixed.state)
  {
    if DynamicSeed(sel, data).Err? {
      return;
    }
    var seed := DynamicSeed(sel, data).value;
    assert seed[1..] == data;
    SimilarRuns(Open(seed, autopilot, 5, frag), Open(data, autopilot, if sel <= 4 then sel else 0, frag), ops);
  }

  /** With no byte to select from, dynamic mode stays dynamic and behaves as handshake. */
  lemma EmptySeedIsHandshake(autopilot: bool, frag: int, ops: seq<Call>)
    ensures Run(Open([], autopilot, 5, frag), ops).trace == Run(Open([], autopilot, 0, frag), ops).trace
  {
    SimilarRuns(Open([], autopilot, 5, frag), Open([], autopilot, 0, frag), ops);
  }

  // ---------------------------------------------------------------- telling modes apart

  /** What a caller sees of an event: the value returned and the bytes put in its buffer. */
  datatype Seen = Returned(ret: int) | Got(data: seq<byte>) | Nothing

  function See(e: Event): Seen {
    match e
    case Done(ret) => Returned(ret)
    case Wrote(ret, _) => Returned(ret)
    case FromReplies(data) => Got(data)
    case FromInput(data) => Got(data)
    case TimedOut => Nothing
  }

  ghost predicate LookAlike(x: seq<Event>, y: seq<Event>) {
    |x| == |y| && forall i :: 0 <= i < |x| ==> See(x[i]) == See(y[i])
  }

  lemma {:induction false} RunAppend(s: State, xs: seq<Call>, ys: seq<Call>)
    requires s.Valid()
    ensures var first := Run(s, xs);
            var second := Run(first.state, ys);
            Run(s, xs + ys) == Outcome(second.state, first.trace + second.trace)
    decreases |ys|
  {
    if ys == [] {
      assert xs + ys == xs;
      assert Run(s, xs).trace + [] == Run(s, xs).trace;
    } else {
      var front := ys[..|ys| - 1];
      RunAppend(s, xs, front);
      RunSnoc(s, xs + front, ys[|ys| - 1]);
      assert xs + ys == (xs + front) + [ys[|ys| - 1]];
      var first := Run(s, xs);
      var e := Run(first.state, ys).trace[|ys| - 1];
      assert Run(first.state, ys).trace == Run(first.state, front).trace + [e];
      Assoc(first.trace, Run(first.state, front).trace, [e]);
    }
  }

  datatype Probe = ProbeConnect | ProbeSubscribe | ProbePubrel

  function ProbeBytes(p: Probe): (w: seq<byte>)
    ensures w != []
  {
    match p
    case ProbeConnect => [0x10]
    case ProbeSubscribe => [0x80, 0x00, 0x00, 0x00]
    case ProbePubrel => [0x62, 0x00, 0x00, 0x00]
  }

  /** The first two bytes of the answer to a probe. */
  function Head(m: Mode, p: Probe): seq<byte> {
    var a := Answer(m, ProbeBytes(p));
    if |a| < 2 then a else a[..2]
  }

  lemma HeadOf(m: Mode, p: Probe)
    ensures Head(m, p) == match p
              case ProbeConnect => if m.Connected? then [0x20, 0x02] else if m.Mqtt5? then [0x20, 0x03] else []
              case ProbeSubscribe =>
                if m.Connected? || m.Subscribe? then [0x90, 0x03] else if m.Mqtt5? then [0x90, 0x04] else []
              case ProbePubrel => if m.Connected? || m.Qos? then [0x70, 0x02] else []
    ensures Head(m, p) == [] <==> Answer(m, ProbeBytes(p)) == []
  {
    var w := ProbeBytes(p);
    if |w| == 4 {
      assert w[1..][0] == 0;
      assert HeaderLength(w) == 2;
    }
  }

  lemma ProbeApart(m: Mode, n: Mode) returns (p: Probe)
    requires !AnswersPingOnly(m) || !AnswersPingOnly(n)
    requires m != n
    ensures Head(m, p) != Head(n, p)
  {
    p := if (m.Connected? || m.Mqtt5?) || (n.Connected? || n.Mqtt5?) then ProbeConnect
         else if m.Subscribe? || n.Subscribe? then ProbeSubscribe
         else ProbePubrel;
    HeadOf(m, p);
    HeadOf(n, p);
  }

  /** The calls of one probe: write it, then read two single bytes. */
  function ProbeCalls(p: Probe): seq<Call> {
    [Write(ProbeBytes(p), |ProbeBytes(p)|, true), Read(1), Read(1)]
  }

  lemma RunThree(s: State, a: Call, b: Call, c: Call)
    requires s.Valid()
    ensures var (s1, e1) := Step(s, a);
            var (s2, e2) := Step(s1, b);
            Run(s, [a, b, c]).trace == [e1, e2, Step(s2, c).1]
  {
    RunSnoc(s, [], a);
    RunSnoc(s, [a], b);
    RunSnoc(s, [a, b], c);
    assert [] + [a] == [a] && [a] + [b] == [a, b] && [a, b] + [c] == [a, b, c];
  }

  lemma ReadOne(s: State)
    requires s.Valid() && s.connected
    ensures s.pending != [] ==>
              Step(s, Read(1)) == (s.(pending := s.pending[1..]), FromReplies([s.pending[0]]))
    ensures Left(s) == [] ==> Step(s, Read(1)).1 == TimedOut
  {
    assert Left(s) == [] ==> |s.pending + s.Unread()| == 0;
    if s.pending != [] {
      assert Cap(s.frag, 1) == 1;
      assert s.pending[..1] == [s.pending[0]];
    }
  }

  lemma WriteProbe(s: State, p: Probe)
    requires s.Valid() && s.autopilot && s.pending == []
    ensures var a := Answer(s.mode, ProbeBytes(p));
            Step(s, ProbeCalls(p)[0]) == (s.(pending := a), Wrote(|ProbeBytes(p)|, a))
  {
    var w := ProbeBytes(p);
    assert w[..|w|] == w;
    assert [] + Answer(s.mode, w) == Answer(s.mode, w);
  }

  /** The first of the two reads after a probe shows `first`, the second, if that is something, `second`. */
  ghost predicate Shows(t: seq<Event>, h: seq<byte>) {
    && |t| == 3
    && (h == [] ==> See(t[1]) == Nothing)
    && (h != [] ==> |h| == 2 && See(t[1]) == Got([h[0]]) && See(t[2]) == Got([h[1]]))
  }

  lemma TwoReads(s: State, a: seq<byte>)
    requires s.Valid() && s.connected && s.pending == a && |a| >= 2
    ensures var (s', e) := Step(s, Read(1));
            e == FromReplies([a[0]]) && Step(s', Read(1)).1 == FromReplies([a[1]])
  {
    ReadOne(s);
    ReadOne(s.(pending := a[1..]));
  }

  /** On a drained transport the probe shows the head of the answer, or nothing. */
  lemma ProbeShows(s: State, p: Probe)
    requires s.Valid() && s.connected && s.autopilot && Left(s) == []
    ensures Shows(Run(s, ProbeCalls(p)).trace, Head(s.mode, p))
  {
    var a := Answer(s.mode, ProbeBytes(p));
    assert |s.pending + s.Unread()| == 0;
    WriteProbe(s, p);
    RunThree(s, ProbeCalls(p)[0], Read(1), Read(1));
    AnswerShows(s.(pending := a), p);
  }

  lemma AnswerShows(s: State, p: Probe)
    requires s.Valid() && s.connected && s.Unread() == [] && s.pending == Answer(s.mode, ProbeBytes(p))
    ensures var (s', e) := Step(s, Read(1));
            forall w :: Shows([w, e, Step(s', Read(1)).1], Head(s.mode, p))
  {
    AnswerLongEnough(s.mode, p);
    if s.pending == [] {
      assert Left(s) == [];
      ReadOne(s);
    } else {
      TwoReads(s, s.pending);
    }
  }

  lemma AnswerLongEnough(m: Mode, p: Probe)
    ensures |Answer(m, ProbeBytes(p))| != 1
  {
  }

  lemma HeadsApart(x: seq<Event>, h: seq<byte>, y: seq<Event>, g: seq<byte>)
    requires Shows(x, h) && Shows(y, g) && h != g
    ensures !LookAlike(x, y)
  {
    if h != [] && g != [] {
      assert h[0] != g[0] || h[1] != g[1];
      assert [h[0]][0] == h[0] && [g[0]][0] == g[0] && [h[1]][0] == h[1] && [g[1]][0] == g[1];
    }
  }

  lemma ProbesDiffer(s: State, t: State, p: Probe)
    requires s.Valid() && s.connected && s.autopilot && Left(s) == []
    requires t.Valid() && t.connected && t.autopilot && Left(t) == []
    requires Head(s.mode, p) != Head(t.mode, p)
    ensures !LookAlike(Run(s, ProbeCalls(p)).trace, Run(t, ProbeCalls(p)).trace)
  {
    ProbeShows(s, p);
    ProbeShows(t, p);
    HeadsApart(Run(s, ProbeCalls(p)).trace, Head(s.mode, p), Run(t, ProbeCalls(p)).trace, Head(t.mode, p));
  }

  lemma LookAlikeTail(x: seq<Event>, y: seq<Event>, x': seq<Event>, y': seq<Event>)
    requires |x| == |y| && LookAlike(x + x', y + y')
    ensures LookAlike(x', y')
  {
    forall i | 0 <= i < |x'|
      ensures See(x'[i]) == See(y'[i])
    {
      assert (x + x')[|x| + i] == x'[i] && (y + y')[|x| + i] == y'[i];
    }
  }

  lemma NothingNeeded(s: State)
    requires s.Valid() && ReadsNeeded(s, 1) == 0
    ensures Left(s) == []
  {
    CeilStep(|s.pending|, 1);
    CeilStep(|s.Unread()|, 1);
  }

  /** Connect, then single-byte reads until the input is used up. */
  function Exhaust(k: nat): seq<Call> {
    [Connect] + Reads(1, k)
  }

  lemma Exhausted(s: State)
    requires s.Valid() && s.pending == []
    ensures var t := Run(s, Exhaust(|s.Unread()|)).state;
            t.connected && Left(t) == [] && t.autopilot == s.autopilot && t.mode == s.mode
  {
    var k := |s.Unread()|;
    RunKeepsSetup(s, Exhaust(k));
    ConnectFirst(s, Reads(1, k));
    ExhaustConnected(s.(connected := true), k);
  }

  lemma ConnectFirst(s: State, ops: seq<Call>)
    requires s.Valid()
    ensures Run(s, [Connect] + ops).state == Run(s.(connected := true), ops).state
  {
    RunSnoc(s, [], Connect);
    assert [] + [Connect] == [Connect];
    RunAppend(s, [Connect], ops);
  }

  lemma ExhaustConnected(s: State, k: nat)
    requires s.Valid() && s.connected && s.pending == [] && k == |s.Unread()|
    ensures var t := Run(s, Reads(1, k)).state; t.connected && Left(t) == []
  {
    assert Cap(s.frag, 1) == 1;
    CeilStep(0, 1);
    assert ReadsNeeded(s, 1) == k;
    DrainCount(s, 1, k);
    NothingNeeded(Run(s, Reads(1, k)).state);
  }

  lemma ModesApart(s: State, t: State) returns (ops: seq<Call>)
    requires s.Valid() && t.Valid() && s.pending == t.pending == [] && s.Unread() == t.Unread()
    requires s.autopilot && t.autopilot && !SameAnswers(true, s.mode, t.mode)
    ensures !LookAlike(Run(s, ops).trace, Run(t, ops).trace)
  {
    var p := ProbeApart(s.mode, t.mode);
    var prefix := Exhaust(|s.Unread()|);
    ops := prefix + ProbeCalls(p);
    Exhausted(s);
    Exhausted(t);
    RunAppend(s, prefix, ProbeCalls(p));
    RunAppend(t, prefix, ProbeCalls(p));
    var x, y := Run(s, prefix), Run(t, prefix);
    ProbesDiffer(x.state, y.state, p);
    if LookAlike(Run(s, ops).trace, Run(t, ops).trace) {
      LookAlikeTail(x.trace, y.trace, Run(x.state, ProbeCalls(p)).trace, Run(y.state, ProbeCalls(p)).trace);
      assert false;
    }
  }

  /**
   * Two seeds with the same payload are indistinguishable to every caller exactly when autopilot
   * is off or the low nibbles of their first bytes select the same mode.
   */
  lemma SelectorsDecide(a: byte, b: byte, data: seq<byte>, autopilot: bool, frag: int)
    ensures (forall ops :: LookAlike(Run(Open([a] + data, autopilot, 5, frag), ops).trace,
                                     Run(Open([b] + data, autopilot, 5, frag), ops).trace))
            <==> !autopilot || Selected(a % 16) == Selected(b % 16)
  {
    var s, t := Open([a] + data, autopilot, 5, frag), Open([b] + data, autopilot, 5, frag);
    assert ([a] + data)[1..] == data && ([b] + data)[1..] == data;
    if !autopilot || Selected(a % 16) == Selected(b % 16) {
      forall ops
        ensures LookAlike(Run(s, ops).trace, Run(t, ops).trace)
      {
        SimilarRuns(s, t, ops);
      }
    } else {
      var ops := ModesApart(s, t);
      assert !LookAlike(Run(s, ops).trace, Run(t, ops).trace);
    }
  }
}
