/**
 * What esp_transport_fuzz.c does, call by call, on values: the specification the class
 * FuzzTransport is proved against and about which the run properties are stated.
 */
module TransportSpec {
  import opened Bytes
  import RL = RemainingLength

  datatype Mode = Handshake | Connected | Subscribe | Qos | Mqtt5 | Dynamic

  /**
   * `pending` is rx[rx_off..rx_len], the replies queued and not yet read;
   * `input` and `inOff` are the caller's buffer and the read position in it.
   */
  datatype State = State(
    input: seq<byte>, inOff: nat, pending: seq<byte>, connected: bool,
    autopilot: bool, mode: Mode, frag: int, lastErrno: int)
  {
    ghost predicate Valid() {
      inOff <= |input|
    }

    function Unread(): seq<byte>
      requires inOff <= |input|
    {
      input[inOff..]
    }
  }

  const CONNECTION_TIMEOUT: int := 1

  /** `grown` says whether the realloc inside a Write that queues a reply succeeds. */
  datatype Op =
    | Connect
    | Read(max: nat)
    | Write(buf: seq<byte>, len: int, grown: bool)
    | PollRead
    | Close
  {
    predicate Ok() {
      Write? ==> len <= |buf|
    }
  }

  /** A call that respects the C contract: `buf` holds at least `len` bytes. */
  type Call = o: Op | o.Ok() witness Connect

  /** What the caller sees, plus where delivered bytes came from and what a write queued. */
  datatype Event =
    | Done(ret: int)
    | TimedOut
    | FromReplies(data: seq<byte>)
    | FromInput(data: seq<byte>)
    | Wrote(ret: int, queued: seq<byte>)

  /** Most bytes one read may return. */
  function Cap(frag: int, len: nat): nat {
    if 0 < frag < len then frag else len
  }

  /** Offset of the byte after the fixed header of a request. */
  function HeaderLength(req: seq<byte>): nat
    requires req != []
  {
    1 + RL.Parse(req[1..], RL.MAX_BYTES).used
  }

  /** The reply the autopilot forms to a request in a given mode; [] when it stays silent. */
  function Answer(mode: Mode, req: seq<byte>): seq<byte>
    requires req != []
  {
    var kind := req[0] / 16;
    var fh := HeaderLength(req);
    if kind == 0x1 && (mode.Connected? || mode.Mqtt5?) then
      if mode.Mqtt5? then [0x20, 0x03, 0x00, 0x00, 0x00] else [0x20, 0x02, 0x00, 0x00]
    else if kind == 0xC then [0xD0, 0x00]
    else if kind == 0x8 && (mode.Subscribe? || mode.Connected? || mode.Mqtt5?) then
      if |req| < fh + 2 then []
      else if mode.Mqtt5? then [0x90, 0x04, req[fh], req[fh + 1], 0x00, 0x00]
      else [0x90, 0x03, req[fh], req[fh + 1], 0x00]
    else if kind == 0x6 && (mode.Qos? || mode.Connected?) && |req| >= fh + 2 then
      [0x70, 0x02, req[fh], req[fh + 1]]
    else []
  }

  /** What a write queues: nothing without autopilot, without bytes, or when realloc fails. */
  function Queues(s: State, buf: seq<byte>, len: int, grown: bool): seq<byte>
    requires len <= |buf|
  {
    if !s.autopilot || len <= 0 || !grown then [] else Answer(s.mode, buf[..len])
  }

  function Step(s: State, op: Call): (r: (State, Event))
    requires s.Valid()
    ensures r.0.Valid()
  {
    match op
    case Connect => (s.(connected := true), Done(0))
    case Close => (s.(connected := false), Done(0))
    case PollRead => (s, Done(if s.inOff < |s.input| then 1 else -1))
    case Write(buf, len, grown) =>
      var q := Queues(s, buf, len, grown);
      (s.(pending := s.pending + q), Wrote(len, q))
    case Read(max) =>
      if !s.connected then (s.(lastErrno := CONNECTION_TIMEOUT), TimedOut)
      else if s.pending != [] then
        var n := Min(Cap(s.frag, max), |s.pending|);
        (s.(pending := s.pending[n..]), FromReplies(s.pending[..n]))
      else if s.inOff >= |s.input| then (s.(lastErrno := CONNECTION_TIMEOUT), TimedOut)
      else
        var n := Min(Cap(s.frag, max), |s.input| - s.inOff);
        (s.(inOff := s.inOff + n), FromInput(s.input[s.inOff..s.inOff + n]))
  }

  /** The state after a sequence of calls, and one event per call. */
  datatype Outcome = Outcome(state: State, trace: seq<Event>)

  function Run(s: State, ops: seq<Call>): (r: Outcome)
    requires s.Valid()
    ensures r.state.Valid() && |r.trace| == |ops|
  {
    if ops == [] then Outcome(s, [])
    else
      var before := Run(s, ops[..|ops| - 1]);
      var (after, event) := Step(before.state, ops[|ops| - 1]);
      Outcome(after, before.trace + [event])
  }

  lemma RunSnoc(s: State, ops: seq<Call>, op: Call)
    requires s.Valid()
    ensures var before := Run(s, ops);
            var (after, event) := Step(before.state, op);
            Run(s, ops + [op]) == Outcome(after, before.trace + [event])
  {
    assert (ops + [op])[..|ops|] == ops;
  }

  // ---------------------------------------------------------------- opening a transport

  function ModeOf(mode: int): Mode {
    if mode == 1 then Connected
    else if mode == 2 then Subscribe
    else if mode == 3 then Qos
    else if mode == 4 then Mqtt5
    else if mode == 5 then Dynamic
    else Handshake
  }

  /** The mode a dynamic transport takes from the low nibble of its first byte. */
  function Selected(sel: byte): Mode {
    if sel == 1 then Connected
    else if sel == 2 then Subscribe
    else if sel == 3 then Qos
    else if sel == 4 then Mqtt5
    else Handshake
  }

  function Open(data: seq<byte>, autopilot: bool, mode: int, frag: int): (s: State)
    ensures s.Valid()
  {
    var m := ModeOf(mode);
    if m.Dynamic? && data != [] then
      State(data, 1, [], false, autopilot, Selected(data[0] % 16), frag, 0)
    else
      State(data, 0, [], false, autopilot, m, frag, 0)
  }
}
