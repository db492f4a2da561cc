/** The in-memory transport of esp_transport_fuzz.c, fields and array buffer included. */
module Transport {
  import opened Bits
  import opened Bytes
  import opened TransportSpec
  import opened TransportRuns
  import RL = RemainingLength

  class FuzzTransport {
    const input: seq<byte>
    const autopilot: bool
    const frag: int
    var mode: Mode
    var inOff: nat
    var rx: array<byte>
    var rxLen: nat
    var rxOff: nat
    var connected: bool
    var lastErrno: int

    /** The state the transport was opened in, and every call made since with what it returned. */
    ghost const origin: State
    ghost var calls: seq<Call>
    ghost var trace: seq<Event>

    /** Offsets within bounds; this much holds even in the middle of a write. */
    ghost predicate Layout()
      reads this
    {
      rxOff <= rxLen <= rx.Length && inOff <= |input|
    }

    /** Between calls the reply buffer is either non-empty or reset. */
    ghost predicate Shape()
      reads this
    {
      Layout() && (rxOff < rxLen || (rxOff == 0 && rxLen == 0))
    }

    /** The object is where its calls led it. */
    ghost predicate Valid()
      reads this, rx
    {
      && Shape()
      && origin.Valid() && origin.pending == []
      && Run(origin, calls) == Outcome(View(), trace)
    }

    ghost function View(): State
      requires Layout()
      reads this, rx
    {
      State(input, inOff, rx[rxOff..rxLen], connected, autopilot, mode, frag, lastErrno)
    }

    /** esp_transport_fuzz_init. */
    constructor (data: seq<byte>, autopilot: bool, mode: int, frag: int)
      ensures Valid() && fresh(rx)
      ensures origin == View() == Open(data, autopilot, mode, frag)
      ensures calls == [] && trace == [] && !connected && lastErrno == 0
      ensures input == data && inOff == if mode == 5 && data != [] then 1 else 0
    {
      input, inOff, connected, lastErrno := data, 0, false, 0;
      this.autopilot, this.frag := autopilot, frag;
      this.mode := ModeOf(mode);
      rx := new byte[0];
      rxLen, rxOff := 0, 0;
      origin := Open(data, autopilot, mode, frag);
      calls, trace := [], [];
      new;
      if this.mode.Dynamic? && |input| > 0 {
        LowMasks(input[0]);
        var sel := And(input[0], 0x0F);
        match sel {
          case 0 => this.mode := Handshake;
          case 1 => this.mode := Connected;
          case 2 => this.mode := Subscribe;
          case 3 => this.mode := Qos;
          case 4 => this.mode := Mqtt5;
          case _ => this.mode := Handshake;
        }
        inOff := 1;
      }
    }

    /**
     * push_rx. From a Valid object its reset branch is dead: Valid excludes
     * rxOff > 0 with nothing available.
     */
    method PushRx(data: seq<byte>, grown: bool)
      requires Layout()
      modifies this`rx, this`rxLen, this`rxOff
      ensures Layout() && (rx == old(rx) || fresh(rx))
      ensures rx[rxOff..rxLen] == old(rx[rxOff..rxLen]) + if grown then data else []
      ensures old(Shape()) ==> Shape() && rxOff == old(rxOff)
    {
      if |data| == 0 {
        return;
      }
      var avail := rxLen - rxOff;
      if rxOff > 0 && avail == 0 {
        rxLen, rxOff := 0, 0;
      }
      if !grown {
        return;
      }
      ghost var kept := rx[..rxLen];
      rx := Reallocated(data);
      rxLen := rxLen + |data|;
      assert rx[rxOff..rxLen] == rx[..][rxOff..] == kept[rxOff..] + data;
    }

    /** realloc to the new size, then memcpy of the data behind what is kept. */
    method Reallocated(data: seq<byte>) returns (nrx: array<byte>)
      requires Layout()
      ensures fresh(nrx) && nrx[..] == rx[..rxLen] + data
    {
      nrx := new byte[rxLen + |data|];
      forall i | 0 <= i < rxLen {
        nrx[i] := rx[i];
      }
      forall i | 0 <= i < |data| {
        nrx[rxLen + i] := data[i];
      }
      SameBySplit(nrx[..], rx[..rxLen], data);
    }

    static lemma SameBySplit(s: seq<byte>, x: seq<byte>, y: seq<byte>)
      requires |s| == |x| + |y|
      requires forall i :: 0 <= i < |x| ==> s[i] == x[i]
      requires forall i :: 0 <= i < |y| ==> s[|x| + i] == y[i]
      ensures s == x + y
    {
      forall i | 0 <= i < |s|
        ensures s[i] == (x + y)[i]
      {
        assert i >= |x| ==> s[|x| + (i - |x|)] == y[i - |x|];
      }
    }

    /** Appends one call to the history. */
    ghost method Record(op: Call)
      requires Shape() && origin.Valid() && origin.pending == []
      requires View() == Step(Run(origin, calls).state, op).0
      requires trace == Run(origin, calls).trace
      modifies this`calls, this`trace
      ensures Valid() && View() == old(View())
      ensures calls == old(calls) + [op]
      ensures trace == old(trace) + [Step(Run(origin, old(calls)).state, op).1]
    {
      RunSnoc(origin, calls, op);
      trace := trace + [Step(Run(origin, calls).state, op).1];
      calls := calls + [op];
    }

    method ConnectCall() returns (r: int)
      requires Valid()
      modifies this`connected, this`calls, this`trace
      ensures Valid() && calls == old(calls) + [Connect]
      ensures View() == Step(old(View()), Connect).0 && Done(r) == Step(old(View()), Connect).1
      ensures trace == old(trace) + [Done(r)] && connected && r == 0
    {
      connected := true;
      Record(Connect);
      return 0;
    }

    method CloseCall() returns (r: int)
      requires Valid()
      modifies this`connected, this`calls, this`trace
      ensures Valid() && calls == old(calls) + [Close]
      ensures View() == Step(old(View()), Close).0 && Done(r) == Step(old(View()), Close).1
      ensures trace == old(trace) + [Done(r)] && !connected && r == 0
    {
      connected := false;
      Record(Close);
      return 0;
    }

    method PollReadCall() returns (r: int)
      requires Valid()
      modifies this`calls, this`trace
      ensures Valid() && calls == old(calls) + [PollRead]
      ensures View() == old(View()) && Done(r) == Step(old(View()), PollRead).1
      ensures trace == old(trace) + [Done(r)] && r == if inOff < |input| then 1 else -1
    {
      Record(PollRead);
      return if inOff < |input| then 1 else -1;
    }

    /** What a read that ended in `e` returns and leaves in the caller's buffer. */
    static ghost predicate Filled(n: int, after: seq<byte>, before: seq<byte>, e: Event) {
      match e
      case TimedOut => n == -1 && after == before
      case FromReplies(data) => n == |data| <= |before| && after == data + before[n..]
      case FromInput(data) => n == |data| <= |before| && after == data + before[n..]
      case _ => false
    }

    /** memcpy into the caller's buffer. */
    static method Copy(buf: array<byte>, data: seq<byte>)
      requires |data| <= buf.Length
      modifies buf
      ensures buf[..] == data + old(buf[|data|..])
    {
      forall i | 0 <= i < |data| {
        buf[i] := data[i];
      }
    }

    /** fuzz_read. */
    method ReadCall(buf: array<byte>, len: nat) returns (n: int)
      requires Valid() && len <= buf.Length && buf != rx
      modifies this`rxOff, this`rxLen, this`inOff, this`lastErrno, this`calls, this`trace, buf
      ensures Valid() && calls == old(calls) + [Read(len)]
      ensures View() == Step(old(View()), Read(len)).0
      ensures Filled(n, buf[..], old(buf[..]), Step(old(View()), Read(len)).1)
      ensures trace == old(trace) + [Step(old(View()), Read(len)).1]
    {
      n := Serve(buf, len);
      Record(Read(len));
    }

    /** A read of `len` from s leads to v, returns n and turns the buffer `before` into `after`. */
    static ghost predicate Serves(s: State, len: nat, v: State, n: int, after: seq<byte>, before: seq<byte>)
      requires s.Valid()
    {
      v == Step(s, Read(len)).0 && Filled(n, after, before, Step(s, Read(len)).1)
    }

    /** The body of fuzz_read, before the call is recorded. */
    method Serve(buf: array<byte>, len: nat) returns (n: int)
      requires Shape() && len <= buf.Length && buf != rx
      modifies this`rxOff, this`rxLen, this`inOff, this`lastErrno, buf
      ensures Shape() && Serves(old(View()), len, View(), n, buf[..], old(buf[..]))
    {
      if !connected {
        lastErrno := CONNECTION_TIMEOUT;
        return -1;
      }
      var rxAvail := if rxLen > rxOff then rxLen - rxOff else 0;
      if rxAvail > 0 {
        n := ReadReplies(buf, len);
        return;
      }
      if inOff >= |input| {
        lastErrno := CONNECTION_TIMEOUT;
        return -1;
      }
      n := ReadInput(buf, len);
    }

    /** The branch of fuzz_read that serves the input. */
    method ReadInput(buf: array<byte>, len: nat) returns (n: nat)
      requires Shape() && connected && rxOff == rxLen && inOff < |input| && len <= buf.Length && buf != rx
      modifies this`inOff, buf
      ensures Shape() && Serves(old(View()), len, View(), n, buf[..], old(buf[..]))
    {
      ghost var s, before := View(), buf[..];
      var rem := |input| - inOff;
      var cap := if frag > 0 && frag < len then frag else len;
      n := if cap < rem then cap else rem;
      Copy(buf, input[inOff..inOff + n]);
      assert buf[..] == input[inOff..inOff + n] + before[n..];
      inOff := inOff + n;
      assert View() == s.(inOff := s.inOff + n);
    }

    /** The branch of fuzz_read that serves queued replies. */
    method ReadReplies(buf: array<byte>, len: nat) returns (n: nat)
      requires Shape() && connected && rxOff < rxLen && len <= buf.Length && buf != rx
      modifies this`rxOff, this`rxLen, buf
      ensures Shape() && Serves(old(View()), len, View(), n, buf[..], old(buf[..]))
    {
      ghost var s, before := View(), buf[..];
      var cap := if frag > 0 && frag < len then frag else len;
      n := if cap < rxLen - rxOff then cap else rxLen - rxOff;
      assert rx[rxOff..rxOff + n] == s.pending[..n];
      Copy(buf, rx[rxOff..rxOff + n]);
      assert buf[..] == s.pending[..n] + before[n..];
      rxOff := rxOff + n;
      assert rx[rxOff..rxLen] == s.pending[n..];
      if rxOff == rxLen {
        rxOff, rxLen := 0, 0;
      }
      assert View() == s.(pending := s.pending[n..]);
    }

    /** fuzz_write; `grown` is the outcome of the realloc in push_rx, should it be reached. */
    method WriteCall(buf: seq<byte>, len: int, grown: bool) returns (r: int)
      requires Valid() && len <= |buf|
      modifies this`rx, this`rxLen, this`rxOff, this`calls, this`trace
      ensures Valid() && (rx == old(rx) || fresh(rx))
      ensures calls == old(calls) + [Write(buf, len, grown)]
      ensures View() == Step(old(View()), Write(buf, len, grown)).0
      ensures Step(old(View()), Write(buf, len, grown)).1 == Wrote(r, Queues(old(View()), buf, len, grown))
      ensures trace == old(trace) + [Wrote(r, Queues(old(View()), buf, len, grown))]
      ensures r == len
    {
      ghost var s, op: Call := View(), Write(buf, len, grown);
      if !autopilot || len <= 0 {
        assert s.pending + [] == s.pending;
        Record(op);
        return len;
      }
      var reply := FormReply(buf, len);
      PushRx(reply, grown);
      assert s.pending + [] == s.pending;
      Record(op);
      return len;
    }

    /** The if-chain of fuzz_write, which hands what it returns here to push_rx. */
    method FormReply(buf: seq<byte>, len: int) returns (reply: seq<byte>)
      requires 0 < len <= |buf|
      ensures reply == Answer(mode, buf[..len])
    {
      HighNibble(buf[0]);
      var kind := And(buf[0], 0xF0);
      reply := [];
      ghost var req := buf[..len];
      assert buf[1..][..len - 1] == req[1..];
      if kind == 0x10 && (mode == Connected || mode == Mqtt5) {
        if mode == Mqtt5 {
          reply := [0x20, 0x03, 0x00, 0x00, 0x00];
        } else {
          reply := [0x20, 0x02, 0x00, 0x00];
        }
      } else if kind == 0xC0 {
        reply := [0xD0, 0x00];
      } else if kind == 0x80 && (mode == Subscribe || mode == Connected || mode == Mqtt5) {
        var _, remLenBytes := RL.ParseVarintRemaining(buf[1..], len - 1);
        var fhLen := 1 + remLenBytes;
        if len >= fhLen + 2 {
          var idHi, idLo := buf[fhLen], buf[fhLen + 1];
          if mode == Mqtt5 {
            reply := [0x90, 0x04, idHi, idLo, 0x00, 0x00];
          } else {
            reply := [0x90, 0x03, idHi, idLo, 0x00];
          }
        }
      } else if kind == 0x60 && (mode == Qos || mode == Connected) {
        var _, remLenBytes := RL.ParseVarintRemaining(buf[1..], len - 1);
        var fhLen := 1 + remLenBytes;
        if len >= fhLen + 2 {
          var idHi, idLo := buf[fhLen], buf[fhLen + 1];
          reply := [0x70, 0x02, idHi, idLo];
        }
      }
    }

    /**
     * In every reachable state the array buffer holds exactly the replies queued and not yet
     * delivered, the position in the input accounts for the input delivered, and what the callers
     * have received merges the two.
     */
    lemma BytesAccountedFor()
      requires Valid()
      ensures Collect(trace, QueuedBy) == Collect(trace, RepliesBy) + rx[rxOff..rxLen]
      ensures origin.inOff <= inOff && Collect(trace, InputBy) == input[origin.inOff..inOff]
      ensures Merge(Collect(trace, StreamBy), Collect(trace, RepliesBy), Collect(trace, InputBy))
      ensures rxLen <= rx.Length && (rxOff < rxLen || (rxOff == 0 && rxLen == 0))
    {
      Conservation(origin, calls);
      assert [] + Collect(trace, QueuedBy) == Collect(trace, QueuedBy);
    }
  }
}
