/**
 * Runs of the fuzz pool: the log partitions the input whatever the callbacks do, and without
 * callbacks the framing is prefix-stable and undoes the obvious encoding.
 */
module PoolRuns {
  import opened Bytes
  import opened PoolSpec

  // ---------------------------------------------------------------- conservation

  function LogBytes(log: seq<Chunk>): seq<byte> {
    if log == [] then [] else LogBytes(log[..|log| - 1]) + log[|log| - 1].bytes
  }

  /** The whole input, as the used part followed by the rest. */
  function Whole(p: Pool): seq<byte> {
    LogBytes(p.log) + p.rest
  }

  /** Chunk sizes the code allows: frames of 1..1514 bytes, callback data within one IP packet. */
  predicate Sized(kind: Kind, c: Chunk) {
    match c
    case Header(b) => |b| == HeaderSize(kind)
    case Frame(b) => kind.Single? || 1 <= |b| <= MAX_FRAME
    case LengthWord(b) => |b| == 2
    case Sent(b, via) => |b| <= MaxData(via)
  }

  ghost predicate AllSized(kind: Kind, log: seq<Chunk>) {
    forall i :: 0 <= i < |log| ==> Sized(kind, log[i])
  }

  lemma UseConserves(kind: Kind, p: Pool, c: Chunk)
    requires c.bytes <= p.rest && Sized(kind, c) && AllSized(kind, p.log)
    ensures Whole(p.Use(c)) == Whole(p) && AllSized(kind, p.Use(c).log)
  {
    assert (p.log + [c])[..|p.log|] == p.log;
    assert c.bytes + p.rest[|c.bytes|..] == p.rest;
    assert (LogBytes(p.log) + c.bytes) + p.rest[|c.bytes|..] == LogBytes(p.log) + (c.bytes + p.rest[|c.bytes|..]);
  }

  lemma ConsumeConserves(kind: Kind, p: Pool, cb: Callback)
    requires AllSized(kind, p.log)
    ensures Whole(Consume(p, cb)) == Whole(p) && AllSized(kind, Consume(p, cb).log)
  {
    if |p.rest| > 2 {
      var q := p.Use(LengthWord(p.rest[..2]));
      var n := Min(Min(U16At(p.rest), MaxData(cb)), |p.rest| - 2);
      UseConserves(kind, p, LengthWord(p.rest[..2]));
      UseConserves(kind, q, Sent(q.rest[..n], cb));
    }
  }

  lemma {:induction false} ConsumeAllConserves(kind: Kind, p: Pool, cbs: seq<Callback>)
    requires AllSized(kind, p.log)
    ensures Whole(ConsumeAll(p, cbs)) == Whole(p) && AllSized(kind, ConsumeAll(p, cbs).log)
  {
    if cbs != [] {
      ConsumeAllConserves(kind, p, cbs[..|cbs| - 1]);
      ConsumeConserves(kind, ConsumeAll(p, cbs[..|cbs| - 1]), cbs[|cbs| - 1]);
    }
  }

  lemma InputConserves(kind: Kind, p: Pool, n: nat, cbs: seq<Callback>)
    requires n <= |p.rest| && (kind.Single? || 1 <= n <= MAX_FRAME) && AllSized(kind, p.log)
    ensures Whole(InputFrame(p, n, cbs)) == Whole(p) && AllSized(kind, InputFrame(p, n, cbs).log)
  {
    UseConserves(kind, p, Frame(p.rest[..n]));
    ConsumeAllConserves(kind, p.Use(Frame(p.rest[..n])), cbs);
  }

  lemma TurnConserves(kind: Kind, p: Pool, cbs: seq<Callback>)
    requires |p.rest| > HeaderSize(kind) && AllSized(kind, p.log)
    ensures Whole(Turn(kind, p, cbs)) == Whole(p) && AllSized(kind, Turn(kind, p, cbs).log)
  {
    var n := FrameLength(kind, p.rest);
    var header := Header(p.rest[..HeaderSize(kind)]);
    UseConserves(kind, p, header);
    if n > 0 {
      var q := p.Use(header).(now := Add32(p.now, Delay(kind, p.rest)));
      InputConserves(kind, q, n, cbs);
    }
  }

  lemma {:induction false} LoopConserves(kind: Kind, p: Pool, env: nat -> seq<Callback>, i: nat)
    requires AllSized(kind, p.log)
    ensures var r := Loop(kind, p, env, i);
            Whole(r) == Whole(p) && AllSized(kind, r.log) && |r.rest| <= HeaderSize(kind)
    decreases |p.rest|
  {
    if |p.rest| > HeaderSize(kind) {
      TurnConserves(kind, p, env(i));
      LoopConserves(kind, Turn(kind, p, env(i)), env, i + 1);
    }
  }

  /**
   * Whatever the callbacks consume inside netif->input: headers, frames, callback words, sent data
   * and the unread tail, in order, are exactly the input, every chunk keeps its size limit, and
   * what a multi-packet run leaves unread is no longer than a header.
   */
  lemma PoolPartition(kind: Kind, data: seq<byte>, now: nat, env: nat -> seq<Callback>)
    ensures var r := InputPkts(kind, data, now, env);
            && LogBytes(r.log) + r.rest == data
            && AllSized(kind, r.log)
            && (!kind.Single? ==> |r.rest| <= HeaderSize(kind))
            && (kind.Single? ==> (r.log == [] <==> |data| > 0xFFFF))
  {
    var p := Pool(data, [], now);
    assert Whole(p) == data;
    if kind.Single? {
      if |data| <= 0xFFFF {
        InputConserves(kind, p, |data|, env(0));
        LogGrows(p.Use(Frame(p.rest[..|data|])), env(0));
      }
    } else {
      LoopConserves(kind, p, env, 0);
    }
  }

  lemma {:induction false} LogGrows(p: Pool, cbs: seq<Callback>)
    ensures |p.log| <= |ConsumeAll(p, cbs).log|
  {
    if cbs != [] {
      LogGrows(p, cbs[..|cbs| - 1]);
    }
  }

  /** Bytes a callback is to send. */
  datatype Message = Message(via: Callback, data: seq<byte>)

  predicate Writable(m: Message) {
    |m.data| < 0x1_0000
  }

  /** Messages in the form the callbacks read them: a length word in front of each. */
  function Messages(ms: seq<Message>): seq<byte>
    requires forall i :: 0 <= i < |ms| ==> Writable(ms[i])
  {
    if ms == [] then []
    else
      var m := ms[|ms| - 1];
      assert Writable(m);
      Messages(ms[..|ms| - 1]) + (U16Bytes(|m.data|) + m.data)
  }

  function Vias(ms: seq<Message>): (cbs: seq<Callback>)
    ensures |cbs| == |ms|
  {
    if ms == [] then [] else Vias(ms[..|ms| - 1]) + [ms[|ms| - 1].via]
  }

  /** The log of callbacks that send the messages one after the other. */
  function SentLog(ms: seq<Message>): seq<Chunk>
    requires forall i :: 0 <= i < |ms| ==> Writable(ms[i])
  {
    if ms == [] then []
    else
      var m := ms[|ms| - 1];
      assert Writable(m);
      SentLog(ms[..|ms| - 1]) + [LengthWord(U16Bytes(|m.data|))] + [Sent(m.data, m.via)]
  }

  /** Every message fits a packet, and something follows the last length word. */
  ghost predicate Sendable(ms: seq<Message>, tail: seq<byte>) {
    && (forall i :: 0 <= i < |ms| ==> |ms[i].data| <= MaxData(ms[i].via))
    && (ms != [] ==> |ms[|ms| - 1].data| + |tail| > 0)
  }

  lemma OneSent(m: Message, tail: seq<byte>, log: seq<Chunk>, now: nat)
    requires Writable(m)
    ensures var word := U16Bytes(|m.data|);
            Consume(Pool(word + m.data + tail, log, now), m.via)
              == Pool(tail, log + [LengthWord(word)] + [Sent(m.data, m.via)], now)
            <==> |m.data| <= MaxData(m.via) && |m.data| + |tail| > 0
  {
    var word, b := U16Bytes(|m.data|), m.data;
    var x := word + b + tail;
    assert U16At(x) == |b| && x[..2] == word && x[2..] == b + tail;
    if |b| + |tail| == 0 {
      assert |log + [LengthWord(word)] + [Sent(b, m.via)]| == |log| + 2;
    } else if |b| > MaxData(m.via) {
      assert |Consume(Pool(x, log, now), m.via).rest| == |b| + |tail| - MaxData(m.via);
    } else {
      assert (b + tail)[..|b|] == b && (b + tail)[|b|..] == tail;
    }
  }

  lemma {:induction false} SentSized(kind: Kind, ms: seq<Message>)
    requires forall i :: 0 <= i < |ms| ==> Writable(ms[i])
    requires AllSized(kind, SentLog(ms))
    ensures forall i :: 0 <= i < |ms| ==> |ms[i].data| <= MaxData(ms[i].via)
  {
    if ms != [] {
      var front, log := ms[..|ms| - 1], SentLog(ms);
      assert SentLog(front) == log[..|log| - 2];
      assert AllSized(kind, SentLog(front));
      SentSized(kind, front);
      assert Sized(kind, log[|log| - 1]);
    }
  }

  /**
   * A sequence of callbacks sends exactly the messages written behind length words, each by its own
   * callback, and leaves what follows them, if and only if every message fits one packet and the
   * last length word is not the end of the pool.
   */
  lemma {:induction false} CallbacksSend(ms: seq<Message>, tail: seq<byte>, now: nat)
    requires forall i :: 0 <= i < |ms| ==> Writable(ms[i])
    ensures ConsumeAll(Pool(Messages(ms) + tail, [], now), Vias(ms)) == Pool(tail, SentLog(ms), now)
            <==> Sendable(ms, tail)
  {
    var p := Pool(Messages(ms) + tail, [], now);
    if ms == [] {
      assert p.rest == tail;
    } else {
      var front, m := ms[..|ms| - 1], ms[|ms| - 1];
      var next := U16Bytes(|m.data|) + m.data + tail;
      assert p.rest == Messages(front) + next;
      CallbacksSend(front, next, now);
      OneSent(m, tail, SentLog(front), now);
      assert Vias(ms)[..|front|] == Vias(front);
      if ConsumeAll(p, Vias(ms)) == Pool(tail, SentLog(ms), now) {
        ConsumeAllConserves(Multi, p, Vias(ms));
        SentSized(Multi, ms);
        FrontSendable(ms, tail, next);
      } else if Sendable(ms, tail) {
        FrontSendable(ms, tail, next);
      }
    }
  }

  lemma FrontSendable(ms: seq<Message>, tail: seq<byte>, next: seq<byte>)
    requires ms != [] && next != []
    requires forall i :: 0 <= i < |ms| ==> |ms[i].data| <= MaxData(ms[i].via)
    ensures Sendable(ms[..|ms| - 1], next)
  {
  }

  // ---------------------------------------------------------------- framing without callbacks

  const QUIET: nat -> seq<Callback> := i => []

  /** The frames in a byte string and the delays in front of them. */
  datatype Timed = Timed(delay: nat, frame: seq<byte>)

  /** The bytes of the first header of x and its frame. */
  function Used(kind: Kind, x: seq<byte>): (n: nat)
    requires |x| > HeaderSize(kind)
    ensures HeaderSize(kind) <= n <= |x|
  {
    HeaderSize(kind) + FrameLength(kind, x)
  }

  /** The frame the first header of x announces, unless it announces none. */
  function First(kind: Kind, x: seq<byte>): (ts: seq<Timed>)
    requires |x| > HeaderSize(kind)
    ensures |ts| <= 1
  {
    var h, n := HeaderSize(kind), FrameLength(kind, x);
    if n == 0 then [] else [Timed(Delay(kind, x), x[h..h + n])]
  }

  function Decode(kind: Kind, x: seq<byte>): seq<Timed>
    decreases |x|
  {
    if |x| <= HeaderSize(kind) then []
    else First(kind, x) + Decode(kind, x[Used(kind, x)..])
  }

  lemma DecodeUnfold(kind: Kind, x: seq<byte>, first: seq<Timed>, later: seq<byte>)
    requires |x| > HeaderSize(kind) && first == First(kind, x) && later == x[Used(kind, x)..]
    ensures Decode(kind, x) == first + Decode(kind, later)
  {
  }

  function FramesOf(log: seq<Chunk>): seq<seq<byte>> {
    if log == [] then []
    else
      var c := log[|log| - 1];
      FramesOf(log[..|log| - 1]) + if c.Frame? then [c.bytes] else []
  }

  function Frames(ts: seq<Timed>): seq<seq<byte>> {
    if ts == [] then [] else [ts[0].frame] + Frames(ts[1..])
  }

  function TotalDelay(ts: seq<Timed>): nat {
    if ts == [] then 0 else ts[0].delay + TotalDelay(ts[1..])
  }

  lemma FramesSnoc(log: seq<Chunk>, c: Chunk)
    ensures FramesOf(log + [c]) == FramesOf(log) + if c.Frame? then [c.bytes] else []
  {
    assert (log + [c])[..|log|] == log;
  }

  /** sys_now_offset counts modulo 2^32. */
  lemma ClockWraps(a: nat, b: nat)
    ensures Add32(a, b) == (a + b) % 0x1_0000_0000
  {
  }

  lemma AddTwice(a: nat, b: nat, c: nat)
    ensures Add32(Add32(a, b), c) == Add32(a, b + c)
  {
    var q := (a + b) / U32;
    assert a + b == q * U32 + (a + b) % U32;
    assert a + (b + c) == q * U32 + ((a + b) % U32 + c);
    ModShift((a + b) % U32 + c, q);
  }

  lemma ModShift(x: nat, q: nat)
    ensures (q * U32 + x) % U32 == x % U32
  {
  }

  lemma QuietTurn(kind: Kind, p: Pool)
    requires |p.rest| > HeaderSize(kind)
    ensures var h, n, t := HeaderSize(kind), FrameLength(kind, p.rest), Turn(kind, p, []);
            && t.rest == p.rest[h + n..]
            && (n == 0 ==> FramesOf(t.log) == FramesOf(p.log) && t.now == p.now)
            && (n > 0 ==> FramesOf(t.log) == FramesOf(p.log) + [p.rest[h..h + n]]
                          && t.now == Add32(p.now, Delay(kind, p.rest)))
  {
    var h, n := HeaderSize(kind), FrameLength(kind, p.rest);
    var q := p.Use(Header(p.rest[..h]));
    FramesSnoc(p.log, Header(p.rest[..h]));
    if n > 0 {
      var q' := q.(now := Add32(p.now, Delay(kind, p.rest)));
      QuietInput(q', n);
      assert q'.rest == p.rest[h..];
      SliceTwice(p.rest, h, n);
    }
  }

  lemma QuietInput(q: Pool, n: nat)
    requires n <= |q.rest|
    ensures var t := InputFrame(q, n, []);
            t.rest == q.rest[n..] && t.now == q.now && FramesOf(t.log) == FramesOf(q.log) + [q.rest[..n]]
  {
    FramesSnoc(q.log, Frame(q.rest[..n]));
  }

  /** Between p and r the timed frames ts were handed over. */
  ghost predicate Delivers(p: Pool, r: Pool, ts: seq<Timed>) {
    FramesOf(r.log) == FramesOf(p.log) + Frames(ts) && r.now == Add32(p.now, TotalDelay(ts))
  }

  lemma DeliversCons(p: Pool, t: Pool, r: Pool, first: Timed, later: seq<Timed>)
    requires FramesOf(t.log) == FramesOf(p.log) + [first.frame] && t.now == Add32(p.now, first.delay)
    requires Delivers(t, r, later)
    ensures Delivers(p, r, [first] + later)
  {
    assert ([first] + later)[1..] == later;
    AddTwice(p.now, first.delay, TotalDelay(later));
  }

  lemma OneFrame(t: Timed)
    ensures Frames([t]) == [t.frame] && TotalDelay([t]) == t.delay
  {
    assert [t][1..] == [];
    assert Frames([t]) == [t.frame] + [];
  }

  lemma DeliversFirst(p: Pool, t: Pool, r: Pool, first: seq<Timed>, later: seq<Timed>)
    requires |first| <= 1 && Delivers(p, t, first) && Delivers(t, r, later)
    ensures Delivers(p, r, first + later)
  {
    if first == [] {
      assert FramesOf(p.log) + [] == FramesOf(p.log) && first + later == later;
      AddTwice(p.now, 0, TotalDelay(later));
    } else {
      OneFrame(first[0]);
      assert first == [first[0]];
      DeliversCons(p, t, r, first[0], later);
    }
  }

  /** A quiet turn hands over the first frame and leaves what comes after it. */
  lemma QuietTurnDecodes(kind: Kind, p: Pool)
    requires |p.rest| > HeaderSize(kind) && p.now < U32
    ensures var t := Turn(kind, p, []);
            t.rest == p.rest[Used(kind, p.rest)..] && t.now < U32 && Delivers(p, t, First(kind, p.rest))
  {
    var t, first := Turn(kind, p, []), First(kind, p.rest);
    QuietTurn(kind, p);
    assert t.rest == p.rest[Used(kind, p.rest)..];
    if first == [] {
      DeliversNothing(p, t);
    } else {
      assert first == [first[0]];
      DeliversOne(p, t, first[0]);
    }
  }

  lemma DeliversNothing(p: Pool, t: Pool)
    requires FramesOf(t.log) == FramesOf(p.log) && t.now == p.now < U32
    ensures Delivers(p, t, [])
  {
    assert FramesOf(p.log) + [] == FramesOf(p.log);
  }

  lemma DeliversOne(p: Pool, t: Pool, first: Timed)
    requires FramesOf(t.log) == FramesOf(p.log) + [first.frame] && t.now == Add32(p.now, first.delay)
    ensures Delivers(p, t, [first])
  {
    OneFrame(first);
  }

  /** The loop hands over what Decode finds, and sys_now_offset grows by the delays modulo 2^32. */
  lemma {:induction false} QuietLoopDecodes(kind: Kind, p: Pool, i: nat)
    requires p.now < U32
    ensures Delivers(p, Loop(kind, p, QUIET, i), Decode(kind, p.rest))
    decreases |p.rest|
  {
    if |p.rest| > HeaderSize(kind) {
      var t := Turn(kind, p, []);
      QuietTurnDecodes(kind, p);
      QuietLoopDecodes(kind, t, i + 1);
      QuietUnfold(kind, p, i);
      DeliversFirst(p, t, Loop(kind, t, QUIET, i + 1), First(kind, p.rest), Decode(kind, t.rest));
    } else {
      assert FramesOf(p.log) + [] == FramesOf(p.log);
    }
  }

  lemma QuietUnfold(kind: Kind, p: Pool, i: nat)
    requires |p.rest| > HeaderSize(kind)
    ensures Loop(kind, p, QUIET, i) == Loop(kind, Turn(kind, p, []), QUIET, i + 1)
  {
    assert QUIET(i) == [];
  }

  /** a is the beginning of b, its last frame possibly cut short. */
  ghost predicate Begins(a: seq<Timed>, b: seq<Timed>) {
    && |a| <= |b|
    && (forall i :: 0 <= i < |a| - 1 ==> a[i] == b[i])
    && (a != [] ==> a[|a| - 1].delay == b[|a| - 1].delay && a[|a| - 1].frame <= b[|a| - 1].frame)
  }

  lemma BeginsAfter(ts: seq<Timed>, a: seq<Timed>, b: seq<Timed>)
    requires Begins(a, b) && |ts| <= 1
    ensures Begins(ts + a, ts + b)
  {
    var x, y, k := ts + a, ts + b, |ts|;
    forall i | 0 <= i < |x| - 1
      ensures x[i] == y[i]
    {
      if i >= k {
        assert x[i] == a[i - k] && y[i] == b[i - k];
      }
    }
  }

  /**
   * The frames decoded from x are the first frames decoded from x + y, except that the last one
   * may be a proper prefix of its counterpart.
   */
  lemma {:induction false} DecodeExtends(kind: Kind, x: seq<byte>, y: seq<byte>)
    ensures Begins(Decode(kind, x), Decode(kind, x + y))
    decreases |x|
  {
    if |x| > HeaderSize(kind) {
      HeaderExtends(kind, x, y);
      if FrameLength(kind, x) == FrameLength(kind, x + y) {
        var later := x[Used(kind, x)..];
        DecodeExtends(kind, later, y);
        SameFirst(kind, x, y);
        JoinExtends(kind, x, y, First(kind, x), later);
      } else {
        CutShort(kind, x, y);
      }
    }
  }

  lemma JoinExtends(kind: Kind, x: seq<byte>, y: seq<byte>, first: seq<Timed>, later: seq<byte>)
    requires |x| > HeaderSize(kind) && first == First(kind, x) == First(kind, x + y)
    requires Used(kind, x) == Used(kind, x + y) && later == x[Used(kind, x)..]
    requires Begins(Decode(kind, later), Decode(kind, later + y))
    ensures Begins(Decode(kind, x), Decode(kind, x + y))
  {
    DropAppend(x, y, Used(kind, x));
    DecodeUnfold(kind, x, first, later);
    DecodeUnfold(kind, x + y, first, later + y);
    BeginsAfter(first, Decode(kind, later), Decode(kind, later + y));
  }

  lemma DropAppend(x: seq<byte>, y: seq<byte>, n: nat)
    requires n <= |x|
    ensures (x + y)[n..] == x[n..] + y
  {
  }

  lemma SameFirst(kind: Kind, x: seq<byte>, y: seq<byte>)
    requires |x| > HeaderSize(kind) && FrameLength(kind, x) == FrameLength(kind, x + y)
    ensures First(kind, x + y) == First(kind, x)
  {
    var h, n := HeaderSize(kind), FrameLength(kind, x);
    HeaderExtends(kind, x, y);
    assert (x + y)[h..h + n] == x[h..h + n];
  }

  lemma CutShort(kind: Kind, x: seq<byte>, y: seq<byte>)
    requires |x| > HeaderSize(kind) && FrameLength(kind, x) != FrameLength(kind, x + y)
    ensures Begins(Decode(kind, x), Decode(kind, x + y))
  {
    CutFirst(kind, x, y);
    LastFrame(kind, x);
    BeginsOne(First(kind, x), First(kind, x + y), Decode(kind, (x + y)[Used(kind, x + y)..]));
  }

  /** A frame that grows with the input had been cut at its end. */
  lemma CutFirst(kind: Kind, x: seq<byte>, y: seq<byte>)
    requires |x| > HeaderSize(kind) && FrameLength(kind, x) != FrameLength(kind, x + y)
    ensures var a, b := First(kind, x), First(kind, x + y);
            Used(kind, x) == |x| && |a| == 1 == |b| && a[0].delay == b[0].delay && a[0].frame <= b[0].frame
  {
    var h, m := HeaderSize(kind), FrameLength(kind, x + y);
    HeaderExtends(kind, x, y);
    FrameCut(x, y, h, m);
  }

  lemma LastFrame(kind: Kind, x: seq<byte>)
    requires |x| > HeaderSize(kind) && Used(kind, x) == |x|
    ensures Decode(kind, x) == First(kind, x)
  {
    assert x[|x|..] == [] && Decode(kind, []) == [];
    assert First(kind, x) + [] == First(kind, x);
  }

  lemma FrameCut(x: seq<byte>, y: seq<byte>, h: nat, m: nat)
    requires h <= |x| < h + m <= |x + y|
    ensures x[h..|x|] <= (x + y)[h..h + m]
  {
    assert (x + y)[h..h + m][..|x| - h] == x[h..|x|];
  }

  lemma BeginsOne(a: seq<Timed>, b: seq<Timed>, later: seq<Timed>)
    requires |a| == 1 == |b| && a[0].delay == b[0].delay && a[0].frame <= b[0].frame
    ensures Begins(a, b + later)
  {
  }

  lemma HeaderExtends(kind: Kind, x: seq<byte>, y: seq<byte>)
    requires |x| > HeaderSize(kind)
    ensures Delay(kind, x) == Delay(kind, x + y)
    ensures var n, m := FrameLength(kind, x), FrameLength(kind, x + y);
            n == m || (0 < n < m && n == |x| - HeaderSize(kind))
  {
    var h := HeaderSize(kind);
    assert U16At(x[h - 2..]) == U16At((x + y)[h - 2..]);
    if kind.MultiTime? {
      assert U16At(x[2..]) == U16At((x + y)[2..]);
    }
  }

  // ---------------------------------------------------------------- one header, byte by byte

  /** The header in front of a frame: a big-endian delay in the timed variant, and a length word. */
  function HeaderBytes(kind: Kind, delay: nat, word: u16): (h: seq<byte>)
    requires delay < 0x1_0000_0000
  {
    (if kind.MultiTime? then [delay / 0x100_0000, delay / 0x1_0000 % 256, delay / 256 % 256, delay % 256] else [])
    + [word / 256, word % 256]
  }

  lemma HeaderReads(kind: Kind, delay: nat, word: u16, y: seq<byte>)
    requires delay < 0x1_0000_0000 && y != []
    ensures var h, x := HeaderBytes(kind, delay, word), HeaderBytes(kind, delay, word) + y;
            && |h| == HeaderSize(kind) && U16At(x[|h| - 2..]) == word
            && Delay(kind, x) == (if kind.MultiTime? then delay else 0)
  {
    var h, x := HeaderBytes(kind, delay, word), HeaderBytes(kind, delay, word) + y;
    var w := x[|h| - 2..];
    assert w[0] == h[|h| - 2] && w[1] == h[|h| - 1];
    WordAt(w, word);
    if kind.MultiTime? {
      DelayReads(x, delay);
    }
  }

  lemma DelayReads(x: seq<byte>, delay: nat)
    requires |x| >= 4 && delay < 0x1_0000_0000
    requires x[0] == delay / 0x100_0000 && x[1] == delay / 0x1_0000 % 256
    requires x[2] == delay / 256 % 256 && x[3] == delay % 256
    ensures U32At(x) == delay
  {
    var hi, lo := delay / 0x1_0000, delay % 0x1_0000;
    DelayHalves(delay);
    WordAt(x, hi);
    assert x[2..][0] == x[2] && x[2..][1] == x[3];
    WordAt(x[2..], lo);
  }

  lemma DelayHalves(delay: nat)
    requires delay < 0x1_0000_0000
    ensures var hi, lo := delay / 0x1_0000, delay % 0x1_0000;
            && delay / 0x100_0000 == hi / 256 && delay / 0x1_0000 % 256 == hi % 256
            && delay / 256 % 256 == lo / 256 && delay % 256 == lo % 256
  {
  }

  lemma WordAt(s: seq<byte>, word: u16)
    requires |s| >= 2 && s[0] == word / 256 && s[1] == word % 256
    ensures U16At(s) == word
  {
  }

  /** The frame length a header word announces: its low eleven bits, at most 1514, at most what is left. */
  lemma AnnouncedLength(kind: Kind, delay: nat, k: nat, n: nat, y: seq<byte>)
    requires delay < 0x1_0000_0000 && k < 32 && n < 0x800 && y != []
    ensures var x := HeaderBytes(kind, delay, 0x800 * k + n) + y;
            var m := FrameLength(kind, x);
            && (m == n || m == 1514 || m == |y|) && m <= n && m <= 1514 && m <= |y|
            && x[HeaderSize(kind)..] == y
  {
    var h := HeaderBytes(kind, delay, 0x800 * k + n);
    HeaderReads(kind, delay, 0x800 * k + n, y);
    LowBits(k, n);
    assert (h + y)[|h|..] == y;
  }

  lemma LowBits(k: nat, n: nat)
    requires n < 0x800
    ensures (0x800 * k + n) % 0x800 == n
  {
  }

  /**
   * One header decoded. Its length word is 0x800 * k + n: the five bits k mean nothing, n = 0 hands
   * over nothing, and otherwise a frame of n bytes follows, cut after 1514 bytes and at the end of the
   * input. A header with nothing behind it is not read.
   */
  lemma HeaderDecoded(kind: Kind, delay: nat, k: nat, n: nat, y: seq<byte>)
    requires delay < 0x1_0000_0000 && k < 32 && n < 0x800
    ensures var d, x := if kind.MultiTime? then delay else 0, HeaderBytes(kind, delay, 0x800 * k + n) + y;
            Decode(kind, x) ==
              if y == [] then []
              else if n == 0 then Decode(kind, y)
              else if |y| <= n && |y| <= 1514 then [Timed(d, y)]
              else if n <= 1514 then [Timed(d, y[..n])] + Decode(kind, y[n..])
              else [Timed(d, y[..1514])] + Decode(kind, y[1514..])
  {
    if y != [] {
      var d, x := if kind.MultiTime? then delay else 0, HeaderBytes(kind, delay, 0x800 * k + n) + y;
      HeaderReads(kind, delay, 0x800 * k + n, y);
      AnnouncedLength(kind, delay, k, n, y);
      var m := FrameLength(kind, x);
      DecodeAt(kind, x, y, d, m);
      if m == 0 {
        assert y[0..] == y && [] + Decode(kind, y) == Decode(kind, y);
      } else if m == |y| {
        LastAt(kind, d, y);
      }
    }
  }

  lemma DecodeAt(kind: Kind, x: seq<byte>, y: seq<byte>, d: nat, m: nat)
    requires |x| > HeaderSize(kind) && x[HeaderSize(kind)..] == y && Delay(kind, x) == d
    requires FrameLength(kind, x) == m <= |y|
    ensures Decode(kind, x) == (if m == 0 then [] else [Timed(d, y[..m])]) + Decode(kind, y[m..])
  {
    FirstAt(kind, x, y, d, m);
    DecodeUnfold(kind, x, if m == 0 then [] else [Timed(d, y[..m])], y[m..]);
  }

  lemma FirstAt(kind: Kind, x: seq<byte>, y: seq<byte>, d: nat, m: nat)
    requires |x| > HeaderSize(kind) && x[HeaderSize(kind)..] == y && Delay(kind, x) == d
    requires FrameLength(kind, x) == m <= |y|
    ensures First(kind, x) == (if m == 0 then [] else [Timed(d, y[..m])]) && x[Used(kind, x)..] == y[m..]
  {
    SliceTwice(x, HeaderSize(kind), m);
  }

  lemma LastAt(kind: Kind, d: nat, y: seq<byte>)
    ensures [Timed(d, y[..|y|])] + Decode(kind, y[|y|..]) == [Timed(d, y)]
  {
    assert y[..|y|] == y && Decode(kind, []) == [];
  }

  // ---------------------------------------------------------------- round trip

  /** A frame with the delay and the length word written in front of it. */
  datatype Packed = Packed(frame: Timed, word: u16)

  /** The word holds the length of the frame as far as eleven bits can; its other bits are arbitrary. */
  predicate Encodable(p: Packed) {
    p.frame.delay < 0x1_0000_0000 && p.word % 0x800 == |p.frame.frame| % 0x800
  }

  function EncodeOne(kind: Kind, p: Packed): seq<byte>
    requires Encodable(p)
  {
    HeaderBytes(kind, p.frame.delay, p.word) + p.frame.frame
  }

  function Encode(kind: Kind, ps: seq<Packed>): seq<byte>
    requires forall i :: 0 <= i < |ps| ==> Encodable(ps[i])
  {
    if ps == [] then [] else EncodeOne(kind, ps[0]) + Encode(kind, ps[1..])
  }

  function Unpacked(ps: seq<Packed>): (ts: seq<Timed>)
    ensures |ts| == |ps| && forall i :: 0 <= i < |ps| ==> ts[i] == ps[i].frame
  {
    seq(|ps|, i requires 0 <= i < |ps| => ps[i].frame)
  }

  ghost predicate Deliverable(kind: Kind, t: Timed) {
    1 <= |t.frame| <= 1514 && (!kind.MultiTime? ==> t.delay == 0)
  }

  ghost predicate AllDeliverable(kind: Kind, ts: seq<Timed>) {
    forall i :: 0 <= i < |ts| ==> Deliverable(kind, ts[i])
  }

  lemma {:induction false} DecodedDeliverable(kind: Kind, x: seq<byte>)
    ensures AllDeliverable(kind, Decode(kind, x))
    decreases |x|
  {
    if |x| > HeaderSize(kind) {
      var later := Decode(kind, x[Used(kind, x)..]);
      DecodedDeliverable(kind, x[Used(kind, x)..]);
      DecodeUnfold(kind, x, First(kind, x), x[Used(kind, x)..]);
      FirstDeliverable(kind, x);
      JoinDeliverable(kind, First(kind, x), later);
    }
  }

  lemma FirstDeliverable(kind: Kind, x: seq<byte>)
    requires |x| > HeaderSize(kind)
    ensures AllDeliverable(kind, First(kind, x))
  {
  }

  lemma JoinDeliverable(kind: Kind, first: seq<Timed>, later: seq<Timed>)
    requires AllDeliverable(kind, first) && AllDeliverable(kind, later)
    ensures AllDeliverable(kind, first + later)
  {
    forall i | 0 <= i < |first + later|
      ensures Deliverable(kind, (first + later)[i])
    {
      assert (first + later)[i] == if i < |first| then first[i] else later[i - |first|];
    }
  }

  lemma DecodeOne(kind: Kind, p: Packed, tail: seq<byte>)
    requires Encodable(p) && Deliverable(kind, p.frame)
    ensures Decode(kind, EncodeOne(kind, p) + tail) == [p.frame] + Decode(kind, tail)
  {
    FrameDecoded(kind, p.frame, p.word, tail);
    Assoc(HeaderBytes(kind, p.frame.delay, p.word), p.frame.frame, tail);
  }

  lemma FrameDecoded(kind: Kind, t: Timed, word: u16, tail: seq<byte>)
    requires t.delay < 0x1_0000_0000 && word % 0x800 == |t.frame| && Deliverable(kind, t)
    ensures Decode(kind, HeaderBytes(kind, t.delay, word) + (t.frame + tail)) == [t] + Decode(kind, tail)
  {
    var y, x := t.frame + tail, HeaderBytes(kind, t.delay, word) + (t.frame + tail);
    HeaderReads(kind, t.delay, word, y);
    AnnouncedExactly(kind, t.delay, word, t.frame, tail);
    CutFront(t.frame, tail);
    DecodeAt(kind, x, y, t.delay, |t.frame|);
  }

  lemma AnnouncedExactly(kind: Kind, delay: nat, word: u16, frame: seq<byte>, tail: seq<byte>)
    requires delay < 0x1_0000_0000 && word % 0x800 == |frame| && 1 <= |frame| <= 1514
    ensures var x := HeaderBytes(kind, delay, word) + (frame + tail);
            && |x| > HeaderSize(kind) && FrameLength(kind, x) == |frame|
            && x[HeaderSize(kind)..] == frame + tail
  {
    assert word == 0x800 * (word / 0x800) + |frame|;
    AnnouncedLength(kind, delay, word / 0x800, |frame|, frame + tail);
  }

  lemma CutFront(x: seq<byte>, y: seq<byte>)
    ensures (x + y)[..|x|] == x && (x + y)[|x|..] == y
  {
  }

  /**
   * Encoding frames as big-endian length plus bytes (with a delay word in the timed variant), with
   * anything in the five high bits of the length words, and decoding gives back exactly that list if
   * and only if every frame has 1..1514 bytes (and no delay is asked of a variant without delay word).
   */
  lemma {:induction false} DecodeEncode(kind: Kind, ps: seq<Packed>)
    requires forall i :: 0 <= i < |ps| ==> Encodable(ps[i])
    ensures Decode(kind, Encode(kind, ps)) == Unpacked(ps) <==> AllDeliverable(kind, Unpacked(ps))
  {
    if AllDeliverable(kind, Unpacked(ps)) {
      if ps != [] {
        assert Unpacked(ps)[1..] == Unpacked(ps[1..]) && Deliverable(kind, Unpacked(ps)[0]);
        assert AllDeliverable(kind, Unpacked(ps)[1..]);
        DecodeEncode(kind, ps[1..]);
        DecodeOne(kind, ps[0], Encode(kind, ps[1..]));
        assert Unpacked(ps) == [ps[0].frame] + Unpacked(ps[1..]);
      }
    } else {
      DecodedDeliverable(kind, Encode(kind, ps));
    }
  }

  /** The round trip through input_pkts itself: frames delivered and clock, in one statement. */
  lemma {:induction false} InputPktsDelivers(kind: Kind, ps: seq<Packed>, now: nat)
    requires !kind.Single? && now < 0x1_0000_0000
    requires forall i :: 0 <= i < |ps| ==> Encodable(ps[i]) && Deliverable(kind, ps[i].frame)
    ensures var r := InputPkts(kind, Encode(kind, ps), now, QUIET);
            && FramesOf(r.log) == Frames(Unpacked(ps)) && r.rest == []
            && r.now == Add32(now, TotalDelay(Unpacked(ps)))
  {
    RunEncoded(kind, ps, now);
    RunEmpties(kind, ps, now);
  }

  lemma {:induction false} RunEncoded(kind: Kind, ps: seq<Packed>, now: nat)
    requires !kind.Single? && now < U32
    requires forall i :: 0 <= i < |ps| ==> Encodable(ps[i]) && Deliverable(kind, ps[i].frame)
    ensures var r := InputPkts(kind, Encode(kind, ps), now, QUIET);
            FramesOf(r.log) == Frames(Unpacked(ps)) && r.now == Add32(now, TotalDelay(Unpacked(ps)))
  {
    DecodedAll(kind, ps);
    RunFrames(kind, Encode(kind, ps), now);
  }

  lemma {:induction false} RunFrames(kind: Kind, data: seq<byte>, now: nat)
    requires !kind.Single? && now < U32
    ensures var r, ts := InputPkts(kind, data, now, QUIET), Decode(kind, data);
            FramesOf(r.log) == Frames(ts) && r.now == Add32(now, TotalDelay(ts))
  {
    RunDelivers(kind, data, now);
    FromEmpty(data, now, InputPkts(kind, data, now, QUIET), Decode(kind, data));
  }

  lemma RunDelivers(kind: Kind, data: seq<byte>, now: nat)
    requires !kind.Single? && now < U32
    ensures Delivers(Pool(data, [], now), InputPkts(kind, data, now, QUIET), Decode(kind, data))
  {
    RunsLoop(kind, data, now, QUIET);
    QuietLoopDecodes(kind, Pool(data, [], now), 0);
  }

  lemma {:induction false} RunEmpties(kind: Kind, ps: seq<Packed>, now: nat)
    requires !kind.Single? && now < U32
    requires forall i :: 0 <= i < |ps| ==> Encodable(ps[i]) && Deliverable(kind, ps[i].frame)
    ensures InputPkts(kind, Encode(kind, ps), now, QUIET).rest == []
  {
    NothingLeft(kind, Pool(Encode(kind, ps), [], now), ps, 0);
    RunsLoop(kind, Encode(kind, ps), now, QUIET);
  }

  lemma RunsLoop(kind: Kind, data: seq<byte>, now: nat, env: nat -> seq<Callback>)
    requires !kind.Single?
    ensures InputPkts(kind, data, now, env) == Loop(kind, Pool(data, [], now), env, 0)
  {
  }

  lemma {:induction false} DecodedAll(kind: Kind, ps: seq<Packed>)
    requires forall i :: 0 <= i < |ps| ==> Encodable(ps[i]) && Deliverable(kind, ps[i].frame)
    ensures Decode(kind, Encode(kind, ps)) == Unpacked(ps)
  {
    DecodeEncode(kind, ps);
  }

  lemma FromEmpty(data: seq<byte>, now: nat, r: Pool, ts: seq<Timed>)
    requires Delivers(Pool(data, [], now), r, ts)
    ensures FramesOf(r.log) == Frames(ts) && r.now == Add32(now, TotalDelay(ts))
  {
    assert [] + Frames(ts) == Frames(ts);
  }

  lemma {:induction false} NothingLeft(kind: Kind, p: Pool, ps: seq<Packed>, i: nat)
    requires forall i :: 0 <= i < |ps| ==> Encodable(ps[i]) && Deliverable(kind, ps[i].frame)
    requires p.rest == Encode(kind, ps) && p.now < U32
    ensures Loop(kind, p, QUIET, i).rest == []
    decreases |p.rest|
  {
    if ps != [] {
      UsesOne(kind, ps[0], Encode(kind, ps[1..]));
      QuietUnfold(kind, p, i);
      QuietTurnDecodes(kind, p);
      NothingLeft(kind, Turn(kind, p, []), ps[1..], i + 1);
    }
  }

  /** A turn on an encoded frame leaves what comes after it. */
  lemma UsesOne(kind: Kind, p: Packed, tail: seq<byte>)
    requires Encodable(p) && Deliverable(kind, p.frame)
    ensures var x := EncodeOne(kind, p) + tail;
            |x| > HeaderSize(kind) && x[Used(kind, x)..] == tail
  {
    var h, frame := HeaderBytes(kind, p.frame.delay, p.word), p.frame.frame;
    Assoc(h, frame, tail);
    AnnouncedExactly(kind, p.frame.delay, p.word, frame, tail);
    CutFront(frame, tail);
    SliceTwice(h + (frame + tail), HeaderSize(kind), |frame|);
  }

  // ---------------------------------------------------------------- a single packet

  /** The whole pool as one packet: handed over as it is up to 0xFFFF bytes, refused beyond. */
  lemma SinglePacket(data: seq<byte>, now: nat, env: nat -> seq<Callback>)
    ensures var r := InputPkts(Single, data, now, env);
            if |data| <= 0xFFFF then r.log != [] && r.log[0] == Frame(data) && r.rest == [] && r.now == now
            else r == Pool(data, [], now)
  {
    if |data| <= 0xFFFF {
      var p := Pool(data, [], now).Use(Frame(data[..|data|]));
      assert data[..|data|] == data && p == Pool([], [Frame(data)], now);
      NothingToConsume(p, env(0));
    }
  }

  lemma {:induction false} NothingToConsume(p: Pool, cbs: seq<Callback>)
    requires p.rest == []
    ensures ConsumeAll(p, cbs) == p
  {
    if cbs != [] {
      NothingToConsume(p, cbs[..|cbs| - 1]);
    }
  }

  // ---------------------------------------------------------------- one callback, byte by byte

  /**
   * What one callback sends: behind a length word with something after it, as many bytes as the word
   * says, at most 65495 over TCP and 65507 over UDP, and at most what is left.
   */
  lemma CallbackSends(hi: byte, lo: byte, y: seq<byte>, log: seq<Chunk>, now: nat, via: Callback, n: nat)
    requires y != [] && n <= 256 * hi as int + lo as int && n <= |y| && n <= (if via.Tcp? then 65495 else 65507)
    requires n == 256 * hi as int + lo as int || n == |y| || n == (if via.Tcp? then 65495 else 65507)
    ensures Consume(Pool([hi, lo] + y, log, now), via)
         == Pool(y[n..], log + [LengthWord([hi, lo]), Sent(y[..n], via)], now)
  {
    var x := [hi, lo] + y;
    assert x[..2] == [hi, lo] && x[2..] == y && U16At(x) == 256 * hi as int + lo as int;
    assert (log + [LengthWord([hi, lo])]) + [Sent(y[..n], via)] == log + [LengthWord([hi, lo]), Sent(y[..n], via)];
  }

  /** Two bytes or fewer are left alone. */
  lemma NoWord(p: Pool, via: Callback)
    ensures Consume(p, via) == p <==> |p.rest| <= 2
  {
  }
}
