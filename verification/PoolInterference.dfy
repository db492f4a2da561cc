/**
 * What the callbacks can do to the framing loop: nothing but take bytes away. A run with callbacks
 * hands over what a quiet run hands over on the input without the bytes the callbacks used.
 */
module PoolInterference {
  import opened Bytes
  import opened PoolSpec
  import opened PoolRuns

  /** The bytes the framing loop itself used. */
  function FramingBytes(log: seq<Chunk>): seq<byte> {
    if log == [] then []
    else
      var c := log[|log| - 1];
      FramingBytes(log[..|log| - 1]) + if c.Header? || c.Frame? then c.bytes else []
  }

  lemma FramingSnoc(log: seq<Chunk>, c: Chunk)
    ensures FramingBytes(log + [c]) == FramingBytes(log) + if c.Header? || c.Frame? then c.bytes else []
    ensures FramesOf(log + [c]) == FramesOf(log) + if c.Frame? then [c.bytes] else []
  {
    assert (log + [c])[..|log|] == log;
  }

  lemma ConsumeInvisible(p: Pool, cb: Callback)
    ensures var q := Consume(p, cb);
            FramingBytes(q.log) == FramingBytes(p.log) && FramesOf(q.log) == FramesOf(p.log) && q.now == p.now
  {
    if |p.rest| > 2 {
      var q := p.Use(LengthWord(p.rest[..2]));
      var n := Min(Min(U16At(p.rest), MaxData(cb)), |p.rest| - 2);
      FramingSnoc(p.log, LengthWord(p.rest[..2]));
      FramingSnoc(q.log, Sent(q.rest[..n], cb));
    }
  }

  lemma {:induction false} CallbacksInvisible(p: Pool, cbs: seq<Callback>)
    ensures var q := ConsumeAll(p, cbs);
            FramingBytes(q.log) == FramingBytes(p.log) && FramesOf(q.log) == FramesOf(p.log) && q.now == p.now
  {
    if cbs != [] {
      CallbacksInvisible(p, cbs[..|cbs| - 1]);
      ConsumeInvisible(ConsumeAll(p, cbs[..|cbs| - 1]), cbs[|cbs| - 1]);
    }
  }

  /** From p to r the framing loop used `bytes` and handed over ts. */
  ghost predicate Adds(p: Pool, r: Pool, bytes: seq<byte>, ts: seq<Timed>) {
    FramingBytes(r.log) == FramingBytes(p.log) + bytes && Delivers(p, r, ts)
  }

  /** Bytes and frame of one turn followed by those of the turns after it. */
  lemma AddsChain(p: Pool, t: Pool, r: Pool, first: seq<byte>, ts: seq<Timed>, later: seq<byte>, us: seq<Timed>)
    requires Adds(p, t, first, ts) && Adds(t, r, later, us) && |ts| <= 1 && p.now < U32
    ensures Adds(p, r, first + later, ts + us)
  {
    Assoc(FramingBytes(p.log), first, later);
    DeliversFirst(p, t, r, ts, us);
  }

  /** What a turn adds to the log and the clock. */
  lemma TurnAdds(kind: Kind, p: Pool, cbs: seq<Callback>)
    requires |p.rest| > HeaderSize(kind) && p.now < U32
    ensures Adds(p, Turn(kind, p, cbs), p.rest[..Used(kind, p.rest)], First(kind, p.rest))
  {
    HeaderAdds(kind, p);
    if FrameLength(kind, p.rest) == 0 {
      AddsNothing(p, AfterHeader(kind, p), p.rest[..HeaderSize(kind)]);
    } else {
      FrameTurnAdds(kind, p, cbs);
    }
  }

  function AfterHeader(kind: Kind, p: Pool): Pool
    requires |p.rest| > HeaderSize(kind)
  {
    p.Use(Header(p.rest[..HeaderSize(kind)]))
  }

  lemma HeaderAdds(kind: Kind, p: Pool)
    requires |p.rest| > HeaderSize(kind)
    ensures var q := AfterHeader(kind, p);
            && FramingBytes(q.log) == FramingBytes(p.log) + p.rest[..HeaderSize(kind)]
            && FramesOf(q.log) == FramesOf(p.log)
            && q.rest == p.rest[HeaderSize(kind)..] && q.now == p.now
  {
    FramingSnoc(p.log, Header(p.rest[..HeaderSize(kind)]));
    assert FramesOf(p.log) + [] == FramesOf(p.log);
  }

  lemma FrameTurnAdds(kind: Kind, p: Pool, cbs: seq<Callback>)
    requires |p.rest| > HeaderSize(kind) && FrameLength(kind, p.rest) > 0 && p.now < U32
    ensures Adds(p, Turn(kind, p, cbs), p.rest[..Used(kind, p.rest)], First(kind, p.rest))
  {
    var h, n, delay := HeaderSize(kind), FrameLength(kind, p.rest), Delay(kind, p.rest);
    HeaderAdds(kind, p);
    var q := AfterHeader(kind, p).(now := Add32(p.now, delay));
    HeaderThenFrame(p, q, h, n, delay, cbs);
    assert Turn(kind, p, cbs) == InputFrame(q, n, cbs);
  }

  lemma AddsNothing(p: Pool, q: Pool, head: seq<byte>)
    requires FramingBytes(q.log) == FramingBytes(p.log) + head && FramesOf(q.log) == FramesOf(p.log)
    requires q.now == p.now < U32
    ensures Adds(p, q, head, [])
  {
    DeliversNothing(p, q);
  }

  /** A turn that hands over no frame leaves something to read. */
  lemma TurnLeaves(kind: Kind, p: Pool, cbs: seq<Callback>)
    requires |p.rest| > HeaderSize(kind)
    ensures var n, t := FrameLength(kind, p.rest), Turn(kind, p, cbs);
            (n == 0 ==> t.rest != []) && |t.rest| <= |p.rest| - Used(kind, p.rest)
  {
  }

  lemma HeaderThenFrame(p: Pool, q: Pool, h: nat, n: nat, delay: nat, cbs: seq<Callback>)
    requires h + n <= |p.rest| && q.rest == p.rest[h..] && q.now == Add32(p.now, delay)
    requires FramingBytes(q.log) == FramingBytes(p.log) + p.rest[..h] && FramesOf(q.log) == FramesOf(p.log)
    ensures var t := InputFrame(q, n, cbs);
            Adds(p, t, p.rest[..h + n], [Timed(delay, p.rest[h..h + n])])
  {
    InputAdds(q, n, cbs);
    FrameAdds(p, q, InputFrame(q, n, cbs), p.rest[..h], q.rest[..n], delay);
    SliceTwice(p.rest, h, n);
    assert p.rest[..h] + p.rest[h..h + n] == p.rest[..h + n];
  }

  lemma FrameAdds(p: Pool, q: Pool, t: Pool, head: seq<byte>, frame: seq<byte>, delay: nat)
    requires FramingBytes(q.log) == FramingBytes(p.log) + head && FramesOf(q.log) == FramesOf(p.log)
    requires FramingBytes(t.log) == FramingBytes(q.log) + frame && FramesOf(t.log) == FramesOf(q.log) + [frame]
    requires t.now == q.now == Add32(p.now, delay)
    ensures Adds(p, t, head + frame, [Timed(delay, frame)])
  {
    Assoc(FramingBytes(p.log), head, frame);
    DeliversOne(p, t, Timed(delay, frame));
  }

  lemma InputAdds(q: Pool, n: nat, cbs: seq<Callback>)
    requires n <= |q.rest|
    ensures var t := InputFrame(q, n, cbs);
            && FramingBytes(t.log) == FramingBytes(q.log) + q.rest[..n]
            && FramesOf(t.log) == FramesOf(q.log) + [q.rest[..n]]
            && t.now == q.now && |t.rest| <= |q.rest| - n
  {
    FramingSnoc(q.log, Frame(q.rest[..n]));
    CallbacksInvisible(q.Use(Frame(q.rest[..n])), cbs);
  }

  /** Headers read the same with the callback bytes behind them gone, unless that empties the input. */
  lemma SameHeader(kind: Kind, rest: seq<byte>, later: seq<byte>)
    requires |rest| > HeaderSize(kind)
    requires var n := FrameLength(kind, rest);
             (n == 0 ==> later != []) && |later| <= |rest| - Used(kind, rest)
    ensures var h, n := HeaderSize(kind), FrameLength(kind, rest);
            var x := rest[..h + n] + later;
            && |x| > h && FrameLength(kind, x) == n && Delay(kind, x) == Delay(kind, rest)
            && Used(kind, x) == h + n && First(kind, x) == First(kind, rest) && x[h + n..] == later
  {
    var h, n := HeaderSize(kind), FrameLength(kind, rest);
    var x := rest[..h + n] + later;
    assert U16At(x[h - 2..]) == U16At(rest[h - 2..]);
    if kind.MultiTime? {
      assert U16At(x[2..]) == U16At(rest[2..]);
    }
    assert x[h..h + n] == rest[h..h + n] && x[h + n..] == later;
  }

  lemma DecodeWithout(kind: Kind, rest: seq<byte>, later: seq<byte>)
    requires |rest| > HeaderSize(kind)
    requires var n := FrameLength(kind, rest);
             (n == 0 ==> later != []) && |later| <= |rest| - Used(kind, rest)
    ensures Decode(kind, rest[..Used(kind, rest)] + later) == First(kind, rest) + Decode(kind, later)
  {
    var x, first := rest[..Used(kind, rest)] + later, First(kind, rest);
    SameSplit(kind, rest, later, x);
    DecodeUnfold(kind, x, first, later);
  }

  lemma SameSplit(kind: Kind, rest: seq<byte>, later: seq<byte>, x: seq<byte>)
    requires |rest| > HeaderSize(kind) && x == rest[..Used(kind, rest)] + later
    requires var n := FrameLength(kind, rest);
             (n == 0 ==> later != []) && |later| <= |rest| - Used(kind, rest)
    ensures |x| > HeaderSize(kind) && First(kind, x) == First(kind, rest) && x[Used(kind, x)..] == later
  {
    SameHeader(kind, rest, later);
  }

  /** From p to r the loop used `used`, and it handed over what a quiet loop finds in that and the rest. */
  ghost predicate Explains(kind: Kind, p: Pool, r: Pool, used: seq<byte>) {
    && Adds(p, r, used, Decode(kind, used + r.rest))
    && |used + r.rest| <= |p.rest| && (p.rest != [] ==> used + r.rest != [])
  }

  lemma NothingUsed(kind: Kind, p: Pool)
    requires |p.rest| <= HeaderSize(kind) && p.now < U32
    ensures Explains(kind, p, p, [])
  {
    assert [] + p.rest == p.rest && FramingBytes(p.log) + [] == FramingBytes(p.log);
    assert FramesOf(p.log) + [] == FramesOf(p.log) && Decode(kind, p.rest) == [];
  }

  lemma TurnInterference(kind: Kind, p: Pool, cbs: seq<Callback>, r: Pool, later: seq<byte>)
    requires |p.rest| > HeaderSize(kind) && p.now < U32
    requires Explains(kind, Turn(kind, p, cbs), r, later)
    ensures Explains(kind, p, r, p.rest[..Used(kind, p.rest)] + later)
  {
    var t, first := Turn(kind, p, cbs), p.rest[..Used(kind, p.rest)];
    TurnAdds(kind, p, cbs);
    TurnLeaves(kind, p, cbs);
    DecodeWithout(kind, p.rest, later + r.rest);
    ExplainsFirst(kind, p, t, r, first, First(kind, p.rest), later);
  }

  lemma ExplainsFirst(kind: Kind, p: Pool, t: Pool, r: Pool, first: seq<byte>, ts: seq<Timed>, later: seq<byte>)
    requires p.now < U32 && |ts| <= 1 && first != []
    requires Adds(p, t, first, ts) && Explains(kind, t, r, later)
    requires |t.rest| <= |p.rest| - |first|
    requires Decode(kind, first + (later + r.rest)) == ts + Decode(kind, later + r.rest)
    ensures Explains(kind, p, r, first + later)
  {
    Assoc(first, later, r.rest);
    AddsChain(p, t, r, first, ts, later, Decode(kind, later + r.rest));
  }

  lemma {:induction false} LoopInterference(kind: Kind, p: Pool, env: nat -> seq<Callback>, i: nat)
    returns (used: seq<byte>)
    requires p.now < U32
    ensures Explains(kind, p, Loop(kind, p, env, i), used)
    decreases |p.rest|
  {
    if |p.rest| <= HeaderSize(kind) {
      used := [];
      NothingUsed(kind, p);
    } else {
      TurnClock(kind, p, env(i));
      var later := LoopInterference(kind, Turn(kind, p, env(i)), env, i + 1);
      used := p.rest[..Used(kind, p.rest)] + later;
      TurnInterference(kind, p, env(i), Loop(kind, Turn(kind, p, env(i)), env, i + 1), later);
    }
  }

  lemma TurnClock(kind: Kind, p: Pool, cbs: seq<Callback>)
    requires |p.rest| > HeaderSize(kind) && p.now < U32
    ensures Turn(kind, p, cbs).now < U32
  {
    TurnAdds(kind, p, cbs);
  }

  /**
   * For every input and everything the callbacks may do, the frames handed to the stack and the
   * clock are those of a run without callbacks on the same input with the callback bytes removed.
   */
  lemma CallbacksOnlyTakeBytes(kind: Kind, data: seq<byte>, now: nat, env: nat -> seq<Callback>)
    requires !kind.Single? && now < U32
    ensures var r := InputPkts(kind, data, now, env);
            var quiet := InputPkts(kind, FramingBytes(r.log) + r.rest, now, QUIET);
            FramesOf(r.log) == FramesOf(quiet.log) && r.now == quiet.now
  {
    var p, r := Pool(data, [], now), InputPkts(kind, data, now, env);
    var used := LoopInterference(kind, p, env, 0);
    assert [] + used == used;
    QuietLoopDecodes(kind, Pool(used + r.rest, [], now), 0);
  }
}
