/** Properties of every run of the transport: conservation of bytes, read order, draining. */
module TransportRuns {
  import opened Bits
  import opened Bytes
  import opened TransportSpec

  /** Concatenates what f picks from each event. */
  function Collect(trace: seq<Event>, f: Event -> seq<byte>): seq<byte> {
    if trace == [] then [] else Collect(trace[..|trace| - 1], f) + f(trace[|trace| - 1])
  }

  function QueuedBy(e: Event): seq<byte> {
    if e.Wrote? then e.queued else []
  }

  function RepliesBy(e: Event): seq<byte> {
    if e.FromReplies? then e.data else []
  }

  function InputBy(e: Event): seq<byte> {
    if e.FromInput? then e.data else []
  }

  /** Delivered bytes, whichever source they came from. */
  function StreamBy(e: Event): seq<byte> {
    RepliesBy(e) + InputBy(e)
  }

  lemma CollectSnoc(trace: seq<Event>, e: Event, f: Event -> seq<byte>)
    ensures Collect(trace + [e], f) == Collect(trace, f) + f(e)
  {
    assert (trace + [e])[..|trace|] == trace;
  }

  /** m interleaves a and b, keeping the order of each. */
  ghost predicate Merge(m: seq<byte>, a: seq<byte>, b: seq<byte>)
    decreases |m|
  {
    var last := |m| - 1;
    if m == [] then a == [] && b == []
    else
      || (a != [] && a[|a| - 1] == m[last] && Merge(m[..last], a[..|a| - 1], b))
      || (b != [] && b[|b| - 1] == m[last] && Merge(m[..last], a, b[..|b| - 1]))
  }

  lemma {:induction false} MergeLeft(m: seq<byte>, a: seq<byte>, b: seq<byte>, x: seq<byte>)
    requires Merge(m, a, b)
    ensures Merge(m + x, a + x, b)
    decreases |x|
  {
    if x == [] {
      assert m + x == m && a + x == a;
    } else {
      var y := x[..|x| - 1];
      MergeLeft(m, a, b, y);
      assert (m + x)[..|m + x| - 1] == m + y && (a + x)[..|a + x| - 1] == a + y;
    }
  }

  lemma {:induction false} MergeRight(m: seq<byte>, a: seq<byte>, b: seq<byte>, x: seq<byte>)
    requires Merge(m, a, b)
    ensures Merge(m + x, a, b + x)
    decreases |x|
  {
    if x == [] {
      assert m + x == m && b + x == b;
    } else {
      var y := x[..|x| - 1];
      MergeRight(m, a, b, y);
      assert (m + x)[..|m + x| - 1] == m + y && (b + x)[..|b + x| - 1] == b + y;
    }
  }

  // ---------------------------------------------------------------- one step

  lemma StepConserves(s: State, op: Call)
    requires s.Valid()
    ensures var (t, e) := Step(s, op);
            && s.pending + QueuedBy(e) == RepliesBy(e) + t.pending
            && t.input == s.input && s.inOff <= t.inOff
            && InputBy(e) == s.input[s.inOff..t.inOff]
            && (RepliesBy(e) == [] || InputBy(e) == [])
            && (e.FromInput? ==> s.pending == [])
  {
  }

  // ---------------------------------------------------------------- whole runs

  lemma {:induction false} RepliesConserved(s: State, ops: seq<Call>)
    requires s.Valid()
    ensures var r := Run(s, ops);
            s.pending + Collect(r.trace, QueuedBy) == Collect(r.trace, RepliesBy) + r.state.pending
  {
    if ops == [] {
      assert s.pending + [] == [] + s.pending;
    } else {
      var before := Run(s, ops[..|ops| - 1]);
      RepliesConserved(s, ops[..|ops| - 1]);
      var (t, e) := Step(before.state, ops[|ops| - 1]);
      StepConserves(before.state, ops[|ops| - 1]);
      CollectSnoc(before.trace, e, QueuedBy);
      CollectSnoc(before.trace, e, RepliesBy);
      Requeue(s.pending, Collect(before.trace, QueuedBy), QueuedBy(e),
              Collect(before.trace, RepliesBy), RepliesBy(e), before.state.pending, t.pending);
    }
  }

  lemma {:induction false} InputConserved(s: State, ops: seq<Call>)
    requires s.Valid()
    ensures var r := Run(s, ops);
            && r.state.input == s.input && s.inOff <= r.state.inOff
            && Collect(r.trace, InputBy) == s.input[s.inOff..r.state.inOff]
  {
    if ops != [] {
      var before := Run(s, ops[..|ops| - 1]);
      InputConserved(s, ops[..|ops| - 1]);
      var (t, e) := Step(before.state, ops[|ops| - 1]);
      StepConserves(before.state, ops[|ops| - 1]);
      CollectSnoc(before.trace, e, InputBy);
      SliceJoin(s.input, s.inOff, before.state.inOff, t.inOff);
    }
  }

  lemma {:induction false} StreamMerges(trace: seq<Event>)
    ensures Merge(Collect(trace, StreamBy), Collect(trace, RepliesBy), Collect(trace, InputBy))
  {
    if trace != [] {
      var before, e := trace[..|trace| - 1], trace[|trace| - 1];
      StreamMerges(before);
      ExtendMerge(Collect(before, StreamBy), Collect(before, RepliesBy), Collect(before, InputBy), e);
    }
  }

  /**
   * Over every run: replies delivered plus replies pending are the replies queued, in write order;
   * input delivered is the stretch of input the read position moved over; and the delivered
   * stream is a merge of the two.
   */
  lemma Conservation(s: State, ops: seq<Call>)
    requires s.Valid()
    ensures var r := Run(s, ops);
            && s.pending + Collect(r.trace, QueuedBy) == Collect(r.trace, RepliesBy) + r.state.pending
            && r.state.input == s.input && s.inOff <= r.state.inOff
            && Collect(r.trace, InputBy) == s.input[s.inOff..r.state.inOff]
            && Merge(Collect(r.trace, StreamBy), Collect(r.trace, RepliesBy), Collect(r.trace, InputBy))
  {
    RepliesConserved(s, ops);
    InputConserved(s, ops);
    StreamMerges(Run(s, ops).trace);
  }

  lemma Requeue(p: seq<byte>, q: seq<byte>, dq: seq<byte>, r: seq<byte>, dr: seq<byte>, x: seq<byte>, y: seq<byte>)
    requires p + q == r + x && x + dq == dr + y
    ensures p + (q + dq) == (r + dr) + y
  {
    calc {
      p + (q + dq);
      (p + q) + dq;
      r + (x + dq);
      (r + dr) + y;
    }
  }

  lemma ExtendMerge(m: seq<byte>, a: seq<byte>, b: seq<byte>, e: Event)
    requires Merge(m, a, b)
    ensures Merge(m + StreamBy(e), a + RepliesBy(e), b + InputBy(e))
  {
    if e.FromInput? {
      MergeRight(m, a, b, InputBy(e));
      assert StreamBy(e) == InputBy(e) && a + RepliesBy(e) == a;
    } else {
      MergeLeft(m, a, b, RepliesBy(e));
      assert StreamBy(e) == RepliesBy(e) && b + InputBy(e) == b;
    }
  }

  lemma {:induction false} RunPrefix(s: State, ops: seq<Call>, i: nat)
    requires s.Valid() && i < |ops|
    ensures var r := Run(s, ops);
            && Run(s, ops[..i]).trace == r.trace[..i]
            && r.trace[i] == Step(Run(s, ops[..i]).state, ops[i]).1
  {
    var shorter := ops[..|ops| - 1];
    if i < |shorter| {
      RunPrefix(s, shorter, i);
      assert shorter[..i] == ops[..i];
      assert Run(s, ops).trace[..i] == Run(s, shorter).trace[..i];
    } else {
      assert ops[..i] == shorter;
    }
  }

  /** Input is delivered only at a moment when every reply queued so far has been delivered. */
  lemma InputOnlyWhenNothingPending(s: State, ops: seq<Call>, i: nat)
    requires s.Valid() && i < |ops| && Run(s, ops).trace[i].FromInput?
    ensures var sofar := Run(s, ops).trace[..i];
            s.pending + Collect(sofar, QueuedBy) == Collect(sofar, RepliesBy)
  {
    RunPrefix(s, ops, i);
    var before := Run(s, ops[..i]);
    StepConserves(before.state, ops[i]);
    Conservation(s, ops[..i]);
    assert Collect(before.trace, RepliesBy) + [] == Collect(before.trace, RepliesBy);
  }

  // ---------------------------------------------------------------- single calls within a run

  /** Whether the last connect or close of the calls was a connect. */
  function Connects(before: bool, ops: seq<Call>): bool {
    if ops == [] then before
    else
      var op := ops[|ops| - 1];
      op.Connect? || (!op.Close? && Connects(before, ops[..|ops| - 1]))
  }

  lemma {:induction false} RunConnects(s: State, ops: seq<Call>)
    requires s.Valid()
    ensures Run(s, ops).state.connected == Connects(s.connected, ops)
    ensures Run(s, ops).state.frag == s.frag
  {
    if ops != [] {
      RunConnects(s, ops[..|ops| - 1]);
    }
  }

  /**
   * In any run a read times out exactly when the transport is closed, or every queued reply and
   * the whole input have been delivered.
   */
  lemma TimeoutsExplained(s: State, ops: seq<Call>, i: nat)
    requires s.Valid() && i < |ops| && ops[i].Read?
    ensures var sofar := Run(s, ops).trace[..i];
            Run(s, ops).trace[i] == TimedOut <==>
              || !Connects(s.connected, ops[..i])
              || (s.pending + Collect(sofar, QueuedBy) == Collect(sofar, RepliesBy)
                  && Collect(sofar, InputBy) == s.input[s.inOff..])
  {
    var before := Run(s, ops[..i]).state;
    RunPrefix(s, ops, i);
    RunConnects(s, ops[..i]);
    RepliesConserved(s, ops[..i]);
    InputConserved(s, ops[..i]);
    NothingBehind(Collect(Run(s, ops[..i]).trace, RepliesBy), before.pending);
    assert |s.input[s.inOff..before.inOff]| == before.inOff - s.inOff;
    assert before.inOff == |s.input| ==> s.input[s.inOff..before.inOff] == s.input[s.inOff..];
  }

  lemma NothingBehind(x: seq<byte>, y: seq<byte>)
    ensures x + y == x <==> y == []
  {
    if y != [] {
      assert |x + y| > |x|;
    } else {
      assert x + y == x;
    }
  }

  /** A read that went from s to t with event e took as much as it could. */
  ghost predicate FullSize(s: State, max: nat, t: State, e: Event) {
    && (e.FromReplies? || e.FromInput?)
    && |e.data| <= max && (s.frag > 0 ==> |e.data| <= s.frag)
    && (|e.data| == max || (s.frag > 0 && |e.data| == s.frag)
        || if e.FromReplies? then t.pending == [] else t.inOff == |t.input|)
  }

  lemma ReadIsFullSize(s: State, max: nat)
    requires s.Valid()
    ensures var (t, e) := Step(s, Read(max));
            e == TimedOut || FullSize(s, max, t, e)
  {
  }

  /**
   * In any run a read that delivers bytes takes as many as it may, min(frag, len) of them, or all
   * that its source has left.
   */
  lemma ReadSizes(s: State, ops: seq<Call>, i: nat)
    requires s.Valid() && i < |ops| && ops[i].Read? && Run(s, ops).trace[i] != TimedOut
    ensures FullSize(Run(s, ops[..i]).state, ops[i].max, Run(s, ops[..i + 1]).state, Run(s, ops).trace[i])
    ensures Run(s, ops[..i]).state.frag == s.frag
  {
    var before, op := Run(s, ops[..i]).state, ops[i];
    assert ops[..i + 1] == ops[..i] + [op];
    RunSnoc(s, ops[..i], op);
    RunPrefix(s, ops, i);
    assert Run(s, ops[..i + 1]).state == Step(before, op).0 && Run(s, ops).trace[i] == Step(before, op).1;
    RunConnects(s, ops[..i]);
    ReadIsFullSize(before, op.max);
  }

  /** In any run polling answers 1 exactly when some input has not been delivered, else -1. */
  lemma PollTellsUnread(s: State, ops: seq<Call>, i: nat)
    requires s.Valid() && i < |ops| && ops[i].PollRead?
    ensures var e, sofar := Run(s, ops).trace[i], Run(s, ops).trace[..i];
            && (e == Done(1) <==> s.inOff + |Collect(sofar, InputBy)| < |s.input|)
            && (e == Done(1) || e == Done(-1))
  {
    RunPrefix(s, ops, i);
    InputConserved(s, ops[..i]);
  }

  /** In any run a write returns its length, whatever else holds; connect and close return 0. */
  lemma ReturnValues(s: State, ops: seq<Call>, i: nat)
    requires s.Valid() && i < |ops|
    ensures var e := Run(s, ops).trace[i];
            && (ops[i].Write? ==> e.Wrote? && e.ret == ops[i].len)
            && (ops[i].Connect? || ops[i].Close? ==> e == Done(0))
  {
    RunPrefix(s, ops, i);
  }

  /** Only a write with autopilot on, of at least one byte, whose realloc succeeds can queue anything. */
  lemma QueuesOnlyIf(s: State, ops: seq<Call>, i: nat)
    requires s.Valid() && i < |ops| && QueuedBy(Run(s, ops).trace[i]) != []
    ensures ops[i].Write? && s.autopilot && ops[i].len > 0 && ops[i].grown
  {
    RunPrefix(s, ops, i);
    KeepsAutopilot(s, ops[..i]);
  }

  lemma {:induction false} KeepsAutopilot(s: State, ops: seq<Call>)
    requires s.Valid()
    ensures Run(s, ops).state.autopilot == s.autopilot
  {
    if ops != [] {
      KeepsAutopilot(s, ops[..|ops| - 1]);
    }
  }

  /** Timeouts, and nothing else, leave the code 1 in last_errno. */
  lemma {:induction false} LastErrnoTells(s: State, ops: seq<Call>)
    requires s.Valid()
    ensures var r := Run(s, ops);
            r.state.lastErrno == if TimedOut in r.trace then 1 else s.lastErrno
  {
    if ops != [] {
      LastErrnoTells(s, ops[..|ops| - 1]);
    }
  }

  // ---------------------------------------------------------------- draining

  /** Everything a caller can still read if nothing more is written. */
  function Left(s: State): seq<byte>
    requires s.inOff <= |s.input|
  {
    s.pending + s.Unread()
  }

  ghost predicate Draining(ops: seq<Call>) {
    forall i :: 0 <= i < |ops| ==> ops[i].Read? || ops[i].PollRead? || ops[i].Connect?
  }

  /**
   * While nothing is written or closed, what is read followed by what is left never changes:
   * the drained stream depends neither on `frag` nor on the lengths asked for.
   */
  lemma {:induction false} DrainInOrder(s: State, ops: seq<Call>)
    requires s.Valid() && s.connected && Draining(ops)
    ensures var r := Run(s, ops);
            r.state.connected && Collect(r.trace, StreamBy) + Left(r.state) == Left(s)
  {
    if ops != [] {
      var op := ops[|ops| - 1];
      var before := Run(s, ops[..|ops| - 1]);
      DrainInOrder(s, ops[..|ops| - 1]);
      var (t, e) := Step(before.state, op);
      DrainStep(before.state, op);
      StreamSnoc(before.trace, e, Left(t), Left(before.state));
    }
  }

  lemma StreamSnoc(trace: seq<Event>, e: Event, left: seq<byte>, before: seq<byte>)
    requires StreamBy(e) + left == before
    ensures Collect(trace + [e], StreamBy) + left == Collect(trace, StreamBy) + before
  {
    CollectSnoc(trace, e, StreamBy);
    Assoc(Collect(trace, StreamBy), StreamBy(e), left);
  }

  lemma DrainStep(s: State, op: Call)
    requires s.Valid() && s.connected && (op.Read? || op.PollRead? || op.Connect?)
    ensures var (t, e) := Step(s, op);
            t.connected && StreamBy(e) + Left(t) == Left(s)
  {
    if op.Read? && s.pending != [] {
      DrainReplies(s, op.max);
    } else if op.Read? && s.inOff < |s.input| {
      DrainInput(s, op.max);
    } else {
      var (t, e) := Step(s, op);
      assert StreamBy(e) == [] && Left(t) == Left(s);
    }
  }

  lemma DrainReplies(s: State, max: nat)
    requires s.Valid() && s.connected && s.pending != []
    ensures var (t, e) := Step(s, Read(max));
            t.connected && StreamBy(e) + Left(t) == Left(s)
  {
    var n := Min(Cap(s.frag, max), |s.pending|);
    assert s.pending[..n] + s.pending[n..] == s.pending;
    Regroup(s.pending[..n], s.pending[n..], s.Unread());
  }

  lemma DrainInput(s: State, max: nat)
    requires s.Valid() && s.connected && s.pending == [] && s.inOff < |s.input|
    ensures var (t, e) := Step(s, Read(max));
            t.connected && StreamBy(e) + Left(t) == Left(s)
  {
    var (t, e) := Step(s, Read(max));
    assert e.data + t.Unread() == s.Unread();
    Regroup(e.data, [], t.Unread());
  }

  lemma Regroup(a: seq<byte>, b: seq<byte>, c: seq<byte>)
    ensures (a + []) + (b + c) == (a + b) + c
    ensures ([] + a) + (b + c) == (a + b) + c
    ensures b == [] ==> a + b == a
  {
  }

  /** Reads that empty the transport deliver Left(s), for every `frag` and every choice of lengths. */
  lemma DrainedStream(s: State, frag: int, ops: seq<Call>)
    requires s.Valid() && s.connected && Draining(ops)
    requires Left(Run(s.(frag := frag), ops).state) == []
    ensures Collect(Run(s.(frag := frag), ops).trace, StreamBy) == Left(s)
  {
    DrainInOrder(s.(frag := frag), ops);
    var c := Collect(Run(s.(frag := frag), ops).trace, StreamBy);
    assert c + [] == c;
  }

  function Ceil(n: nat, c: nat): nat
    requires c > 0
  {
    (n + c - 1) / c
  }

  lemma CeilStep(n: nat, c: nat)
    requires c > 0
    ensures n == 0 <==> Ceil(n, c) == 0
    ensures n > 0 ==> Ceil(n - Min(c, n), c) == Ceil(n, c) - 1
  {
    if n == 0 {
      DivModUnique(c - 1, c, 0, c - 1);
    } else if n <= c {
      DivModUnique(n + c - 1, c, 1, n - 1);
      DivModUnique(c - 1, c, 0, c - 1);
    } else {
      var q, r := (n - 1) / c, (n - 1) % c;
      assert n - 1 == c * q + r;
      NextMultiple(n, c, q, r);
      DivModUnique(n + c - 1, c, q + 1, r);
    }
  }

  lemma NextMultiple(n: nat, c: nat, q: nat, r: nat)
    requires n - 1 == c * q + r
    ensures n + c - 1 == c * (q + 1) + r
  {
  }

  /** Reads of at most c bytes it takes to empty both sources: reads never mix the two. */
  function ReadsNeeded(s: State, c: nat): nat
    requires c > 0 && s.inOff <= |s.input|
  {
    Ceil(|s.pending|, c) + Ceil(|s.Unread()|, c)
  }

  function Reads(len: nat, k: nat): (ops: seq<Call>)
    ensures |ops| == k && forall i :: 0 <= i < k ==> ops[i] == Read(len)
  {
    if k == 0 then [] else Reads(len, k - 1) + [Read(len)]
  }

  lemma ReadStep(s: State, len: nat)
    requires s.Valid() && s.connected && Cap(s.frag, len) > 0
    ensures var (t, e) := Step(s, Read(len));
            var c := Cap(s.frag, len);
            && t.connected && t.frag == s.frag
            && (ReadsNeeded(s, c) == 0 ==> e.TimedOut? && ReadsNeeded(t, c) == 0)
            && (ReadsNeeded(s, c) > 0 ==> StreamBy(e) != [] && ReadsNeeded(t, c) == ReadsNeeded(s, c) - 1)
  {
    CeilStep(|s.pending|, Cap(s.frag, len));
    CeilStep(|s.Unread()|, Cap(s.frag, len));
  }

  /** The first `need` reads deliver at least one byte each, all later ones time out. */
  ghost predicate Succeeds(trace: seq<Event>, need: nat) {
    forall i :: 0 <= i < |trace| ==> if i < need then StreamBy(trace[i]) != [] else trace[i].TimedOut?
  }

  lemma SucceedsSnoc(trace: seq<Event>, e: Event, need: nat)
    requires Succeeds(trace, need)
    requires if |trace| < need then StreamBy(e) != [] else e.TimedOut?
    ensures Succeeds(trace + [e], need)
  {
    forall i | 0 <= i < |trace + [e]|
      ensures var f := (trace + [e])[i]; if i < need then StreamBy(f) != [] else f.TimedOut?
    {
      if i < |trace| {
        assert (trace + [e])[i] == trace[i];
      }
    }
  }

  /** Where k reads of at most c bytes have led, `need` being the number it takes to drain. */
  ghost predicate Counted(r: Outcome, frag: int, c: nat, need: nat, k: nat)
    requires c > 0
  {
    && r.state.Valid() && r.state.connected && r.state.frag == frag
    && |r.trace| == k && Succeeds(r.trace, need)
    && ReadsNeeded(r.state, c) == if k < need then need - k else 0
  }

  lemma CountedStep(r: Outcome, len: nat, need: nat, k: nat)
    requires Cap(r.state.frag, len) > 0 && Counted(r, r.state.frag, Cap(r.state.frag, len), need, k)
    ensures var (t, e) := Step(r.state, Read(len));
            Counted(Outcome(t, r.trace + [e]), r.state.frag, Cap(r.state.frag, len), need, k + 1)
  {
    ReadStep(r.state, len);
    SucceedsSnoc(r.trace, Step(r.state, Read(len)).1, need);
  }

  /**
   * Reading with a fixed length takes exactly ceil(pending / cap) + ceil(unread / cap) successful
   * reads, each with at least one byte; every read after that times out.
   */
  lemma {:induction false} DrainCount(s: State, len: nat, k: nat)
    requires s.Valid() && s.connected && Cap(s.frag, len) > 0
    ensures Counted(Run(s, Reads(len, k)), s.frag, Cap(s.frag, len), ReadsNeeded(s, Cap(s.frag, len)), k)
  {
    if k > 0 {
      DrainCount(s, len, k - 1);
      CountedStep(Run(s, Reads(len, k - 1)), len, ReadsNeeded(s, Cap(s.frag, len)), k - 1);
      RunSnoc(s, Reads(len, k - 1), Read(len));
    }
  }
}
