/**
 * Replies inside the input: which runs of the transport deliver whole packets. A reply queued while
 * an input packet is half read is delivered in the middle of that packet.
 */
module Interleaving {
  import opened Bytes
  import opened TransportSpec
  import opened TransportRuns
  import opened Autopilot
  import F = Framing

  /** A byte and its source. */
  datatype Item = Item(fromInput: bool, value: byte)

  function Tag(fromInput: bool, bytes: seq<byte>): (items: seq<Item>)
    ensures |items| == |bytes| && forall i :: 0 <= i < |bytes| ==> items[i] == Item(fromInput, bytes[i])
  {
    seq(|bytes|, i requires 0 <= i < |bytes| => Item(fromInput, bytes[i]))
  }

  function Values(items: seq<Item>): (bytes: seq<byte>)
    ensures |bytes| == |items| && forall i :: 0 <= i < |items| ==> bytes[i] == items[i].value
  {
    seq(|items|, i requires 0 <= i < |items| => items[i].value)
  }

  /** The bytes of one source. */
  function BytesFrom(fromInput: bool, items: seq<Item>): seq<byte> {
    if items == [] then []
    else (if items[0].fromInput == fromInput then [items[0].value] else []) + BytesFrom(fromInput, items[1..])
  }

  /** A packet every byte of which comes from one source. */
  datatype Sourced = Sourced(fromInput: bool, packet: F.Packet)

  function Items(qs: seq<Sourced>): seq<Item> {
    if qs == [] then [] else Tag(qs[0].fromInput, qs[0].packet.Bytes()) + Items(qs[1..])
  }

  function PacketsFrom(fromInput: bool, qs: seq<Sourced>): seq<F.Packet> {
    if qs == [] then []
    else (if qs[0].fromInput == fromInput then [qs[0].packet] else []) + PacketsFrom(fromInput, qs[1..])
  }

  function Packets(qs: seq<Sourced>): (ps: seq<F.Packet>)
    ensures |ps| == |qs| && forall i :: 0 <= i < |qs| ==> ps[i] == qs[i].packet
  {
    seq(|qs|, i requires 0 <= i < |qs| => qs[i].packet)
  }

  function FromInputAll(ps: seq<F.Packet>): (qs: seq<Sourced>)
    ensures |qs| == |ps| && forall i :: 0 <= i < |ps| ==> qs[i] == Sourced(true, ps[i])
  {
    seq(|ps|, i requires 0 <= i < |ps| => Sourced(true, ps[i]))
  }

  // ---------------------------------------------------------------- what a run delivers

  function ItemsBy(e: Event): seq<Item> {
    Tag(false, RepliesBy(e)) + Tag(true, InputBy(e))
  }

  function Delivered(trace: seq<Event>): seq<Item> {
    if trace == [] then [] else Delivered(trace[..|trace| - 1]) + ItemsBy(trace[|trace| - 1])
  }

  /** Delivered bytes and the replies that come next. */
  function Committed(r: Outcome): seq<Item> {
    Delivered(r.trace) + Tag(false, r.state.pending)
  }

  /** Everything a caller receives in a run and, if it then only reads, after it. */
  function Stream(r: Outcome): seq<Item>
    requires r.state.Valid()
  {
    Committed(r) + Tag(true, r.state.Unread())
  }

  /** k bytes are a whole number of the packets. */
  ghost predicate OnBoundary(ps: seq<F.Packet>, k: int) {
    exists j :: 0 <= j <= |ps| && k == |F.Wire(ps[..j])|
  }

  /** Whenever a write queues a reply, no input packet is half read. */
  ghost predicate Aligned(s: State, ops: seq<Call>, ps: seq<F.Packet>)
    requires s.Valid()
  {
    forall i :: 0 <= i < |ops| && QueuedBy(Run(s, ops).trace[i]) != [] ==>
      OnBoundary(ps, Run(s, ops[..i]).state.inOff - s.inOff)
  }

  // ---------------------------------------------------------------- sequences of items

  lemma TagAppend(fromInput: bool, x: seq<byte>, y: seq<byte>)
    ensures Tag(fromInput, x + y) == Tag(fromInput, x) + Tag(fromInput, y)
  {
  }

  lemma {:induction false} BytesAppend(src: bool, x: seq<Item>, y: seq<Item>)
    ensures BytesFrom(src, x + y) == BytesFrom(src, x) + BytesFrom(src, y)
  {
    if x == [] {
      assert x + y == y;
    } else {
      BytesAppend(src, x[1..], y);
      assert x + y != [] && (x + y)[0] == x[0] && (x + y)[1..] == x[1..] + y;
      Assoc(if x[0].fromInput == src then [x[0].value] else [], BytesFrom(src, x[1..]), BytesFrom(src, y));
    }
  }

  lemma {:induction false} BytesOfTag(src: bool, fromInput: bool, bytes: seq<byte>)
    ensures BytesFrom(src, Tag(fromInput, bytes)) == if src == fromInput then bytes else []
  {
    if bytes != [] {
      BytesOfTag(src, fromInput, bytes[1..]);
      assert Tag(fromInput, bytes)[1..] == Tag(fromInput, bytes[1..]);
    }
  }

  lemma {:induction false} ItemsAppend(x: seq<Sourced>, y: seq<Sourced>)
    ensures Items(x + y) == Items(x) + Items(y)
  {
    if x == [] {
      assert x + y == y;
    } else {
      ItemsAppend(x[1..], y);
      assert (x + y)[1..] == x[1..] + y;
      Assoc(Tag(x[0].fromInput, x[0].packet.Bytes()), Items(x[1..]), Items(y));
    }
  }

  /** The packets of one source hold the bytes of that source. */
  lemma {:induction false} SourceWire(src: bool, qs: seq<Sourced>)
    ensures BytesFrom(src, Items(qs)) == F.Wire(PacketsFrom(src, qs))
  {
    if qs != [] {
      var bytes := qs[0].packet.Bytes();
      SourceWire(src, qs[1..]);
      BytesAppend(src, Tag(qs[0].fromInput, bytes), Items(qs[1..]));
      BytesOfTag(src, qs[0].fromInput, bytes);
      var ps, later := PacketsFrom(src, qs), PacketsFrom(src, qs[1..]);
      if qs[0].fromInput == src {
        assert ps[0] == qs[0].packet && ps[1..] == later;
      } else {
        assert ps == later && [] + F.Wire(later) == F.Wire(later);
      }
    }
  }

  lemma {:induction false} ItemsOfInput(ps: seq<F.Packet>)
    ensures Items(FromInputAll(ps)) == Tag(true, F.Wire(ps))
  {
    if ps != [] {
      ItemsOfInput(ps[1..]);
      assert FromInputAll(ps)[1..] == FromInputAll(ps[1..]);
      TagAppend(true, ps[0].Bytes(), F.Wire(ps[1..]));
    }
  }

  lemma {:induction false} WireAppend(ps: seq<F.Packet>, qs: seq<F.Packet>)
    ensures F.Wire(ps + qs) == F.Wire(ps) + F.Wire(qs)
  {
    if ps == [] {
      assert ps + qs == qs;
    } else {
      WireAppend(ps[1..], qs);
      assert (ps + qs)[1..] == ps[1..] + qs;
      Assoc(ps[0].Bytes(), F.Wire(ps[1..]), F.Wire(qs));
    }
  }

  /** The packets in front of position j and the others. */
  lemma WireAt(ps: seq<F.Packet>, j: nat)
    requires j <= |ps|
    ensures var k := |F.Wire(ps[..j])|;
            k <= |F.Wire(ps)| && F.Wire(ps)[k..] == F.Wire(ps[j..])
  {
    WireAppend(ps[..j], ps[j..]);
    assert ps[..j] + ps[j..] == ps;
  }

  /** More packets have more bytes. */
  lemma WireGrows(ps: seq<F.Packet>, i: nat, j: nat)
    requires i < j <= |ps|
    ensures |F.Wire(ps[..i])| < |F.Wire(ps[..j])|
  {
    var more := ps[i..j];
    WireAppend(ps[..i], more);
    assert ps[..i] + more == ps[..j];
    assert F.Wire(more) == more[0].Bytes() + F.Wire(more[1..]) && |more[0].Bytes()| > 0;
  }

  // ---------------------------------------------------------------- one call

  lemma StepCommits(s: State, op: Call)
    requires s.Valid()
    ensures var (t, e) := Step(s, op);
            var added := Tag(false, QueuedBy(e)) + Tag(true, InputBy(e));
            ItemsBy(e) + Tag(false, t.pending) == Tag(false, s.pending) + added
  {
    var (t, e) := Step(s, op);
    StepConserves(s, op);
    if e.FromInput? {
      assert s.pending == [] && t.pending == [];
      assert ItemsBy(e) + [] == ItemsBy(e) == [] + ([] + Tag(true, InputBy(e)));
    } else {
      assert InputBy(e) == [];
      RepliesMove(s.pending, QueuedBy(e), RepliesBy(e), t.pending);
    }
  }

  lemma RepliesMove(pending: seq<byte>, queued: seq<byte>, read: seq<byte>, later: seq<byte>)
    requires pending + queued == read + later
    ensures (Tag(false, read) + Tag(true, [])) + Tag(false, later)
         == Tag(false, pending) + (Tag(false, queued) + Tag(true, []))
  {
    TagAppend(false, pending, queued);
    TagAppend(false, read, later);
    assert Tag(false, read) + Tag(true, []) == Tag(false, read);
    assert Tag(false, queued) + Tag(true, []) == Tag(false, queued);
  }

  /** A call adds to the end of what is committed: what it queues, or the input it delivers. */
  lemma CommittedSnoc(s: State, ops: seq<Call>)
    requires s.Valid() && ops != []
    ensures var before := Run(s, ops[..|ops| - 1]);
            var e := Step(before.state, ops[|ops| - 1]).1;
            Committed(Run(s, ops)) == Committed(before) + (Tag(false, QueuedBy(e)) + Tag(true, InputBy(e)))
  {
    var before := Run(s, ops[..|ops| - 1]);
    var (t, e) := Step(before.state, ops[|ops| - 1]);
    StepCommits(before.state, ops[|ops| - 1]);
    assert (before.trace + [e])[..|before.trace|] == before.trace;
    Assoc(Delivered(before.trace), ItemsBy(e), Tag(false, t.pending));
    Assoc(Delivered(before.trace), Tag(false, before.state.pending), Tag(false, QueuedBy(e)) + Tag(true, InputBy(e)));
  }

  /** Only a write that queues a reply changes the stream: it inserts the reply before the unread input. */
  lemma StreamSnocs(s: State, ops: seq<Call>)
    requires s.Valid() && ops != []
    ensures var before := Run(s, ops[..|ops| - 1]);
            var q := QueuedBy(Step(before.state, ops[|ops| - 1]).1);
            Stream(Run(s, ops)) == Committed(before) + (Tag(false, q) + Tag(true, before.state.Unread()))
  {
    var before := Run(s, ops[..|ops| - 1]);
    var (t, e) := Step(before.state, ops[|ops| - 1]);
    CommittedSnoc(s, ops);
    UnreadStep(before.state, ops[|ops| - 1]);
    assert Run(s, ops).state == t;
    Regrouped(Committed(before), Tag(false, QueuedBy(e)), Tag(true, InputBy(e)), Tag(true, t.Unread()),
              Tag(true, before.state.Unread()));
  }

  lemma UnreadStep(s: State, op: Call)
    requires s.Valid()
    ensures var (t, e) := Step(s, op);
            Tag(true, InputBy(e)) + Tag(true, t.Unread()) == Tag(true, s.Unread())
  {
    var (t, e) := Step(s, op);
    StepConserves(s, op);
    DropJoin(s.input, s.inOff, t.inOff);
    TagAppend(true, InputBy(e), t.Unread());
  }

  lemma Regrouped<T>(c: seq<T>, q: seq<T>, i: seq<T>, later: seq<T>, unread: seq<T>)
    requires i + later == unread
    ensures (c + (q + i)) + later == c + (q + unread)
  {
    Assoc(c, q + i, later);
    Assoc(q, i, later);
  }

  // ---------------------------------------------------------------- whole runs

  /** What is committed at some moment stays the beginning of what is committed. */
  lemma {:induction false} CommittedGrows(s: State, ops: seq<Call>, i: nat)
    requires s.Valid() && i <= |ops|
    ensures Committed(Run(s, ops[..i])) <= Committed(Run(s, ops))
  {
    if i == |ops| {
      assert ops[..i] == ops;
    } else {
      var front := ops[..|ops| - 1];
      CommittedGrows(s, front, i);
      assert front[..i] == ops[..i];
      CommittedSnoc(s, ops);
    }
  }

  lemma {:induction false} CommittedInput(s: State, ops: seq<Call>)
    requires s.Valid()
    ensures var r := Run(s, ops);
            && BytesFrom(true, Committed(r)) == Collect(r.trace, InputBy)
            && BytesFrom(false, Committed(r)) == s.pending + Collect(r.trace, QueuedBy)
  {
    if ops == [] {
      BytesOfTag(true, false, s.pending);
      BytesOfTag(false, false, s.pending);
      assert Committed(Run(s, ops)) == Tag(false, s.pending);
      assert s.pending + [] == s.pending;
    } else {
      var before := Run(s, ops[..|ops| - 1]);
      var e := Step(before.state, ops[|ops| - 1]).1;
      CommittedInput(s, ops[..|ops| - 1]);
      CommittedSnoc(s, ops);
      AddedBytes(Committed(before), QueuedBy(e), InputBy(e));
      CollectSnoc(before.trace, e, InputBy);
      CollectSnoc(before.trace, e, QueuedBy);
      Assoc(s.pending, Collect(before.trace, QueuedBy), QueuedBy(e));
    }
  }

  lemma AddedBytes(x: seq<Item>, queued: seq<byte>, input: seq<byte>)
    ensures var y := x + (Tag(false, queued) + Tag(true, input));
            BytesFrom(true, y) == BytesFrom(true, x) + input && BytesFrom(false, y) == BytesFrom(false, x) + queued
  {
    forall src: bool
      ensures BytesFrom(src, x + (Tag(false, queued) + Tag(true, input)))
           == BytesFrom(src, x) + if src then input else queued
    {
      BytesAppend(src, x, Tag(false, queued) + Tag(true, input));
      BytesAppend(src, Tag(false, queued), Tag(true, input));
      BytesOfTag(src, false, queued);
      BytesOfTag(src, true, input);
    }
  }

  /** The sources of the stream: the unread input of the start, and the replies queued. */
  lemma StreamSources(s: State, ops: seq<Call>)
    requires s.Valid() && s.pending == []
    ensures var r := Run(s, ops);
            && BytesFrom(true, Stream(r)) == s.Unread()
            && BytesFrom(false, Stream(r)) == Collect(r.trace, QueuedBy)
  {
    var r := Run(s, ops);
    CommittedInput(s, ops);
    InputConserved(s, ops);
    TailBytes(Committed(r), r.state.Unread());
    DropJoin(s.input, s.inOff, r.state.inOff);
    assert [] + Collect(r.trace, QueuedBy) == Collect(r.trace, QueuedBy);
  }

  lemma TailBytes(x: seq<Item>, unread: seq<byte>)
    ensures BytesFrom(true, x + Tag(true, unread)) == BytesFrom(true, x) + unread
    ensures BytesFrom(false, x + Tag(true, unread)) == BytesFrom(false, x)
  {
    BytesAppend(true, x, Tag(true, unread));
    BytesAppend(false, x, Tag(true, unread));
    BytesOfTag(true, true, unread);
    BytesOfTag(false, true, unread);
    assert BytesFrom(false, x) + [] == BytesFrom(false, x);
  }

  lemma DropJoin<T>(x: seq<T>, a: nat, b: nat)
    requires a <= b <= |x|
    ensures x[a..b] + x[b..] == x[a..]
  {
  }

  // ---------------------------------------------------------------- whole packets only if aligned

  /** In front of a reply byte of a stream of whole packets there are whole input packets. */
  lemma {:induction false} ReplyOnBoundary(qs: seq<Sourced>, k: nat)
    requires k < |Items(qs)| && !Items(qs)[k].fromInput
    ensures OnBoundary(PacketsFrom(true, qs), |BytesFrom(true, Items(qs)[..k])|)
  {
    var head, rest := Tag(qs[0].fromInput, qs[0].packet.Bytes()), qs[1..];
    var ps, all := PacketsFrom(true, qs), Items(qs);
    if k < |head| {
      assert all[k] == head[k] && !qs[0].fromInput;
      assert all[..k] == Tag(false, qs[0].packet.Bytes()[..k]);
      BytesOfTag(true, false, qs[0].packet.Bytes()[..k]);
      assert |F.Wire(ps[..0])| == 0;
    } else {
      var k' := k - |head|;
      ReplyOnBoundary(rest, k');
      var j :| 0 <= j <= |PacketsFrom(true, rest)|
            && |BytesFrom(true, Items(rest)[..k'])| == |F.Wire(PacketsFrom(true, rest)[..j])|;
      assert all[..k] == head + Items(rest)[..k'];
      BytesAppend(true, head, Items(rest)[..k']);
      BytesOfTag(true, qs[0].fromInput, qs[0].packet.Bytes());
      BoundaryShift(qs, j);
    }
  }

  lemma BoundaryShift(qs: seq<Sourced>, j: nat)
    requires qs != [] && j <= |PacketsFrom(true, qs[1..])|
    ensures var n := if qs[0].fromInput then |qs[0].packet.Bytes()| else 0;
            OnBoundary(PacketsFrom(true, qs), n + |F.Wire(PacketsFrom(true, qs[1..])[..j])|)
  {
    var ps, later := PacketsFrom(true, qs), PacketsFrom(true, qs[1..]);
    if qs[0].fromInput {
      assert ps[..j + 1][1..] == later[..j];
      assert F.Wire(ps[..j + 1]) == qs[0].packet.Bytes() + F.Wire(later[..j]);
    } else {
      assert ps == later;
    }
  }

  /** The first byte of a reply stands in the stream where the committed items ended. */
  lemma ReplyStands(s: State, ops: seq<Call>, i: nat) returns (k: nat)
    requires s.Valid() && i < |ops| && QueuedBy(Run(s, ops).trace[i]) != []
    ensures k < |Committed(Run(s, ops))| && !Committed(Run(s, ops))[k].fromInput
    ensures Committed(Run(s, ops))[..k] == Committed(Run(s, ops[..i]))
  {
    var upto, before := ops[..i + 1], Committed(Run(s, ops[..i]));
    k := |before|;
    assert upto[..|upto| - 1] == ops[..i] && upto[|upto| - 1] == ops[i];
    RunPrefix(s, ops, i);
    CommittedSnoc(s, upto);
    CommittedGrows(s, ops, i + 1);
    var e := Run(s, ops).trace[i];
    PrefixAt(before, Tag(false, QueuedBy(e)), Tag(true, InputBy(e)), Committed(Run(s, ops)));
  }

  lemma PrefixAt(x: seq<Item>, y: seq<Item>, z: seq<Item>, all: seq<Item>)
    requires y != [] && x + (y + z) <= all
    ensures all[..|x|] == x && all[|x|] == y[0]
  {
    var begin := x + (y + z);
    assert begin[..|x|] == x && begin[|x|] == y[0];
    assert all[..|begin|] == begin;
  }

  lemma WholeOnlyIfAligned(s: State, ops: seq<Call>, ps: seq<F.Packet>, qs: seq<Sourced>)
    requires s.Valid() && s.pending == [] && s.Unread() == F.Wire(ps)
    requires Items(qs) == Stream(Run(s, ops))
    ensures Aligned(s, ops, ps)
  {
    forall i | 0 <= i < |ops| && QueuedBy(Run(s, ops).trace[i]) != []
      ensures OnBoundary(ps, Run(s, ops[..i]).state.inOff - s.inOff)
    {
      QueuedOnBoundary(s, ops, ps, qs, i);
    }
  }

  lemma QueuedOnBoundary(s: State, ops: seq<Call>, ps: seq<F.Packet>, qs: seq<Sourced>, i: nat)
    requires s.Valid() && s.pending == [] && s.Unread() == F.Wire(ps)
    requires Items(qs) == Stream(Run(s, ops))
    requires i < |ops| && QueuedBy(Run(s, ops).trace[i]) != []
    ensures OnBoundary(ps, Run(s, ops[..i]).state.inOff - s.inOff)
  {
    var k := ReplyStands(s, ops, i);
    InputPacketsAre(s, ops, ps, qs);
    assert Items(qs) == Committed(Run(s, ops)) + Tag(true, Run(s, ops).state.Unread());
    InFront(Committed(Run(s, ops)), Tag(true, Run(s, ops).state.Unread()), k);
    ReplyOnBoundary(qs, k);
    CommittedInput(s, ops[..i]);
    InputConserved(s, ops[..i]);
  }

  lemma InFront<T>(x: seq<T>, y: seq<T>, k: nat)
    requires k < |x|
    ensures (x + y)[k] == x[k] && (x + y)[..k] == x[..k]
  {
  }

  lemma InputPacketsAre(s: State, ops: seq<Call>, ps: seq<F.Packet>, qs: seq<Sourced>)
    requires s.Valid() && s.pending == [] && s.Unread() == F.Wire(ps)
    requires Items(qs) == Stream(Run(s, ops))
    ensures PacketsFrom(true, qs) == ps
  {
    SourceWire(true, qs);
    StreamSources(s, ops);
    F.WireInjective(PacketsFrom(true, qs), ps);
  }

  // ---------------------------------------------------------------- whole packets if aligned

  lemma AlignedFront(s: State, ops: seq<Call>, ps: seq<F.Packet>)
    requires s.Valid() && ops != [] && Aligned(s, ops, ps)
    ensures Aligned(s, ops[..|ops| - 1], ps)
  {
    var front := ops[..|ops| - 1];
    forall i | 0 <= i < |front| && QueuedBy(Run(s, front).trace[i]) != []
      ensures OnBoundary(ps, Run(s, front[..i]).state.inOff - s.inOff)
    {
      assert front[..i] == ops[..i] && Run(s, ops).trace[i] == Run(s, front).trace[i];
    }
  }

  /** The packets begun so far, and behind them the j-th input packet and all later ones. */
  ghost predicate Segmented(s: State, r: Outcome, ps: seq<F.Packet>, qs: seq<Sourced>, j: nat)
    requires r.state.Valid()
  {
    && j <= |ps| && |F.Wire(ps[..j])| <= r.state.inOff - s.inOff
    && Stream(r) == Items(qs) + Tag(true, F.Wire(ps[j..]))
  }

  /** On the boundary behind b packets, exactly whole packets are committed. */
  lemma AtBoundary(s: State, r: Outcome, ps: seq<F.Packet>, qs: seq<Sourced>, j: nat, b: nat)
    returns (done: seq<Sourced>)
    requires r.state.Valid() && s.Valid() && s.Unread() == F.Wire(ps) && r.state.input == s.input
    requires Segmented(s, r, ps, qs, j)
    requires b <= |ps| && r.state.inOff - s.inOff == |F.Wire(ps[..b])|
    ensures Items(done) == Committed(r) && r.state.Unread() == F.Wire(ps[b..])
  {
    if b < j {
      WireGrows(ps, b, j);
    }
    UnreadAt(s, r.state, ps, b);
    var between, tail := FromInputAll(ps[j..b]), Tag(true, F.Wire(ps[b..]));
    done := qs + between;
    InBetween(ps, j, b);
    ItemsAppend(qs, between);
    Assoc(Items(qs), Items(between), tail);
    SameFront(Items(done), Committed(r), tail);
  }

  lemma UnreadAt(s: State, t: State, ps: seq<F.Packet>, b: nat)
    requires s.Valid() && t.Valid() && s.Unread() == F.Wire(ps) && t.input == s.input
    requires b <= |ps| && t.inOff - s.inOff == |F.Wire(ps[..b])|
    ensures t.Unread() == F.Wire(ps[b..])
  {
    WireAt(ps, b);
    assert t.Unread() == s.Unread()[t.inOff - s.inOff..];
  }

  lemma InBetween(ps: seq<F.Packet>, j: nat, b: nat)
    requires j <= b <= |ps|
    ensures Items(FromInputAll(ps[j..b])) + Tag(true, F.Wire(ps[b..])) == Tag(true, F.Wire(ps[j..]))
  {
    ItemsOfInput(ps[j..b]);
    WireAppend(ps[j..b], ps[b..]);
    assert ps[j..b] + ps[b..] == ps[j..];
    TagAppend(true, F.Wire(ps[j..b]), F.Wire(ps[b..]));
  }

  lemma SameFront<T>(x: seq<T>, y: seq<T>, z: seq<T>)
    requires x + z == y + z
    ensures x == y
  {
    assert |x + z| == |y + z|;
    assert x == (x + z)[..|x|] && y == (y + z)[..|y|];
  }

  lemma {:induction false} Segments(s: State, ops: seq<Call>, ps: seq<F.Packet>)
    returns (qs: seq<Sourced>, j: nat)
    requires s.Valid() && s.pending == [] && s.Unread() == F.Wire(ps) && Aligned(s, ops, ps)
    ensures Segmented(s, Run(s, ops), ps, qs, j)
  {
    if ops == [] {
      qs, j := [], 0;
      assert ps[0..] == ps && F.Wire(ps[..0]) == [];
    } else {
      var n := |ops| - 1;
      var before := Run(s, ops[..n]);
      var e := Step(before.state, ops[n]).1;
      AlignedFront(s, ops, ps);
      qs, j := Segments(s, ops[..n], ps);
      StepConserves(before.state, ops[n]);
      StreamSnocs(s, ops);
      if QueuedBy(e) == [] {
        assert Tag(false, []) + Tag(true, before.state.Unread()) == Tag(true, before.state.Unread());
      } else {
        assert Run(s, ops).trace[n] == e;
        var b :| 0 <= b <= |ps| && before.state.inOff - s.inOff == |F.Wire(ps[..b])|;
        InputConserved(s, ops[..n]);
        var done := AtBoundary(s, before, ps, qs, j, b);
        var p := AnswerPacket(before.state, ops[n]);
        qs, j := done + [Sourced(false, p)], b;
        ItemsSnoc(done, p, Tag(true, F.Wire(ps[b..])));
      }
    }
  }

  lemma AnswerPacket(s: State, op: Call) returns (p: F.Packet)
    requires s.Valid() && QueuedBy(Step(s, op).1) != []
    ensures p.Bytes() == QueuedBy(Step(s, op).1)
  {
    StepAnswers(s, op);
    p :| p.Bytes() == QueuedBy(Step(s, op).1);
  }

  lemma ItemsSnoc(done: seq<Sourced>, p: F.Packet, tail: seq<Item>)
    ensures Items(done + [Sourced(false, p)]) + tail == Items(done) + (Tag(false, p.Bytes()) + tail)
  {
    var last := [Sourced(false, p)];
    ItemsAppend(done, last);
    assert last[1..] == [] && Items(last) == Tag(false, p.Bytes());
    Assoc(Items(done), Items(last), tail);
  }

  // ---------------------------------------------------------------- the main results

  /** The stream is a sequence of packets, none of them interrupted by the other source. */
  ghost predicate Unbroken(r: Outcome)
    requires r.state.Valid()
  {
    exists qs :: Items(qs) == Stream(r)
  }

  /**
   * For an input that is a concatenation of packets: every packet, of the input and of the replies,
   * reaches the caller in one piece if and only if no write queues a reply while an input packet is
   * half read.
   */
  lemma UnbrokenExactly(s: State, ops: seq<Call>, ps: seq<F.Packet>)
    requires s.Valid() && s.pending == [] && s.Unread() == F.Wire(ps)
    ensures Unbroken(Run(s, ops)) <==> Aligned(s, ops, ps)
  {
    if Unbroken(Run(s, ops)) {
      var qs :| Items(qs) == Stream(Run(s, ops));
      WholeOnlyIfAligned(s, ops, ps, qs);
    }
    if Aligned(s, ops, ps) {
      var _ := WholeIfAligned(s, ops, ps);
    }
  }

  lemma WholeIfAligned(s: State, ops: seq<Call>, ps: seq<F.Packet>) returns (all: seq<Sourced>)
    requires s.Valid() && s.pending == [] && s.Unread() == F.Wire(ps) && Aligned(s, ops, ps)
    ensures Items(all) == Stream(Run(s, ops)) && Unbroken(Run(s, ops))
  {
    var qs, j := Segments(s, ops, ps);
    all := qs + FromInputAll(ps[j..]);
    ItemsAppend(qs, FromInputAll(ps[j..]));
    ItemsOfInput(ps[j..]);
  }

  // ---------------------------------------------------------------- what the caller sees, as bytes

  lemma ValuesAppend(x: seq<Item>, y: seq<Item>)
    ensures Values(x + y) == Values(x) + Values(y)
  {
  }

  lemma ValuesTag(fromInput: bool, bytes: seq<byte>)
    ensures Values(Tag(fromInput, bytes)) == bytes
  {
  }

  lemma {:induction false} ValuesOfItems(qs: seq<Sourced>)
    ensures Values(Items(qs)) == F.Wire(Packets(qs))
  {
    if qs != [] {
      ValuesOfItems(qs[1..]);
      ValuesAppend(Tag(qs[0].fromInput, qs[0].packet.Bytes()), Items(qs[1..]));
      ValuesTag(qs[0].fromInput, qs[0].packet.Bytes());
      assert Packets(qs)[1..] == Packets(qs[1..]);
    }
  }

  lemma {:induction false} ValuesDelivered(trace: seq<Event>)
    ensures Values(Delivered(trace)) == Collect(trace, StreamBy)
  {
    if trace != [] {
      var front, e := trace[..|trace| - 1], trace[|trace| - 1];
      ValuesDelivered(front);
      ValuesAppend(Delivered(front), ItemsBy(e));
      ValuesAppend(Tag(false, RepliesBy(e)), Tag(true, InputBy(e)));
      ValuesTag(false, RepliesBy(e));
      ValuesTag(true, InputBy(e));
    }
  }

  lemma ValuesOfStream(r: Outcome)
    requires r.state.Valid()
    ensures Values(Stream(r)) == Collect(r.trace, StreamBy) + Left(r.state)
  {
    ValuesDelivered(r.trace);
    ValuesAppend(Delivered(r.trace), Tag(false, r.state.pending));
    ValuesAppend(Committed(r), Tag(true, r.state.Unread()));
    ValuesTag(false, r.state.pending);
    ValuesTag(true, r.state.Unread());
    Assoc(Collect(r.trace, StreamBy), r.state.pending, r.state.Unread());
  }

  lemma AllShort(qs: seq<Sourced>)
    requires F.Short(PacketsFrom(true, qs)) && F.Short(PacketsFrom(false, qs))
    ensures F.Short(Packets(qs))
  {
    forall src: bool
      ensures forall q :: q in qs && q.fromInput == src ==> q.packet in PacketsFrom(src, qs)
    {
      Kept(src, qs);
    }
    forall i | 0 <= i < |qs|
      ensures |Packets(qs)[i].body| < F.RL.LIMIT
    {
      assert qs[i].packet in PacketsFrom(qs[i].fromInput, qs);
    }
  }

  lemma {:induction false} Kept(src: bool, qs: seq<Sourced>)
    ensures forall q :: q in qs && q.fromInput == src ==> q.packet in PacketsFrom(src, qs)
  {
    if qs != [] {
      Kept(src, qs[1..]);
      assert forall q :: q in qs <==> q == qs[0] || q in qs[1..];
    }
  }

  /**
   * If no write queues a reply while an input packet is half read, then what the caller receives,
   * cut by length prefix, is the input packets and one reply per answered write, each in order.
   */
  lemma AlignedSplits(s: State, ops: seq<Call>, ps: seq<F.Packet>) returns (qs: seq<Sourced>)
    requires s.Valid() && s.pending == [] && s.Unread() == F.Wire(ps) && F.Short(ps)
    requires Aligned(s, ops, ps)
    ensures var r := Run(s, ops);
            && F.Split(Collect(r.trace, StreamBy) + Left(r.state)) == Some(Packets(qs))
            && PacketsFrom(true, qs) == ps
            && F.SplitsInto(Some(PacketsFrom(false, qs)), Answers(s.autopilot, s.mode, ops))
  {
    qs := WholeIfAligned(s, ops, ps);
    InputPacketsAre(s, ops, ps, qs);
    ReplyPacketsAre(s, ops, qs);
    AllShort(qs);
    ValuesOfItems(qs);
    ValuesOfStream(Run(s, ops));
    F.SplitWire(Packets(qs));
  }

  lemma ReplyPacketsAre(s: State, ops: seq<Call>, qs: seq<Sourced>)
    requires s.Valid() && s.pending == [] && Items(qs) == Stream(Run(s, ops))
    ensures F.Short(PacketsFrom(false, qs))
    ensures F.SplitsInto(Some(PacketsFrom(false, qs)), Answers(s.autopilot, s.mode, ops))
  {
    SourceWire(false, qs);
    StreamSources(s, ops);
    QueuedIsAnswered(s, ops);
    var rs := PacketsBehind(Answers(s.autopilot, s.mode, ops));
    F.WireInjective(PacketsFrom(false, qs), rs);
  }

  // ---------------------------------------------------------------- without alignment

  const PINGREQ: seq<byte> := [0xC0, 0x00]
  const PINGRESP: seq<byte> := [0xD0, 0x00]

  /** Reads n bytes of the input, then writes a PINGREQ. */
  function PingBehind(n: nat): seq<Call> {
    [Read(n), Write(PINGREQ, 2, true)]
  }

  function Opened(input: seq<byte>): State {
    State(input, 0, [], true, true, Handshake, 0, 0)
  }

  lemma StepPing(t: State)
    requires t.Valid() && t.autopilot && t.mode == Handshake && t.pending == []
    ensures Step(t, Write(PINGREQ, 2, true)) == (t.(pending := PINGRESP), Wrote(2, PINGRESP))
  {
    HandshakeAnswersPing();
    assert PINGREQ[..2] == PINGREQ && Queues(t, PINGREQ, 2, true) == PINGRESP;
    assert [] + PINGRESP == PINGRESP;
  }

  lemma RunPing(input: seq<byte>, n: nat)
    requires 0 < n < |input|
    ensures var s, ops := Opened(input), PingBehind(n);
            && Run(s, ops[..1]).state == s.(inOff := n)
            && Run(s, ops) == Outcome(s.(inOff := n, pending := PINGRESP),
                                      [FromInput(input[..n]), Wrote(2, PINGRESP)])
  {
    var s := Opened(input);
    assert PingBehind(n)[..1] == [Read(n)];
    assert Step(s, Read(n)) == (s.(inOff := n), FromInput(input[..n]));
    StepPing(s.(inOff := n));
    RunTwo(s, Read(n), Write(PINGREQ, 2, true));
  }

  lemma RunTwo(s: State, a: Call, b: Call)
    requires s.Valid()
    ensures var (t, e) := Step(s, a);
            var (u, f) := Step(t, b);
            Run(s, [a]) == Outcome(t, [e]) && Run(s, [a, b]) == Outcome(u, [e, f])
  {
    var (t, e) := Step(s, a);
    RunSnoc(s, [], a);
    RunSnoc(s, [a], b);
    assert [] + [a] == [a] && [a] + [b] == [a, b] && [] + [e] == [e];
    assert Run(s, []) == Outcome(s, []);
  }

  lemma TwoEvents(e: Event, f: Event)
    ensures Collect([e, f], StreamBy) == StreamBy(e) + StreamBy(f)
  {
    CollectSnoc([], e, StreamBy);
    CollectSnoc([e], f, StreamBy);
    assert [] + [e] == [e] && [e] + [f] == [e, f];
    assert Collect([e], StreamBy) == [] + StreamBy(e) == StreamBy(e);
  }

  lemma PingStream(input: seq<byte>, n: nat)
    requires 0 < n < |input|
    ensures var r := Run(Opened(input), PingBehind(n));
            Collect(r.trace, StreamBy) + Left(r.state) == input[..n] + PINGRESP + input[n..]
  {
    var e, f := FromInput(input[..n]), Wrote(2, PINGRESP);
    RunPing(input, n);
    TwoEvents(e, f);
    assert StreamBy(e) == input[..n] && StreamBy(f) == [];
    assert input[..n] + [] == input[..n];
    Assoc(input[..n], PINGRESP, input[n..]);
  }

  /** A PINGRESP inside a CONNACK: no length prefix fits what the caller receives. */
  lemma SplicedReply()
    ensures var r := Run(Opened([0x20, 0x02, 0x00, 0x00]), PingBehind(1));
            F.Split(Collect(r.trace, StreamBy) + Left(r.state)) == None
  {
    PingStream([0x20, 0x02, 0x00, 0x00], 1);
    var x: seq<byte> := [0x20, 0xD0, 0x00, 0x02, 0x00, 0x00];
    assert [0x20, 0x02, 0x00, 0x00][..1] + PINGRESP + [0x20, 0x02, 0x00, 0x00][1..] == x;
    assert F.TakePacket(x) == None;
  }

  const PUBLISH: F.Packet := F.Packet(0x30, [0xD0, 0x00])

  /**
   * Splitting the bytes is no test for it: this PINGRESP comes in the middle of a PUBLISH, and the
   * bytes still are those of the PUBLISH with the PINGRESP behind it.
   */
  lemma SplicedUnnoticed()
    ensures var s, ops := Opened(PUBLISH.Bytes()), PingBehind(2);
            && s.Unread() == F.Wire([PUBLISH]) && !Aligned(s, ops, [PUBLISH])
            && F.Split(Collect(Run(s, ops).trace, StreamBy) + Left(Run(s, ops).state))
               == Some([PUBLISH, F.Packet(0xD0, [])])
  {
    PublishBytes();
    SameBytes(PUBLISH, F.Packet(0xD0, []));
    PingStream(PUBLISH.Bytes(), 2);
    HalfRead(PUBLISH);
  }

  lemma PublishBytes()
    ensures PUBLISH.Bytes() == [0x30, 0x02] + PINGRESP && F.Packet(0xD0, []).Bytes() == PINGRESP
  {
  }

  lemma SameBytes(p: F.Packet, q: F.Packet)
    requires p.Bytes() == [0x30, 0x02] + PINGRESP && q.Bytes() == PINGRESP
    requires |p.body| == 2 && |q.body| == 0
    ensures Opened(p.Bytes()).Unread() == F.Wire([p])
    ensures F.Split(p.Bytes()[..2] + PINGRESP + p.Bytes()[2..]) == Some([p, q])
  {
    var x := p.Bytes();
    WireOf(p, q);
    assert x[0..] == x && x[..2] == [0x30, 0x02] && x[2..] == PINGRESP;
    F.SplitWire([p, q]);
  }

  lemma HalfRead(p: F.Packet)
    requires |p.Bytes()| == 4
    ensures !Aligned(Opened(p.Bytes()), PingBehind(2), [p])
  {
    RunPing(p.Bytes(), 2);
    assert [p][..0] == [] && [p][..1] == [p];
    WireOf(p, p);
    assert !OnBoundary([p], 2);
    assert QueuedBy(Run(Opened(p.Bytes()), PingBehind(2)).trace[1]) != [];
  }

  lemma WireOf(p: F.Packet, q: F.Packet)
    ensures F.Wire([p]) == p.Bytes() && F.Wire([p, q]) == p.Bytes() + q.Bytes()
  {
    assert [p, q][1..] == [q] && [q][1..] == [] && [p][1..] == [];
  }
}
