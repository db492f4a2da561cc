/**
 * The interleaved event group refines an atomic one: the calls of any run, in the order they
 * return, are a run of a group whose four functions take effect in a single step.
 */
module EventGroupAtomic {
  import opened Bytes
  import opened EventGroupSpec
  import opened EventGroupRuns

  datatype Effect = Effect(out: Bits, after: Bits)

  /** One call as a single step: what it returns and the bits it leaves; a wait may have to wait. */
  function Atomic(c: Call, bits: Bits): Option<Effect> {
    match c
    case SetBits(b) => Some(Effect(bits + b, bits + b))
    case ClearBits(b) => Some(Effect(bits - b, bits - b))
    case GetBits => Some(Effect(bits, bits))
    case WaitBits(want, clear, _) =>
      if Satisfied(c, bits) then Some(Effect(bits, if clear then bits - want else bits)) else None
  }

  /** The bits after the returned calls are replayed one at a time, each returning what it returned. */
  function Replay(h: seq<Note>): Option<Bits> {
    if h == [] then Some({})
    else
      var n := h[|h| - 1];
      var bits :- Replay(h[..|h| - 1]);
      if n.DidSet? then Some(bits)
      else
        var e :- Atomic(n.call, bits);
        if e.out == n.out then Some(e.after) else None
  }

  /** How the group's bits differ from the replayed ones while a thread is between its statements. */
  predicate Midway(pc: Pc, replayed: Bits, bits: Bits) {
    match pc
    case Announcing(c) => c.SetBits? && bits == replayed + c.bits
    case ReadBack(c) =>
      (c.SetBits? && bits == replayed + c.bits) || (c.ClearBits? && bits == replayed - c.bits)
    case Unlocking(c, out) => Atomic(c, replayed) == Some(Effect(out, bits))
    case _ => bits == replayed
  }

  ghost predicate Refines(s: State) {
    && Replay(s.history).Some?
    && (s.holder == None ==> s.bits == Replay(s.history).value)
    && (s.holder.Some? && s.holder.value in s.threads ==>
          Midway(s.threads[s.holder.value], Replay(s.history).value, s.bits))
  }

  lemma ReplaySnoc(h: seq<Note>, n: Note)
    requires Replay(h).Some?
    ensures n.DidSet? ==> Replay(h + [n]) == Replay(h)
    ensures n.Returned? && Atomic(n.call, Replay(h).value).Some?
            && Atomic(n.call, Replay(h).value).value.out == n.out ==>
              Replay(h + [n]) == Some(Atomic(n.call, Replay(h).value).value.after)
  {
    assert (h + [n])[..|h|] == h;
  }

  lemma ExecuteRefines(s: State, t: Tid, c: Call)
    requires Inv(s) && Refines(s) && t in s.threads && s.threads[t] == Body(c)
    ensures Refines(Execute(s, t, c))
  {
    assert s.holder == Some(t);
    if c.SetBits? {
      ReplaySnoc(s.history, DidSet(c.bits));
    }
  }

  lemma AdvanceRefines(s: State, t: Tid)
    requires Inv(s) && Refines(s) && t in s.threads && Advance(s, t).Some?
    ensures Refines(Advance(s, t).value)
  {
    assert PcOk(s.threads[t], s.bits, Pending(s));
    match s.threads[t] {
      case Body(c) => ExecuteRefines(s, t, c);
      case Unlocking(c, out) => ReplaySnoc(s.history, Returned(c, out));
      case _ =>
    }
  }

  lemma OutsideRefines(s: State, t: Tid, pc: Pc)
    requires Inv(s) && Refines(s) && t in s.threads && !Holding(s.threads[t]) && !Holding(pc)
    ensures Refines(s.At(t, pc))
  {
  }

  lemma {:induction false} RunRefines(threads: set<Tid>, ls: seq<Label>)
    requires Run(Initial(threads), ls).Some?
    ensures Refines(Run(Initial(threads), ls).value)
  {
    if ls != [] {
      var s, l := Run(Initial(threads), ls[..|ls| - 1]).value, ls[|ls| - 1];
      RunRefines(threads, ls[..|ls| - 1]);
      RunKeeps(threads, ls[..|ls| - 1]);
      match l
      case Start(t, c) => OutsideRefines(s, t, Locking(c));
      case Go(t) => AdvanceRefines(s, t);
      case Spurious(t) => OutsideRefines(s, t, Woken(s.threads[t].call));
    }
  }

  /**
   * In every interleaving the returned calls, in return order, replay as atomic steps with the
   * results they actually returned, and whenever the mutex is free the replay ends in the bits
   * the group holds.
   */
  lemma Linearizable(s: State)
    requires Reachable(s)
    ensures Replay(s.history).Some?
    ensures s.holder == None ==> Replay(s.history) == Some(s.bits)
  {
    var threads: set<Tid>, ls: seq<Label> :| Run(Initial(threads), ls) == Some(s);
    RunRefines(threads, ls);
  }

  /**
   * What a thread about to unlock leaves behind: a wait that clears takes exactly the bits it wanted
   * out of those it returns, and every other call returns the bits as they are.
   */
  lemma LeavesBehind(s: State, t: Tid)
    requires Reachable(s) && t in s.threads && s.threads[t].Unlocking?
    ensures var c, out := s.threads[t].call, s.threads[t].out;
            s.bits == if c.WaitBits? && c.clear then out - c.want else out
  {
    var threads: set<Tid>, ls: seq<Label> :| Run(Initial(threads), ls) == Some(s);
    RunRefines(threads, ls);
    ReachableInv(s);
    assert s.holder == Some(t);
  }
}
