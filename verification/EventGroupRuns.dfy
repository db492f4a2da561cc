/** What holds in every interleaving of the event group. */
module EventGroupRuns {
  import opened Bytes
  import opened EventGroupSpec

  // ---------------------------------------------------------------- the invariant

  /** What a call may return: its own condition, or the effect of its own update. */
  predicate Promised(c: Call, out: Bits) {
    match c
    case SetBits(b) => b <= out
    case ClearBits(b) => b !! out
    case GetBits => true
    case WaitBits(_, _, _) => Satisfied(c, out)
  }

  /** The thread that holds the mutex has changed the bits and not broadcast yet. */
  predicate Pending(s: State) {
    s.holder.Some? && s.holder.value in s.threads && s.threads[s.holder.value].Announcing?
  }

  /** What is known of a thread by where it is. */
  predicate PcOk(pc: Pc, bits: Bits, pending: bool) {
    match pc
    case Asleep(c) => c.WaitBits? && (Satisfied(c, bits) ==> pending)
    case Woken(c) => c.WaitBits?
    case Took(c, out) => c.WaitBits? && out == bits && Satisfied(c, out)
    case Announcing(c) => c.SetBits? && c.bits <= bits
    case ReadBack(c) => (c.SetBits? || c.ClearBits?) && Promised(c, bits)
    case Unlocking(c, out) => Promised(c, out)
    case _ => true
  }

  /** wait_for_all_bits asks for every wanted bit, without it one of them is enough. */
  lemma SatisfiedMeans(c: Call, bits: Bits)
    requires c.WaitBits?
    ensures Satisfied(c, bits) <==> if c.all then c.want <= bits else exists b :: b in c.want && b in bits
  {
    if c.all {
      assert forall b :: b in bits * c.want <==> b in bits && b in c.want;
    } else {
      assert forall b :: b in bits && b in c.want ==> b in bits * c.want;
    }
  }

  ghost predicate MutexOk(s: State) {
    && (s.holder.Some? ==> s.holder.value in s.threads)
    && forall t :: t in s.threads ==> (Holding(s.threads[t]) <==> s.holder == Some(t))
  }

  ghost predicate ThreadsOk(s: State) {
    forall t :: t in s.threads ==> PcOk(s.threads[t], s.bits, Pending(s))
  }

  ghost predicate HistoryOk(h: seq<Note>) {
    forall i :: 0 <= i < |h| ==> h[i].Returned? ==> Promised(h[i].call, h[i].out)
  }

  /** A wait that clears on exit and whose result holds bit b among the bits it waited for. */
  predicate Takes(c: Call, out: Bits, b: Bit) {
    c.WaitBits? && c.clear && b in c.want && b in out
  }

  /** Returned clearing waits that hold bit b. */
  function Taken(h: seq<Note>, b: Bit): nat {
    if h == [] then 0
    else
      var n := h[|h| - 1];
      Taken(h[..|h| - 1], b) + if n.Returned? && Takes(n.call, n.out, b) then 1 else 0
  }

  /** SetBits calls that included bit b. */
  function Given(h: seq<Note>, b: Bit): nat {
    if h == [] then 0
    else
      var n := h[|h| - 1];
      Given(h[..|h| - 1], b) + if n.DidSet? && b in n.bits then 1 else 0
  }

  /** The mutex holder has cleared b for itself and is about to return. */
  predicate Leaving(s: State, b: Bit) {
    s.holder.Some? && s.holder.value in s.threads
    && var pc := s.threads[s.holder.value]; pc.Unlocking? && Takes(pc.call, pc.out, b)
  }

  function One(p: bool): nat {
    if p then 1 else 0
  }

  /** Every taken bit, and every bit still set, is backed by a SetBits of its own. */
  ghost predicate BitOk(s: State, b: Bit) {
    Taken(s.history, b) + One(Leaving(s, b)) + One(b in s.bits) <= Given(s.history, b)
  }

  ghost predicate Inv(s: State) {
    MutexOk(s) && ThreadsOk(s) && HistoryOk(s.history) && forall b: Bit :: BitOk(s, b)
  }

  // ---------------------------------------------------------------- one step

  lemma NoteCounts(h: seq<Note>, n: Note, b: Bit)
    ensures Taken(h + [n], b) == Taken(h, b) + One(n.Returned? && Takes(n.call, n.out, b))
    ensures Given(h + [n], b) == Given(h, b) + One(n.DidSet? && b in n.bits)
  {
    assert (h + [n])[..|h|] == h;
  }

  /** A condition that is false stays false when bits are cleared. */
  lemma StaysFalse(c: Call, bits: Bits, fewer: Bits)
    requires c.WaitBits? && fewer <= bits && Satisfied(c, fewer)
    ensures Satisfied(c, bits)
  {
    if c.all {
      forall b | b in c.want
        ensures b in bits
      {
        assert b in fewer * c.want;
      }
    } else {
      var b :| b in fewer * c.want;
      assert b in bits * c.want;
    }
  }

  /** A thread without the mutex is not disturbed by cleared bits, nor by new ones still to be announced. */
  lemma BystanderOk(pc: Pc, bits: Bits, pending: bool, bits': Bits, pending': bool)
    requires PcOk(pc, bits, pending) && !Holding(pc)
    requires pending' || (bits' <= bits && (pc.Asleep? ==> !pending))
    ensures PcOk(pc, bits', pending')
  {
    if pc.Asleep? && Satisfied(pc.call, bits') && !pending' {
      StaysFalse(pc.call, bits, bits');
    }
  }

  /** The step moves thread t alone: to pc, with these bits and this holder. */
  ghost predicate MovesOne(s: State, s': State, t: Tid, pc: Pc) {
    && t in s.threads && s'.threads == s.threads[t := pc]
    && (s'.holder == s.holder || (s.holder == None && s'.holder == Some(t))
        || (s.holder == Some(t) && s'.holder == None))
    && (s.holder == Some(t) <==> Holding(s.threads[t]))
    && (s'.holder == Some(t) <==> Holding(pc))
  }

  lemma MutexKept(s: State, s': State, t: Tid, pc: Pc)
    requires MutexOk(s) && MovesOne(s, s', t, pc)
    ensures MutexOk(s')
  {
    forall u | u in s'.threads
      ensures Holding(s'.threads[u]) <==> s'.holder == Some(u)
    {
      if u != t {
        assert s'.threads[u] == s.threads[u];
      }
    }
  }

  /** Bits only shrink, or an announcement is due: the other threads keep what is known of them. */
  lemma ThreadsKept(s: State, s': State, t: Tid, pc: Pc)
    requires MutexOk(s) && ThreadsOk(s) && MovesOne(s, s', t, pc)
    requires PcOk(pc, s'.bits, Pending(s'))
    requires s'.bits == s.bits || s.holder == Some(t)
    requires Pending(s') || (s'.bits <= s.bits && !Pending(s))
    ensures ThreadsOk(s')
  {
    forall u | u in s'.threads
      ensures PcOk(s'.threads[u], s'.bits, Pending(s'))
    {
      if u != t {
        assert s'.threads[u] == s.threads[u] && PcOk(s.threads[u], s.bits, Pending(s));
        if Holding(s.threads[u]) {
          assert s.holder == Some(u) && s'.bits == s.bits;
        } else {
          BystanderOk(s.threads[u], s.bits, Pending(s), s'.bits, Pending(s'));
        }
      }
    }
  }

  lemma AcquireKeeps(s: State, t: Tid, c: Call)
    requires Inv(s) && t in s.threads && s.holder == None
    requires s.threads[t] == Locking(c) || s.threads[t] == Woken(c)
    ensures Inv(s.At(t, Body(c)).(holder := Some(t)))
  {
    var s' := s.At(t, Body(c)).(holder := Some(t));
    MutexKept(s, s', t, Body(c));
    ThreadsKept(s, s', t, Body(c));
    forall b: Bit
      ensures BitOk(s', b)
    {
      assert BitOk(s, b);
    }
  }

  lemma OutsideKeeps(s: State, t: Tid, pc: Pc)
    requires Inv(s) && t in s.threads
    requires (s.threads[t].Idle? && pc.Locking?) || (s.threads[t].Asleep? && pc == Woken(s.threads[t].call))
    ensures Inv(s.At(t, pc))
  {
    var s' := s.At(t, pc);
    assert PcOk(s.threads[t], s.bits, Pending(s));
    MutexKept(s, s', t, pc);
    assert Pending(s') == Pending(s);
    forall u | u in s'.threads
      ensures PcOk(s'.threads[u], s'.bits, Pending(s'))
    {
      assert u != t ==> PcOk(s.threads[u], s.bits, Pending(s));
    }
    forall b: Bit
      ensures BitOk(s', b)
    {
      assert BitOk(s, b) && Leaving(s', b) == Leaving(s, b);
    }
  }

  lemma SetKeeps(s: State, t: Tid, c: Call)
    requires Inv(s) && t in s.threads && s.threads[t] == Body(c) && c.SetBits?
    ensures Inv(Execute(s, t, c))
  {
    var s' := Execute(s, t, c);
    MutexKept(s, s', t, Announcing(c));
    ThreadsKept(s, s', t, Announcing(c));
    forall b: Bit
      ensures BitOk(s', b)
    {
      assert BitOk(s, b) && !Leaving(s, b) && !Leaving(s', b);
      NoteCounts(s.history, DidSet(c.bits), b);
    }
  }

  /** Statements of the mutex holder that add no bit and write no note. */
  lemma QuietKeeps(s: State, s': State, t: Tid, pc: Pc)
    requires Inv(s) && s.holder == Some(t) && MovesOne(s, s', t, pc) && !Pending(s) && !pc.Announcing?
    requires PcOk(pc, s'.bits, false) && s'.bits <= s.bits && s'.history == s.history
    requires s'.holder == s.holder || s'.holder == None
    requires forall b: Bit :: pc.Unlocking? && Takes(pc.call, pc.out, b) ==> b in s.bits && b !in s'.bits
    ensures Inv(s')
  {
    assert !Pending(s');
    MutexKept(s, s', t, pc);
    ThreadsKept(s, s', t, pc);
    forall b: Bit
      ensures BitOk(s', b)
    {
      assert BitOk(s, b);
    }
  }

  lemma AnnounceKeeps(s: State, t: Tid, c: Call)
    requires Inv(s) && t in s.threads && s.threads[t] == Announcing(c)
    ensures Inv(s.(threads := WakeAll(s.threads)).At(t, ReadBack(c)))
  {
    var s' := s.(threads := WakeAll(s.threads)).At(t, ReadBack(c));
    assert PcOk(s.threads[t], s.bits, Pending(s));
    forall u | u in s'.threads
      ensures Holding(s'.threads[u]) <==> s'.holder == Some(u)
      ensures PcOk(s'.threads[u], s'.bits, Pending(s'))
    {
      if u != t {
        assert PcOk(s.threads[u], s.bits, Pending(s));
        assert !Holding(s.threads[u]);
      }
    }
    forall b: Bit
      ensures BitOk(s', b)
    {
      assert BitOk(s, b) && !Leaving(s', b);
    }
  }

  lemma ReturnKeeps(s: State, t: Tid, c: Call, out: Bits)
    requires Inv(s) && t in s.threads && s.threads[t] == Unlocking(c, out)
    ensures Inv(s.At(t, Idle).(holder := None).Log(Returned(c, out)))
  {
    var s' := s.At(t, Idle).(holder := None).Log(Returned(c, out));
    assert PcOk(s.threads[t], s.bits, Pending(s));
    MutexKept(s, s', t, Idle);
    ThreadsKept(s, s', t, Idle);
    forall b: Bit
      ensures BitOk(s', b)
    {
      assert BitOk(s, b);
      NoteCounts(s.history, Returned(c, out), b);
    }
  }

  lemma ExecuteKeeps(s: State, t: Tid, c: Call)
    requires Inv(s) && t in s.threads && s.threads[t] == Body(c)
    ensures Inv(Execute(s, t, c))
  {
    var s' := Execute(s, t, c);
    match c
    case SetBits(_) => SetKeeps(s, t, c);
    case ClearBits(_) => QuietKeeps(s, s', t, ReadBack(c));
    case GetBits => QuietKeeps(s, s', t, Unlocking(c, s.bits));
    case WaitBits(_, _, _) =>
      QuietKeeps(s, s', t, if Satisfied(c, s.bits) then Took(c, s.bits) else Asleep(c));
  }

  lemma TookKeeps(s: State, t: Tid, c: Call, out: Bits)
    requires Inv(s) && t in s.threads && s.threads[t] == Took(c, out)
    ensures Inv(Advance(s, t).value)
  {
    assert PcOk(s.threads[t], s.bits, Pending(s));
    QuietKeeps(s, Advance(s, t).value, t, Unlocking(c, out));
  }

  lemma AdvanceKeeps(s: State, t: Tid)
    requires Inv(s) && t in s.threads && Advance(s, t).Some?
    ensures Inv(Advance(s, t).value)
  {
    match s.threads[t]
    case Locking(c) => AcquireKeeps(s, t, c);
    case Woken(c) => AcquireKeeps(s, t, c);
    case Body(c) => ExecuteKeeps(s, t, c);
    case Announcing(c) => AnnounceKeeps(s, t, c);
    case ReadBack(c) =>
      assert PcOk(s.threads[t], s.bits, Pending(s));
      QuietKeeps(s, Advance(s, t).value, t, Unlocking(c, s.bits));
    case Took(c, out) => TookKeeps(s, t, c, out);
    case Unlocking(c, out) => ReturnKeeps(s, t, c, out);
  }

  // ---------------------------------------------------------------- every run

  lemma {:induction false} RunKeeps(threads: set<Tid>, ls: seq<Label>)
    requires Run(Initial(threads), ls).Some?
    ensures Inv(Run(Initial(threads), ls).value)
  {
    if ls != [] {
      var s, l := Run(Initial(threads), ls[..|ls| - 1]).value, ls[|ls| - 1];
      RunKeeps(threads, ls[..|ls| - 1]);
      match l
      case Start(t, c) => OutsideKeeps(s, t, Locking(c));
      case Go(t) => AdvanceKeeps(s, t);
      case Spurious(t) => OutsideKeeps(s, t, Woken(s.threads[t].call));
    }
  }

  /** A state some interleaving of some set of threads leads to. */
  ghost predicate Reachable(s: State) {
    exists threads: set<Tid>, ls: seq<Label> :: Run(Initial(threads), ls) == Some(s)
  }

  lemma ReachableInv(s: State)
    requires Reachable(s)
    ensures Inv(s)
  {
    var threads: set<Tid>, ls: seq<Label> :| Run(Initial(threads), ls) == Some(s);
    RunKeeps(threads, ls);
  }

  lemma NextReachable(s: State, l: Label)
    requires Reachable(s) && Next(s, l).Some?
    ensures Reachable(Next(s, l).value)
  {
    var tids: set<Tid>, ls: seq<Label> :| Run(Initial(tids), ls) == Some(s);
    assert (ls + [l])[..|ls|] == ls;
    assert Run(Initial(tids), ls + [l]) == Some(Next(s, l).value);
  }

  /**
   * No wakeup is lost: a thread asleep and not signalled has a false wait condition, unless the
   * mutex holder is a SetBits whose very next statement, which nothing can block, wakes it.
   */
  lemma NoLostWakeup(s: State, t: Tid)
    requires Reachable(s) && t in s.threads && s.threads[t].Asleep?
    ensures var c := s.threads[t].call;
            && c.WaitBits?
            && ((if c.all then c.want <= s.bits else exists b :: b in c.want && b in s.bits) ==>
                  && s.holder.Some? && s.holder.value in s.threads
                  && var next := Next(s, Go(s.holder.value));
                     next.Some? && t in next.value.threads && next.value.threads[t] == Woken(c))
  {
    ReachableInv(s);
    assert PcOk(s.threads[t], s.bits, Pending(s));
    SatisfiedMeans(s.threads[t].call, s.bits);
  }

  /** No thread can execute another statement. */
  ghost predicate Stuck(s: State) {
    forall t :: t in s.threads ==> Next(s, Go(t)) == None
  }

  lemma HolderMoves(s: State)
    requires MutexOk(s) && s.holder.Some?
    ensures Next(s, Go(s.holder.value)).Some?
  {
  }

  /** Asleep although nothing is pending: a bit is missing, or all of them where one would do. */
  ghost predicate Rests(pc: Pc, bits: Bits) {
    || pc.Idle?
    || (pc.Asleep? && pc.call.WaitBits?
        && if pc.call.all then exists b :: b in pc.call.want && b !in bits
           else forall b :: b in pc.call.want ==> b !in bits)
  }

  lemma RestsMeans(pc: Pc, bits: Bits)
    ensures Rests(pc, bits) <==> pc.Idle? || (pc.Asleep? && pc.call.WaitBits? && !Satisfied(pc.call, bits))
  {
    if pc.Asleep? && pc.call.WaitBits? {
      SatisfiedMeans(pc.call, bits);
    }
  }

  /**
   * The group never blocks a thread that could go on: no thread can move exactly when every thread
   * is outside, asleep with one of the bits it waits for missing where it wants all, or asleep with
   * none of them set where it wants any.
   */
  lemma StuckExactly(s: State)
    requires Reachable(s)
    ensures Stuck(s) <==> forall t :: t in s.threads ==> Rests(s.threads[t], s.bits)
  {
    ReachableInv(s);
    forall pc: Pc
      ensures Rests(pc, s.bits)
              <==> pc.Idle? || (pc.Asleep? && pc.call.WaitBits? && !Satisfied(pc.call, s.bits))
    {
      RestsMeans(pc, s.bits);
    }
    if Stuck(s) {
      if s.holder.Some? {
        HolderMoves(s);
      }
      forall t | t in s.threads
        ensures Rests(s.threads[t], s.bits)
      {
        assert Next(s, Go(t)) == None && PcOk(s.threads[t], s.bits, Pending(s));
        assert !Holding(s.threads[t]);
      }
    }
  }

  /**
   * Every call that returned got what it was promised: a set its bits set, a clear its bits clear, a
   * wait for all every bit it wanted, and a wait for any one of them.
   */
  lemma ReturnsAsPromised(s: State, i: nat)
    requires Reachable(s) && i < |s.history| && s.history[i].Returned?
    ensures var out := s.history[i].out;
            match s.history[i].call
            case SetBits(b) => b <= out
            case ClearBits(b) => b !! out
            case GetBits => true
            case WaitBits(want, _, all) => if all then want <= out else exists b :: b in want && b in out
  {
    ReachableInv(s);
    assert Promised(s.history[i].call, s.history[i].out);
    if s.history[i].call.WaitBits? {
      SatisfiedMeans(s.history[i].call, s.history[i].out);
    }
  }

  /** Clearing waits that returned bit b never outnumber the sets that included it. */
  lemma TakenAtMostGiven(s: State, b: Bit)
    requires Reachable(s)
    ensures Taken(s.history, b) + One(b in s.bits) <= Given(s.history, b)
  {
    ReachableInv(s);
    assert BitOk(s, b);
  }

  lemma MutualExclusion(s: State, t: Tid, u: Tid)
    requires Reachable(s) && t in s.threads && u in s.threads
    requires Holding(s.threads[t]) && Holding(s.threads[u])
    ensures t == u
  {
    ReachableInv(s);
    assert s.holder == Some(t) && s.holder == Some(u);
  }
}
