/**
 * Left to itself the event group comes to rest: once no thread makes a new call and nothing wakes
 * spuriously, every schedule ends after a bounded number of statements.
 */
module EventGroupProgress {
  import opened Bytes
  import opened EventGroupSpec
  import opened EventGroupRuns

  // ---------------------------------------------------------------- what is left to do

  /** Statements before a thread leaves or sleeps; `w` is the price of a broadcast still to come. */
  function Rank(pc: Pc, w: nat): nat {
    match pc
    case Idle => 0
    case Asleep(_) => 0
    case Unlocking(_, _) => 1
    case ReadBack(_) => 2
    case Took(_, _) => 2
    case Announcing(_) => 3 + w
    case Body(c) => 4 + if c.SetBits? then w else 0
    case Locking(c) => 5 + if c.SetBits? then w else 0
    case Woken(c) => 5 + if c.SetBits? then w else 0
  }

  /** The sum of the ranks of the threads below n. */
  function Work(threads: map<Tid, Pc>, n: nat, w: nat): nat {
    if n == 0 then 0
    else Work(threads, n - 1, w) + if n - 1 in threads then Rank(threads[n - 1], w) else 0
  }

  ghost predicate Below(s: State, n: nat) {
    forall t :: t in s.threads ==> t < n
  }

  lemma {:induction false} WorkMoves(threads: map<Tid, Pc>, n: nat, w: nat, t: Tid, pc: Pc)
    requires t in threads && t < n
    ensures Work(threads[t := pc], n, w) == Work(threads, n, w) - Rank(threads[t], w) + Rank(pc, w)
  {
    if t < n - 1 {
      WorkMoves(threads, n - 1, w, t, pc);
    } else {
      WorkElsewhere(threads, n - 1, w, t, pc);
    }
  }

  lemma {:induction false} WorkElsewhere(threads: map<Tid, Pc>, n: nat, w: nat, t: Tid, pc: Pc)
    requires n <= t
    ensures Work(threads[t := pc], n, w) == Work(threads, n, w)
  {
    if n > 0 {
      WorkElsewhere(threads, n - 1, w, t, pc);
    }
  }

  /** Waking every sleeper costs at most five statements a thread. */
  lemma {:induction false} WorkWakes(threads: map<Tid, Pc>, n: nat, w: nat)
    requires forall t :: t in threads && threads[t].Asleep? ==> threads[t].call.WaitBits?
    ensures Work(WakeAll(threads), n, w) <= Work(threads, n, w) + 5 * n
  {
    if n > 0 {
      WorkWakes(threads, n - 1, w);
    }
  }

  /** Every statement executed leaves less to do. */
  lemma AdvanceWorks(s: State, t: Tid, n: nat)
    requires Inv(s) && Below(s, n) && t in s.threads && Advance(s, t).Some?
    ensures var s' := Advance(s, t).value;
            Below(s', n) && Work(s'.threads, n, 5 * n) < Work(s.threads, n, 5 * n)
  {
    var w, s', pc := 5 * n, Advance(s, t).value, s.threads[t];
    if pc.Announcing? {
      var woken := WakeAll(s.threads);
      forall u | u in s.threads && s.threads[u].Asleep?
        ensures s.threads[u].call.WaitBits?
      {
        assert PcOk(s.threads[u], s.bits, Pending(s));
      }
      WorkWakes(s.threads, n, w);
      WorkMoves(woken, n, w, t, ReadBack(pc.call));
    } else {
      assert s'.threads == s.threads[t := s'.threads[t]];
      WorkMoves(s.threads, n, w, t, s'.threads[t]);
    }
  }

  // ---------------------------------------------------------------- schedules

  ghost predicate OnlyGo(ls: seq<Label>) {
    forall i :: 0 <= i < |ls| ==> ls[i].Go?
  }

  /**
   * However the threads are scheduled, without new calls and spurious wakeups at most
   * Work(s.threads, n, 5 * n) statements are executed.
   */
  lemma {:induction false} ScheduleBounded(s: State, n: nat, ls: seq<Label>)
    requires Reachable(s) && Below(s, n) && OnlyGo(ls) && Run(s, ls).Some?
    ensures var s' := Run(s, ls).value;
            && Reachable(s') && Below(s', n)
            && |ls| + Work(s'.threads, n, 5 * n) <= Work(s.threads, n, 5 * n)
  {
    if ls != [] {
      var front, l := ls[..|ls| - 1], ls[|ls| - 1];
      var before := Run(s, front).value;
      ScheduleBounded(s, n, front);
      ReachableInv(before);
      NextReachable(before, l);
      AdvanceWorks(before, l.t, n);
    }
  }

  /**
   * Every schedule without new calls and spurious wakeups can be continued to a state of rest: there each
   * thread has returned or sleeps on a condition that is false.
   */
  lemma {:induction false} ComesToRest(s: State, n: nat) returns (ls: seq<Label>, rest: State)
    requires Reachable(s) && Below(s, n)
    ensures OnlyGo(ls) && |ls| <= Work(s.threads, n, 5 * n) && Run(s, ls) == Some(rest) && Stuck(rest)
    ensures forall t :: t in rest.threads ==>
              Rests(rest.threads[t], rest.bits)
    decreases Work(s.threads, n, 5 * n)
  {
    if Stuck(s) {
      ls, rest := [], s;
      StuckExactly(s);
    } else {
      var t :| t in s.threads && Next(s, Go(t)) != None;
      ReachableInv(s);
      NextReachable(s, Go(t));
      AdvanceWorks(s, t, n);
      var later;
      later, rest := ComesToRest(Next(s, Go(t)).value, n);
      ls := [Go(t)] + later;
      RunFirst(s, Go(t), later);
    }
  }

  lemma {:induction false} RunFirst(s: State, l: Label, ls: seq<Label>)
    requires Next(s, l).Some?
    ensures Run(s, [l] + ls) == Run(Next(s, l).value, ls)
  {
    if ls == [] {
      assert [l] + ls == [l] && [l][..0] == [];
    } else {
      var front := ls[..|ls| - 1];
      RunFirst(s, l, front);
      assert ([l] + ls)[..|ls|] == [l] + front;
    }
  }

  lemma {:induction false} SomeBound(tids: set<Tid>) returns (n: nat)
    ensures forall t :: t in tids ==> t < n
  {
    if tids == {} {
      n := 0;
    } else {
      var t :| t in tids;
      var rest := SomeBound(tids - {t});
      n := if t < rest then rest else t + 1;
      assert forall u :: u in tids ==> u == t || u in tids - {t};
    }
  }

  /** Whatever has happened, the threads can run on to a state of rest. */
  lemma EveryStateRests(s: State) returns (ls: seq<Label>, rest: State)
    requires Reachable(s)
    ensures OnlyGo(ls) && Run(s, ls) == Some(rest) && Stuck(rest)
  {
    var n := SomeBound(s.threads.Keys);
    ls, rest := ComesToRest(s, n);
  }
}
