/** The C program left to itself: whichever thread is scheduled next, it comes to rest. */
module EventGroupRest {
  import opened Bytes
  import opened EventGroupSpec
  import opened EventGroupRuns
  import opened EventGroupProgress
  import opened EventGroup

  /** Lines in front of the last one, whatever the function. */
  function LinesAhead(p: Place): nat {
    if p.At? && p.line < WAIT_UNLOCK then WAIT_UNLOCK - p.line else 0
  }

  function LinesLeft(places: Places, n: nat): nat {
    if n == 0 then 0
    else LinesLeft(places, n - 1) + if n - 1 in places then LinesAhead(places[n - 1]) else 0
  }

  lemma {:induction false} LinesMove(places: Places, n: nat, t: Tid, p: Place)
    requires t in places
    ensures LinesLeft(places[t := p], n)
         == LinesLeft(places, n) + if t < n then LinesAhead(p) - LinesAhead(places[t]) else 0
  {
    if n > 0 {
      LinesMove(places, n - 1, t, p);
    }
  }

  lemma MovedLinesLeft(g: Group, s: State, before: Places, t: Tid, n: nat)
    requires g.Moved(s, before, t) && t < n
    ensures LinesLeft(g.places, n) < LinesLeft(before, n)
  {
    assert LineOk(g.places[t]);
    LinesMove(before, n, t, g.places[t]);
  }

  lemma OneMoreStep(s: State, ls: seq<Label>, t: Tid, s': State)
    requires OnlyGo(ls) && Run(s, ls).Some? && Next(Run(s, ls).value, Go(t)) == Some(s')
    ensures OnlyGo(ls + [Go(t)]) && Run(s, ls + [Go(t)]) == Some(s')
  {
    assert (ls + [Go(t)])[..|ls|] == ls;
  }

  /** The work left in s and the lines left in the program: one of them shrinks with every line. */
  ghost predicate Closer(g: Group, s: State, before: Places, n: nat)
    reads g
  {
    && g.Valid() && Below(g.View(), n)
    && (Work(g.View().threads, n, 5 * n) < Work(s.threads, n, 5 * n)
        || (g.View() == s && LinesLeft(g.places, n) < LinesLeft(before, n)))
  }

  /** A thread that can move executes a line: one more step of the schedule, or the same state. */
  method OneLine(g: Group, t: Tid, ghost start: State, ghost ls: seq<Label>, ghost n: nat)
    returns (ghost ls': seq<Label>)
    requires g.Valid() && g.Enabled(t) && Below(g.View(), n)
    requires OnlyGo(ls) && Run(start, ls) == Some(g.View())
    modifies g
    ensures Closer(g, old(g.View()), old(g.places), n)
    ensures OnlyGo(ls') && Run(start, ls') == Some(g.View())
  {
    ghost var s, before := g.View(), g.places;
    g.EnabledExactly(t);
    assert t in s.threads;
    var _ := g.ExecuteLine(t);
    if g.Stepped(s, t) {
      ReachableInv(s);
      AdvanceWorks(s, t, n);
      OneMoreStep(start, ls, t, g.View());
      ls' := ls + [Go(t)];
    } else {
      MovedLinesLeft(g, s, before, t, n);
      ls' := ls;
    }
  }

  /**
   * Executes lines of threads that can move, in any order, until none can. It always gets there: in
   * the end each thread is outside or queued for bits that the mask lacks, and the steps taken are a
   * schedule of the state machine, no longer than the work there was.
   */
  method RunToRest(g: Group) returns (ghost ls: seq<Label>)
    requires g.Valid()
    modifies g
    ensures g.Valid() && OnlyGo(ls) && Run(old(g.View()), ls) == Some(g.View())
    ensures forall n: nat :: Below(old(g.View()), n) ==> |ls| <= Work(old(g.View()).threads, n, 5 * n)
    ensures forall t :: t in g.places ==>
              g.places[t].Outside? || (t in g.queue && Lacks(g.places[t].fn, g.bits))
  {
    ghost var start := g.View();
    ghost var n := SomeBound(g.places.Keys);
    ls := [];
    while exists t :: t in g.places && g.Enabled(t)
      invariant g.Valid() && Below(g.View(), n)
      invariant OnlyGo(ls) && Run(start, ls) == Some(g.View())
      decreases Work(g.View().threads, n, 5 * n), LinesLeft(g.places, n)
    {
      var t :| t in g.places && g.Enabled(t);
      ls := OneLine(g, t, start, ls, n);
    }
    AtRest(g);
    forall n: nat | Below(start, n)
      ensures |ls| <= Work(start.threads, n, 5 * n)
    {
      ScheduleBounded(start, n, ls);
    }
  }

  lemma AtRest(g: Group)
    requires g.Valid() && forall t :: t in g.places ==> !g.Enabled(t)
    ensures forall t :: t in g.places ==>
              g.places[t].Outside? || (t in g.queue && Lacks(g.places[t].fn, g.bits))
  {
    g.AtRestExactly();
  }
}
