/**
 * The event group as the C code has it: a uint32_t, a mutex, the queue of the condition variable,
 * and for each thread the line of event_groups.h it is at. It refines the state machine of
 * EventGroupSpec: each line is one of its steps, or none when the line only moves the thread on.
 */
module EventGroup {
  import opened Bytes
  import opened EventGroupSpec
  import opened EventGroupRuns
  import opened EventGroupAtomic
  import opened Mask32

  // ---------------------------------------------------------------- lines of event_groups.h

  const GET_LOCK: nat := 45
  const GET_READ: nat := 46
  const GET_UNLOCK: nat := 47
  const SET_LOCK: nat := 53
  const SET_OR: nat := 54
  const SET_BROADCAST: nat := 55
  const SET_READ: nat := 56
  const SET_UNLOCK: nat := 57
  const CLEAR_LOCK: nat := 63
  const CLEAR_AND: nat := 64
  const CLEAR_READ: nat := 65
  const CLEAR_UNLOCK: nat := 66
  const WAIT_LOCK: nat := 73
  const WAIT_TEST: nat := 74
  const WAIT_SLEEP: nat := 75
  const WAIT_READ: nat := 77
  const WAIT_TEST_CLEAR: nat := 78
  const WAIT_CLEAR: nat := 79
  const WAIT_UNLOCK: nat := 81

  /** A call in progress, its arguments as the C function gets them. */
  datatype Fn =
    | SetFn(arg: u32)
    | ClearFn(arg: u32)
    | GetFn
    | WaitFn(want: u32, clear: bool, all: bool)

  /** Outside, or about to execute a line of the function; `b` is its local result. */
  datatype Place = Outside | At(fn: Fn, line: nat, b: u32)

  type Places = map<Tid, Place>

  // ---------------------------------------------------------------- abstraction

  function CallOf(fn: Fn): Call {
    match fn
    case SetFn(arg) => SetBits(BitsOf(arg))
    case ClearFn(arg) => ClearBits(BitsOf(arg))
    case GetFn => GetBits
    case WaitFn(want, clear, all) => WaitBits(BitsOf(want), clear, all)
  }

  /** The while condition of xEventGroupWaitBits, on masks. */
  predicate Blocked(fn: Fn, bits: u32)
    requires fn.WaitFn?
  {
    if fn.all then And32(bits, fn.want) != fn.want else And32(bits, fn.want) == 0
  }

  lemma BlockedIsUnsatisfied(fn: Fn, bits: u32)
    requires fn.WaitFn?
    ensures Blocked(fn, bits) <==> !Satisfied(CallOf(fn), BitsOf(bits))
  {
    var masked := And32(bits, fn.want);
    MaskEquality(masked, fn.want);
    MaskEquality(masked, 0);
    NoBits();
  }

  /** A wait for all misses a bit it wants, or a wait for any misses every bit it wants. */
  ghost predicate Lacks(fn: Fn, bits: u32)
    requires fn.WaitFn?
  {
    if fn.all then exists b: Bit :: Has(fn.want, b) && !Has(bits, b)
    else forall b: Bit :: Has(fn.want, b) ==> !Has(bits, b)
  }

  /** The while condition, bit by bit. */
  lemma BlockedMeans(fn: Fn, bits: u32)
    requires fn.WaitFn?
    ensures Blocked(fn, bits) <==> Lacks(fn, bits)
  {
    var want, held := BitsOf(fn.want), BitsOf(bits);
    BlockedIsUnsatisfied(fn, bits);
    SatisfiedMeans(CallOf(fn), held);
    assert forall b: Bit :: (b in want <==> Has(fn.want, b)) && (b in held <==> Has(bits, b));
  }

  function FirstLine(fn: Fn): nat {
    match fn
    case SetFn(_) => SET_LOCK
    case ClearFn(_) => CLEAR_LOCK
    case GetFn => GET_LOCK
    case WaitFn(_, _, _) => WAIT_LOCK
  }

  /** The lines at which a thread can be. */
  predicate LineOk(f: Place) {
    match f
    case Outside => true
    case At(SetFn(_), line, _) => SET_LOCK <= line <= SET_UNLOCK
    case At(ClearFn(_), line, _) => CLEAR_LOCK <= line <= CLEAR_UNLOCK
    case At(GetFn, line, _) => GET_LOCK <= line <= GET_UNLOCK
    case At(WaitFn(_, clear, _), line, _) =>
      || WAIT_LOCK <= line <= WAIT_SLEEP || WAIT_READ <= line <= WAIT_TEST_CLEAR
      || (line == WAIT_CLEAR && clear) || line == WAIT_UNLOCK
  }

  function PcOf(f: Place, queued: bool, owner: bool): Pc
    requires LineOk(f)
  {
    match f
    case Outside => Idle
    case At(SetFn(_), line, b) =>
      var c := CallOf(f.fn);
      if line == SET_LOCK then Locking(c)
      else if line == SET_OR then Body(c)
      else if line == SET_BROADCAST then Announcing(c)
      else if line == SET_READ then ReadBack(c) else Unlocking(c, BitsOf(b))
    case At(ClearFn(_), line, b) =>
      var c := CallOf(f.fn);
      if line == CLEAR_LOCK then Locking(c)
      else if line == CLEAR_AND then Body(c)
      else if line == CLEAR_READ then ReadBack(c) else Unlocking(c, BitsOf(b))
    case At(GetFn, line, b) =>
      if line == GET_LOCK then Locking(GetBits)
      else if line == GET_READ then Body(GetBits)
      else Unlocking(GetBits, BitsOf(b))
    case At(WaitFn(_, _, _), line, b) =>
      var c := CallOf(f.fn);
      if line == WAIT_LOCK then Locking(c)
      else if line == WAIT_TEST || line == WAIT_READ then Body(c)
      else if line == WAIT_SLEEP then (if queued then Asleep(c) else if owner then Body(c) else Woken(c))
      else if line == WAIT_UNLOCK then Unlocking(c, BitsOf(b)) else Took(c, BitsOf(b))
  }

  ghost predicate LinesOk(places: Places) {
    forall t :: t in places ==> LineOk(places[t])
  }

  function PcAt(places: Places, queue: seq<Tid>, mtx: Option<Tid>, t: Tid): Pc
    requires t in places && LineOk(places[t])
  {
    PcOf(places[t], t in queue, mtx == Some(t))
  }

  ghost function Pcs(places: Places, queue: seq<Tid>, mtx: Option<Tid>): map<Tid, Pc>
    requires LinesOk(places)
  {
    map t | t in places :: PcAt(places, queue, mtx, t)
  }

  /** A change that concerns one thread only concerns its program counter only. */
  lemma OneMoves(places: Places, queue: seq<Tid>, mtx: Option<Tid>,
                 places': Places, queue': seq<Tid>, mtx': Option<Tid>, t: Tid)
    requires LinesOk(places) && LinesOk(places') && t in places && t in places' && places' == places[t := places'[t]]
    requires forall u :: u in places && u != t ==> (u in queue <==> u in queue')
    requires forall u :: u in places && u != t ==> (mtx == Some(u) <==> mtx' == Some(u))
    ensures Pcs(places', queue', mtx')
         == Pcs(places, queue, mtx)[t := PcAt(places', queue', mtx', t)]
  {
  }

  // ---------------------------------------------------------------- the group

  class Group {
    var bits: u32
    var mtx: Option<Tid>
    /** Threads in pthread_cond_wait that nothing has woken yet, longest asleep first. */
    var queue: seq<Tid>
    var places: Places
    ghost var history: seq<Note>

    ghost function View(): State
      requires LinesOk(places)
      reads this
    {
      State(BitsOf(bits), mtx, Pcs(places, queue, mtx), history)
    }

    /** Only waiting threads queue, and the loop test still holds for the mutex owner past it. */
    ghost predicate Local()
      reads this
    {
      && LinesOk(places)
      && (forall t :: t in queue ==>
            t in places && places[t].At? && places[t].fn.WaitFn? && places[t].line == WAIT_SLEEP)
      && (forall t :: t in queue ==> mtx != Some(t))
      && (mtx.Some? && mtx.value in places ==> TestOk(places[mtx.value], bits))
    }

    static predicate TestOk(f: Place, bits: u32) {
      && (f.At? && f.fn.WaitFn? && f.line == WAIT_SLEEP ==> Blocked(f.fn, bits))
      && (f.At? && f.fn.WaitFn? && f.line == WAIT_READ ==> !Blocked(f.fn, bits))
    }

    ghost predicate Valid()
      reads this
    {
      Local() && Reachable(View())
    }

    predicate AtLine(t: Tid, line: nat)
      reads this
    {
      t in places && places[t].At? && places[t].line == line
    }

    /** Thread t has left the state s by its next step. */
    ghost predicate Stepped(s: State, t: Tid)
      reads this
    {
      Valid() && Next(s, Go(t)) == Some(View())
    }

    lemma Owns(t: Tid)
      requires Valid() && t in places && Holding(PcAt(places, queue, mtx, t))
      ensures mtx == Some(t) && t !in queue
    {
      ReachableInv(View());
      assert View().threads[t] == PcAt(places, queue, mtx, t);
    }

    constructor (tids: set<Tid>)
      ensures Valid() && View() == Initial(tids)
    {
      bits, mtx, queue, history := 0, None, [], [];
      places := map t | t in tids :: Outside;
      new;
      NoBits();
      assert View() == Initial(tids);
      assert Run(Initial(tids), []) == Some(View());
    }

    /** A thread calls one of the four functions. */
    method Enter(t: Tid, fn: Fn) returns (ok: bool)
      requires Valid()
      modifies this
      ensures Valid()
      ensures ok == Next(old(View()), Start(t, CallOf(fn))).Some?
      ensures View() == if ok then Next(old(View()), Start(t, CallOf(fn))).value else old(View())
    {
      ok := t in places && places[t].Outside?;
      if ok {
        ghost var before := places;
        places := places[t := At(fn, FirstLine(fn), 0)];
        OneMoves(before, queue, mtx, places, queue, mtx, t);
        NextReachable(old(View()), Start(t, CallOf(fn)));
      }
    }

    // -------------------------------------------------------------- statements the functions share

    /** pthread_mutex_lock. */
    method Lock(t: Tid) returns (ok: bool)
      requires Valid() && t in places && places[t].At? && places[t].line == FirstLine(places[t].fn)
      modifies this`mtx, this`places
      ensures ok == Next(old(View()), Go(t)).Some?
      ensures if ok then Stepped(old(View()), t) else Valid() && View() == old(View())
    {
      ok := mtx.None?;
      if ok {
        ghost var s, before := View(), places;
        mtx := Some(t);
        places := places[t := places[t].(line := places[t].line + 1)];
        OneMoves(before, queue, None, places, queue, mtx, t);
        assert View() == Next(s, Go(t)).value;
        NextReachable(s, Go(t));
      }
    }

    /** pthread_mutex_unlock and the return after it. */
    method Unlock(t: Tid) returns (b: u32)
      requires Valid()
      requires AtLine(t, SET_UNLOCK) || AtLine(t, CLEAR_UNLOCK) || AtLine(t, GET_UNLOCK) || AtLine(t, WAIT_UNLOCK)
      modifies this`mtx, this`places, this`history
      ensures Stepped(old(View()), t) && b == old(places[t].b) && t in places && places[t].Outside?
      ensures history == old(history) + [Returned(CallOf(old(places[t].fn)), BitsOf(b))]
    {
      Owns(t);
      ghost var s, before, fn := View(), places, places[t].fn;
      b := places[t].b;
      mtx := None;
      places := places[t := Outside];
      history := history + [Returned(CallOf(fn), BitsOf(b))];
      OneMoves(before, queue, Some(t), places, queue, mtx, t);
      assert View() == Next(s, Go(t)).value;
      NextReachable(s, Go(t));
    }

    /** b = g->bits after an update. */
    method ReadUpdatedBits(t: Tid)
      requires Valid() && (AtLine(t, SET_READ) || AtLine(t, CLEAR_READ))
      modifies this`places
      ensures Stepped(old(View()), t)
    {
      Owns(t);
      ghost var s, before := View(), places;
      places := places[t := places[t].(line := places[t].line + 1, b := bits)];
      OneMoves(before, queue, mtx, places, queue, mtx, t);
      assert PcAt(before, queue, mtx, t) == ReadBack(CallOf(before[t].fn));
      assert PcAt(places, queue, mtx, t) == Unlocking(CallOf(before[t].fn), BitsOf(bits));
      assert View() == Next(s, Go(t)).value;
      NextReachable(s, Go(t));
    }

    /** b = g->bits in xEventGroupGetBits. */
    method ReadBits(t: Tid)
      requires Valid() && AtLine(t, GET_READ)
      modifies this`places
      ensures Stepped(old(View()), t)
    {
      Owns(t);
      ghost var s, before := View(), places;
      places := places[t := places[t].(line := GET_UNLOCK, b := bits)];
      OneMoves(before, queue, mtx, places, queue, mtx, t);
      assert PcAt(before, queue, mtx, t) == Body(GetBits);
      assert PcAt(places, queue, mtx, t) == Unlocking(GetBits, BitsOf(bits));
      assert View() == Next(s, Go(t)).value;
      NextReachable(s, Go(t));
    }

    // -------------------------------------------------------------- xEventGroupSetBits

    /** g->bits |= bits */
    method OrBits(t: Tid)
      requires Valid() && AtLine(t, SET_OR)
      modifies this`bits, this`places, this`history
      ensures Stepped(old(View()), t)
    {
      Owns(t);
      ghost var s, before := View(), places;
      var arg := places[t].fn.arg;
      bits := Or32(bits, arg);
      places := places[t := places[t].(line := SET_BROADCAST)];
      history := history + [DidSet(BitsOf(arg))];
      OneMoves(before, queue, mtx, places, queue, mtx, t);
      assert View() == Next(s, Go(t)).value;
      NextReachable(s, Go(t));
    }

    /** pthread_cond_broadcast empties the queue. */
    method Broadcast(t: Tid)
      requires Valid() && AtLine(t, SET_BROADCAST)
      modifies this`queue, this`places
      ensures Stepped(old(View()), t) && queue == []
    {
      Owns(t);
      ghost var s, before, sleepers := View(), places, queue;
      queue := [];
      QueueEmptied(places, sleepers, mtx);
      places := places[t := places[t].(line := SET_READ)];
      OneMoves(before, [], mtx, places, [], mtx, t);
      assert PcAt(before, sleepers, mtx, t) == Announcing(CallOf(before[t].fn));
      assert PcAt(places, [], mtx, t) == ReadBack(CallOf(before[t].fn));
      assert View() == Next(s, Go(t)).value;
      NextReachable(s, Go(t));
    }

    // -------------------------------------------------------------- xEventGroupClearBits

    /** g->bits &= ~bits */
    method ClearBits(t: Tid)
      requires Valid() && AtLine(t, CLEAR_AND)
      modifies this`bits, this`places
      ensures Stepped(old(View()), t)
    {
      Owns(t);
      ghost var s, before := View(), places;
      bits := Clear32(bits, places[t].fn.arg);
      places := places[t := places[t].(line := CLEAR_READ)];
      OneMoves(before, queue, mtx, places, queue, mtx, t);
      assert View() == Next(s, Go(t)).value;
      NextReachable(s, Go(t));
    }

    // -------------------------------------------------------------- xEventGroupWaitBits

    /** The loop test on the masks; it moves the thread on without a step of the state machine. */
    method TestCondition(t: Tid)
      requires Valid() && AtLine(t, WAIT_TEST)
      modifies this`places
      ensures Moved(old(View()), old(places), t)
      ensures var fn := old(places[t].fn); AtLine(t, if Blocked(fn, bits) then WAIT_SLEEP else WAIT_READ)
    {
      Owns(t);
      ghost var before := places;
      var fn := places[t].fn;
      var blocked := if fn.all then And32(bits, fn.want) != fn.want else And32(bits, fn.want) == 0;
      places := places[t := places[t].(line := if blocked then WAIT_SLEEP else WAIT_READ)];
      OneMoves(before, queue, mtx, places, queue, mtx, t);
      assert View() == old(View());
    }

    /** The first half of pthread_cond_wait: join the queue and release the mutex, in one go. */
    method FallAsleep(t: Tid)
      requires Valid() && AtLine(t, WAIT_SLEEP) && mtx == Some(t)
      modifies this`mtx, this`queue
      ensures Stepped(old(View()), t) && queue == old(queue) + [t]
    {
      Owns(t);
      ghost var s := View();
      BlockedIsUnsatisfied(places[t].fn, bits);
      OneMoves(places, queue, mtx, places, queue + [t], None, t);
      queue := queue + [t];
      mtx := None;
      assert View() == Next(s, Go(t)).value;
      NextReachable(s, Go(t));
    }

    /** The second half: once out of the queue, lock the mutex again and go back to the test. */
    method WakeUp(t: Tid) returns (ok: bool)
      requires Valid() && AtLine(t, WAIT_SLEEP) && mtx != Some(t)
      modifies this`mtx, this`places
      ensures ok == Next(old(View()), Go(t)).Some? == (t !in queue && old(mtx) == None)
      ensures if ok then Stepped(old(View()), t) else Valid() && View() == old(View())
    {
      ok := t !in queue && mtx.None?;
      if ok {
        ghost var s, before := View(), places;
        mtx := Some(t);
        places := places[t := places[t].(line := WAIT_TEST)];
        OneMoves(before, queue, None, places, queue, mtx, t);
        assert View() == Next(s, Go(t)).value;
        NextReachable(s, Go(t));
      }
    }

    /** pthread_cond_wait returns although nothing was signalled. */
    method WakeSpuriously(t: Tid)
      requires Valid() && t in queue
      modifies this`queue
      ensures Valid() && Next(old(View()), Spurious(t)) == Some(View())
    {
      ghost var s, sleepers := View(), queue;
      queue := Without(queue, t);
      OneMoves(places, sleepers, mtx, places, queue, mtx, t);
      assert View() == Next(s, Spurious(t)).value;
      NextReachable(s, Spurious(t));
    }

    /** out = g->bits */
    method TakeBits(t: Tid)
      requires Valid() && AtLine(t, WAIT_READ)
      modifies this`places
      ensures Stepped(old(View()), t)
    {
      Owns(t);
      ghost var s, before := View(), places;
      BlockedIsUnsatisfied(places[t].fn, bits);
      places := places[t := places[t].(line := WAIT_TEST_CLEAR, b := bits)];
      OneMoves(before, queue, mtx, places, queue, mtx, t);
      assert View() == Next(s, Go(t)).value;
      NextReachable(s, Go(t));
    }

    /** if (clear_on_exit): the test alone is no step of the state machine when it succeeds. */
    method TestClear(t: Tid)
      requires Valid() && AtLine(t, WAIT_TEST_CLEAR)
      modifies this`places
      ensures if old(places[t].fn).clear then Moved(old(View()), old(places), t) && AtLine(t, WAIT_CLEAR)
              else Stepped(old(View()), t) && AtLine(t, WAIT_UNLOCK)
    {
      Owns(t);
      ghost var s, before := View(), places;
      var clear := places[t].fn.clear;
      places := places[t := places[t].(line := if clear then WAIT_CLEAR else WAIT_UNLOCK)];
      OneMoves(before, queue, mtx, places, queue, mtx, t);
      if clear {
        assert View() == s;
      } else {
        assert View() == Next(s, Go(t)).value;
        NextReachable(s, Go(t));
      }
    }

    /** g->bits &= ~bits_to_wait_for */
    method ClearWaited(t: Tid)
      requires Valid() && AtLine(t, WAIT_CLEAR)
      modifies this`bits, this`places
      ensures Stepped(old(View()), t)
    {
      Owns(t);
      ghost var s, before := View(), places;
      bits := Clear32(bits, places[t].fn.want);
      places := places[t := places[t].(line := WAIT_UNLOCK)];
      OneMoves(before, queue, mtx, places, queue, mtx, t);
      assert View() == Next(s, Go(t)).value;
      NextReachable(s, Go(t));
    }

    // -------------------------------------------------------------- the scheduler's view

    /** Thread t alone is further on in its function, without a step of the state machine. */
    ghost predicate Moved(s: State, before: Places, t: Tid)
      reads this
    {
      && Valid() && View() == s
      && t in before && before[t].At? && t in places && places[t].At?
      && places == before[t := places[t]] && places[t].line > before[t].line
    }

    /** Thread t can execute a line: it is inside and neither asleep nor in need of a taken mutex. */
    predicate Enabled(t: Tid)
      reads this
    {
      && t in places && places[t].At?
      && (places[t].line == FirstLine(places[t].fn) ==> mtx.None?)
      && (places[t].line == WAIT_SLEEP && mtx != Some(t) ==> t !in queue && mtx.None?)
    }

    lemma EnabledExactly(t: Tid)
      requires Valid()
      ensures Enabled(t) <==> Next(View(), Go(t)).Some?
    {
      if t in places {
        ReachableInv(View());
        assert View().threads[t] == PcAt(places, queue, mtx, t);
      }
    }

    /**
     * Thread t executes its next line, unless it is outside, asleep or finds the mutex taken. The
     * two tests that succeed take no step of the state machine, but never twice in a row.
     */
    method ExecuteLine(t: Tid) returns (ok: bool)
      requires Valid() && t in places
      modifies this
      ensures ok == Next(old(View()), Go(t)).Some?
      ensures !ok ==> Valid() && View() == old(View())
      ensures ok ==> Stepped(old(View()), t) || Moved(old(View()), old(places), t)
    {
      if places[t].Outside? {
        return false;
      }
      var line := places[t].line;
      if line == FirstLine(places[t].fn) {
        ok := Lock(t);
      } else if line == WAIT_SLEEP && mtx != Some(t) {
        ok := WakeUp(t);
      } else {
        CriticalLine(t);
        ok := true;
      }
    }

    /** A line executed with the mutex held. */
    method CriticalLine(t: Tid)
      requires Valid() && t in places && places[t].At?
      requires var line := places[t].line;
               && line != FirstLine(places[t].fn) && (line == WAIT_SLEEP ==> mtx == Some(t))
      modifies this
      ensures Next(old(View()), Go(t)).Some?
      ensures Stepped(old(View()), t) || Moved(old(View()), old(places), t)
    {
      var line := places[t].line;
      if line == SET_UNLOCK || line == CLEAR_UNLOCK || line == GET_UNLOCK || line == WAIT_UNLOCK {
        var _ := Unlock(t);
      } else if line == SET_READ || line == CLEAR_READ {
        ReadUpdatedBits(t);
      } else if line == GET_READ {
        ReadBits(t);
      } else if line == SET_OR {
        OrBits(t);
      } else if line == SET_BROADCAST {
        Broadcast(t);
      } else if line == CLEAR_AND {
        ClearBits(t);
      } else if line == WAIT_TEST {
        TestCondition(t);
      } else if line == WAIT_SLEEP {
        FallAsleep(t);
      } else if line == WAIT_READ {
        TakeBits(t);
      } else if line == WAIT_TEST_CLEAR {
        TestClear(t);
      } else {
        ClearWaited(t);
      }
    }

    // -------------------------------------------------------------- what callers can rely on

    /**
     * In every reachable state of the C program, a thread left in the queue of the condition variable
     * lacks a bit of the present mask that it waits for, or all of them if any would do, unless the
     * mutex owner is a SetBits about to broadcast.
     */
    lemma SleepersBlocked(t: Tid)
      requires Valid() && t in queue
      ensures Lacks(places[t].fn, bits) || (mtx.Some? && AtLine(mtx.value, SET_BROADCAST))
    {
      var s := View();
      BlockedIsUnsatisfied(places[t].fn, bits);
      BlockedMeans(places[t].fn, bits);
      ReachableInv(s);
      assert PcOk(s.threads[t], s.bits, Pending(s));
    }

    /**
     * What is about to be returned, bit by bit: a wait for all every bit it wanted, a wait for any one
     * of them, a set its bits set, a clear its bits clear.
     */
    lemma ResultsAsPromised(t: Tid)
      requires Valid()
      ensures AtLine(t, WAIT_UNLOCK) ==> !Lacks(places[t].fn, places[t].b)
      ensures AtLine(t, SET_UNLOCK) ==> forall b: Bit :: Has(places[t].fn.arg, b) ==> Has(places[t].b, b)
      ensures AtLine(t, CLEAR_UNLOCK) ==> forall b: Bit :: Has(places[t].fn.arg, b) ==> !Has(places[t].b, b)
    {
      if t in places && places[t].At? && places[t].line in {WAIT_UNLOCK, SET_UNLOCK, CLEAR_UNLOCK} {
        var s, f := View(), places[t];
        ReachableInv(s);
        assert PcOk(s.threads[t], s.bits, Pending(s));
        if f.line == WAIT_UNLOCK {
          BlockedIsUnsatisfied(f.fn, f.b);
          BlockedMeans(f.fn, f.b);
        } else {
          assert forall b: Bit :: Has(f.fn.arg, b) <==> b in BitsOf(f.fn.arg);
          assert forall b: Bit :: Has(f.b, b) <==> b in BitsOf(f.b);
        }
      }
    }

    /**
     * And what is left in the mask, bit by bit: a wait that clears on exit takes out the bits it wanted,
     * and any other call returns the mask as it is.
     */
    lemma MaskLeft(t: Tid, b: Bit)
      requires Valid()
      ensures AtLine(t, WAIT_UNLOCK) ==>
                var f := places[t]; Has(bits, b) <==> Has(f.b, b) && !(f.fn.clear && Has(f.fn.want, b))
      ensures AtLine(t, SET_UNLOCK) || AtLine(t, CLEAR_UNLOCK) || AtLine(t, GET_UNLOCK) ==>
                (Has(bits, b) <==> Has(places[t].b, b))
    {
      if t in places && places[t].At? && View().threads[t].Unlocking? {
        LeavesBehind(View(), t);
        assert Has(bits, b) <==> b in BitsOf(bits);
        assert Has(places[t].b, b) <==> b in BitsOf(places[t].b);
        if places[t].fn.WaitFn? {
          assert Has(places[t].fn.want, b) <==> b in BitsOf(places[t].fn.want);
        }
      }
    }

    /**
     * No thread can execute a line exactly when each is outside or queued, with a bit it waits for
     * missing from the present mask, or all of them if any would do.
     */
    lemma AtRestExactly()
      requires Valid()
      ensures (forall t :: t in places ==> !Enabled(t)) <==>
                forall t :: t in places ==> places[t].Outside? || (t in queue && Lacks(places[t].fn, bits))
    {
      var s := View();
      StuckExactly(s);
      forall t | t in places
        ensures !Enabled(t) <==> Next(s, Go(t)) == None
        ensures Rests(s.threads[t], s.bits)
                <==> places[t].Outside? || (t in queue && Lacks(places[t].fn, bits))
      {
        EnabledExactly(t);
        RestsOnMask(t);
      }
      assert forall t :: t in places <==> t in s.threads;
    }

    lemma RestsOnMask(t: Tid)
      requires Valid() && t in places
      ensures Rests(View().threads[t], View().bits)
              <==> places[t].Outside? || (t in queue && Lacks(places[t].fn, bits))
    {
      var pc := View().threads[t];
      assert (pc.Idle? <==> places[t].Outside?) && (pc.Asleep? <==> t in queue);
      RestsMeans(pc, BitsOf(bits));
      if t in queue {
        BlockedIsUnsatisfied(places[t].fn, bits);
        BlockedMeans(places[t].fn, bits);
      }
    }
  }

  /** A queue without one of its threads. */
  function Without(queue: seq<Tid>, t: Tid): (q: seq<Tid>)
    ensures forall u :: u in q <==> u in queue && u != t
  {
    if queue == [] then []
    else (if queue[0] == t then [] else [queue[0]]) + Without(queue[1..], t)
  }

  /** Emptying the queue wakes every sleeper and nobody else. */
  lemma QueueEmptied(places: Places, queue: seq<Tid>, mtx: Option<Tid>)
    requires LinesOk(places)
    requires forall t :: t in queue ==>
               t in places && places[t].At? && places[t].fn.WaitFn? && places[t].line == WAIT_SLEEP && mtx != Some(t)
    ensures Pcs(places, [], mtx) == WakeAll(Pcs(places, queue, mtx))
  {
  }
}
