/**
 * The event group of event_groups.h as a state machine: any number of threads, interleaved
 * statement by statement around one mutex and one condition variable, with the condition variable
 * behaving as POSIX pthread_cond_wait and pthread_cond_broadcast do.
 */
module EventGroupSpec {
  import opened Bytes

  type Tid = nat
  type Bit = b: nat | b < 32

  /** A uint32_t as the set of its one bits. */
  type Bits = set<Bit>

  datatype Call =
    | SetBits(bits: Bits)
    | ClearBits(bits: Bits)
    | GetBits
    | WaitBits(want: Bits, clear: bool, all: bool)

  /** The negation of the while condition of xEventGroupWaitBits. */
  predicate Satisfied(c: Call, bits: Bits)
    requires c.WaitBits?
  {
    if c.all then bits * c.want == c.want else bits * c.want != {}
  }

  /** Where a thread is. */
  datatype Pc =
    | Idle
    | Locking(call: Call)                // at pthread_mutex_lock
    | Body(call: Call)                   // holds the mutex, at the first statement or the loop test
    | Announcing(call: Call)             // SetBits: bits changed, broadcast still to come
    | ReadBack(call: Call)               // SetBits and ClearBits: about to read the bits to return
    | Asleep(call: Call)                 // in pthread_cond_wait, mutex released
    | Woken(call: Call)                  // in pthread_cond_wait, waiting for the mutex
    | Took(call: Call, out: Bits)        // WaitBits: condition held and `out` read
    | Unlocking(call: Call, out: Bits)   // at pthread_mutex_unlock

  predicate Holding(pc: Pc) {
    pc.Body? || pc.Announcing? || pc.ReadBack? || pc.Took? || pc.Unlocking?
  }

  /** What has happened: a SetBits took effect, or a call returned. */
  datatype Note = DidSet(bits: Bits) | Returned(call: Call, out: Bits)

  datatype State = State(bits: Bits, holder: Option<Tid>, threads: map<Tid, Pc>, history: seq<Note>) {
    function At(t: Tid, pc: Pc): State {
      this.(threads := threads[t := pc])
    }

    function Log(n: Note): State {
      this.(history := history + [n])
    }
  }

  /** Start: a thread makes a call. Go: it executes its next statement. Spurious: it wakes unsignalled. */
  datatype Label = Start(t: Tid, call: Call) | Go(t: Tid) | Spurious(t: Tid)

  /** pthread_cond_broadcast. */
  function WakeAll(threads: map<Tid, Pc>): map<Tid, Pc> {
    map t | t in threads :: if threads[t].Asleep? then Woken(threads[t].call) else threads[t]
  }

  /** The next statement of thread t; None when it has none or the mutex is taken. */
  function Advance(s: State, t: Tid): Option<State>
    requires t in s.threads
  {
    match s.threads[t]
    case Idle => None
    case Asleep(_) => None
    case Locking(c) => if s.holder.Some? then None else Some(s.At(t, Body(c)).(holder := Some(t)))
    case Woken(c) => if s.holder.Some? then None else Some(s.At(t, Body(c)).(holder := Some(t)))
    case Body(c) => Some(Execute(s, t, c))
    case Announcing(c) => Some(s.(threads := WakeAll(s.threads)).At(t, ReadBack(c)))
    case ReadBack(c) => Some(s.At(t, Unlocking(c, s.bits)))
    case Took(c, out) =>
      var bits := if c.WaitBits? && c.clear then s.bits - c.want else s.bits;
      Some(s.At(t, Unlocking(c, out)).(bits := bits))
    case Unlocking(c, out) => Some(s.At(t, Idle).(holder := None).Log(Returned(c, out)))
  }

  /** The statement right after the mutex is acquired. */
  function Execute(s: State, t: Tid, c: Call): State {
    match c
    case SetBits(b) => s.At(t, Announcing(c)).(bits := s.bits + b).Log(DidSet(b))
    case ClearBits(b) => s.At(t, ReadBack(c)).(bits := s.bits - b)
    case GetBits => s.At(t, Unlocking(c, s.bits))
    case WaitBits(_, _, _) =>
      if Satisfied(c, s.bits) then s.At(t, Took(c, s.bits))
      else s.At(t, Asleep(c)).(holder := None)
  }

  function Next(s: State, l: Label): Option<State> {
    if l.t !in s.threads then None
    else
      match l
      case Start(t, c) => if s.threads[t].Idle? then Some(s.At(t, Locking(c))) else None
      case Go(t) => Advance(s, t)
      case Spurious(t) => if s.threads[t].Asleep? then Some(s.At(t, Woken(s.threads[t].call))) else None
  }

  /** xEventGroupCreate, before any of the threads has made a call. */
  function Initial(threads: set<Tid>): State {
    State({}, None, map t | t in threads :: Idle, [])
  }

  /** The state after a sequence of steps; None when one of them was not possible. */
  function Run(s: State, ls: seq<Label>): Option<State> {
    if ls == [] then Some(s)
    else
      var before :- Run(s, ls[..|ls| - 1]);
      Next(before, ls[|ls| - 1])
  }
}
