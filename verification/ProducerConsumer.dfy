/**
  The program of pthread/concurrent_array.cpp as a state machine over its threads.

  Every plain read of a shared counter, every compare-and-swap, and every step inside the mutex is one
  action, so a run is a list of actions in any order a scheduler could choose. pthread_cond_wait releases
  the mutex and blocks in one step, pthread_cond_signal unblocks a nonempty set of the threads blocked on
  its condition, and a blocked thread may also wake up spuriously (POSIX.1-2017 System Interfaces,
  pthread_cond_wait and pthread_cond_signal).
 */
module ProducerConsumer {
  import opened Wrappers
  import opened BoundedRing
  import opened Tally

  /** The four command-line numbers. products is an int: zero or less makes every thread exit at once. */
  datatype RawParams = RawParams(size: nat, producers: nat, consumers: nat, products: int)

  type Params = p: RawParams | p.size >= 1 witness RawParams(1, 0, 0, 0)

  datatype Role = Producer | Consumer

  /**
    Where a thread is. Up to Moving, arg is the claimed ticket; a consumer carries the number it took
    out of the buffer from Signalling to Printing.
   */
  datatype Pc =
    | NotStarted
    | Reading
    | Claiming(cache: int)
    | Locking(arg: int)
    | Testing(arg: int)
    | Waiting(arg: int)
    | Woken(arg: int)
    | Moving(arg: int)
    | Signalling(arg: int)
    | Unlocking(arg: int)
    | Printing(arg: int)
    | Exited

  datatype Thread = Thread(role: Role, pc: Pc)

  datatype Status = Running | Returned | SlotAssertFailed | NullDereferenced | FinalAssertFailed

  /**
    created and joined say how far main is. appended and taken list the numbers in the order in which
    they passed through the buffer, printed is the output.
   */
  datatype State = State(
    ring: Ring,
    mutex: Option<nat>,
    pcnt: int,
    ccnt: int,
    threads: seq<Thread>,
    created: nat,
    joined: nat,
    appended: seq<int>,
    taken: seq<int>,
    printed: seq<int>,
    status: Status)

  datatype Action =
    | Create
    | Run(tid: nat, wake: set<nat>)
    | Spurious(who: nat)
    | Join
    | FinalAssert

  function ThreadCount(p: Params): nat {
    p.producers + p.consumers
  }

  function Init(p: Params): State {
    State(Empty(p.size), None, 0, 0,
          seq(ThreadCount(p), i => Thread(if i >= p.consumers then Producer else Consumer, NotStarted)),
          0, 0, [], [], [], Running)
  }

  function Goto(s: State, tid: nat, pc: Pc): State
    requires tid < |s.threads|
  {
    s.(threads := s.threads[tid := Thread(s.threads[tid].role, pc)])
  }

  /** Blocked on the condition that threads of this role wait for. */
  predicate Waits(th: Thread, role: Role) {
    th.role == role && th.pc.Waiting?
  }

  function Other(role: Role): Role {
    if role == Producer then Consumer else Producer
  }

  /** The set a signal wakes: some of the waiters, at least one if there is one. */
  predicate WakesSome(ths: seq<Thread>, role: Role, wake: set<nat>) {
    && (forall i | i in wake :: i < |ths| && Waits(ths[i], role))
    && (wake == {} ==> forall i :: 0 <= i < |ths| ==> !Waits(ths[i], role))
  }

  function Wake(ths: seq<Thread>, wake: set<nat>): seq<Thread> {
    seq(|ths|, i requires 0 <= i < |ths| =>
      if i in wake && ths[i].pc.Waiting? then Thread(ths[i].role, Woken(ths[i].pc.arg)) else ths[i])
  }

  /** A producer that passed its wait loop stores its number; a consumer takes one out. */
  function Move(s: State, tid: nat, arg: int): State
    requires tid < |s.threads|
  {
    if s.threads[tid].role == Producer then
      match Store(s.ring, arg)
      case None => s.(status := SlotAssertFailed)
      case Some(r) => Goto(s, tid, Signalling(arg)).(ring := r, appended := s.appended + [arg])
    else
      var (r, cell) := Take(s.ring);
      match cell
      case Null => s.(status := NullDereferenced)
      case Ptr(v) => Goto(s, tid, Signalling(v)).(ring := r, taken := s.taken + [v])
  }

  /** One step of thread tid; None when it is blocked or finished. */
  function RunThread(p: Params, s: State, tid: nat, wake: set<nat>): Option<State>
    requires tid < |s.threads|
  {
    var role := s.threads[tid].role;
    var cnt := if role == Producer then s.pcnt else s.ccnt;
    match s.threads[tid].pc
    case NotStarted => None
    case Reading =>
      Some(Goto(s, tid, if cnt < p.products then Claiming(cnt) else Exited))
    case Claiming(cache) =>
      if cnt != cache then Some(Goto(s, tid, Reading))
      else if role == Producer then Some(Goto(s, tid, Locking(cache)).(pcnt := cnt + 1))
      else Some(Goto(s, tid, Locking(cache)).(ccnt := cnt + 1))
    case Locking(arg) =>
      if s.mutex == None then Some(Goto(s, tid, Testing(arg)).(mutex := Some(tid))) else None
    case Woken(arg) =>
      if s.mutex == None then Some(Goto(s, tid, Testing(arg)).(mutex := Some(tid))) else None
    case Testing(arg) =>
      if (if role == Producer then IsFull(s.ring) else IsEmpty(s.ring))
      then Some(Goto(s, tid, Waiting(arg)).(mutex := None))
      else Some(Goto(s, tid, Moving(arg)))
    case Waiting(_) => None
    case Moving(arg) => Some(Move(s, tid, arg))
    case Signalling(arg) =>
      if !WakesSome(s.threads, Other(role), wake) then None
      else Some(Goto(s.(threads := Wake(s.threads, wake)), tid, Unlocking(arg)))
    case Unlocking(arg) =>
      Some(Goto(s, tid, if role == Producer then Reading else Printing(arg)).(mutex := None))
    case Printing(arg) =>
      Some(Goto(s, tid, Reading).(printed := s.printed + [arg]))
    case Exited => None
  }

  function Step(p: Params, s: State, a: Action): Option<State> {
    if s.status != Running then None else
    match a
    case Create =>
      if s.created < |s.threads| then Some(Goto(s, s.created, Reading).(created := s.created + 1)) else None
    case Run(tid, wake) =>
      if tid < |s.threads| then RunThread(p, s, tid, wake) else None
    case Spurious(who) =>
      if who < |s.threads| && s.threads[who].pc.Waiting?
      then Some(Goto(s, who, Woken(s.threads[who].pc.arg))) else None
    case Join =>
      if s.created == |s.threads| && s.joined < |s.threads| && s.threads[s.joined].pc.Exited?
      then Some(s.(joined := s.joined + 1)) else None
    case FinalAssert =>
      if s.created == s.joined == |s.threads|
      then Some(s.(status := if IsEmpty(s.ring) then Returned else FinalAssertFailed)) else None
  }

  /** The state after a list of actions, or None if one of them is not enabled. */
  function Exec(p: Params, acts: seq<Action>): Option<State> {
    if acts == [] then Some(Init(p)) else
    match Exec(p, acts[..|acts| - 1])
    case None => None
    case Some(s) => Step(p, s, acts[|acts| - 1])
  }

  // ---------------------------------------------------------------- what is counted over the threads

  predicate BeforeMove(pc: Pc) {
    pc.Locking? || pc.Testing? || pc.Waiting? || pc.Woken? || pc.Moving?
  }

  predicate AfterMove(pc: Pc) {
    pc.Signalling? || pc.Unlocking? || pc.Printing?
  }

  /** Tickets of a role that are claimed and whose item has not moved yet. */
  function Pending(role: Role): Thread -> nat {
    (th: Thread) => if th.role == role && BeforeMove(th.pc) then 1 else 0
  }

  /**
    Threads that will see to it that no waiter of this role is forgotten: those of this role that are about
    to test or move, and those of the other role that are about to signal.
   */
  function Covering(role: Role): Thread -> nat {
    (th: Thread) =>
      if th.role == role then (if th.pc.Testing? || th.pc.Woken? || th.pc.Moving? then 1 else 0)
      else (if th.pc.Signalling? then 1 else 0)
  }

  /**
    Threads of a role that are responsible for number v: producers that have claimed it and not stored it,
    and consumers that have taken it and not printed it.
   */
  function Holding(role: Role, v: int): Thread -> nat {
    (th: Thread) =>
      if th.role == role && (if role == Producer then BeforeMove(th.pc) else AfterMove(th.pc)) && th.pc.arg == v
      then 1 else 0
  }

  /** Remaining steps of a thread until its next claim, where t is the number of threads. */
  function Rank(t: nat, pcnt: int, ccnt: int): Thread -> nat {
    (th: Thread) =>
      match th.pc
      case NotStarted => 3
      case Reading => 2
      case Claiming(cache) => if cache == (if th.role == Producer then pcnt else ccnt) then 1 else 3
      case Locking(_) => 2 * t + 9
      case Testing(_) => 2 * t + 8
      case Waiting(_) => 2 * t + 7
      case Woken(_) => 2 * t + 9
      case Moving(_) => 2 * t + 6
      case Signalling(_) => 2 * t + 5
      case Unlocking(_) => 4
      case Printing(_) => 3
      case Exited => 0
  }

  /** Waking moves no ticket, and covers the woken role by at least one more thread if any was woken. */
  lemma TotalWake(ths: seq<Thread>, wake: set<nat>, role: Role)
    requires forall i | i in wake :: i < |ths| && Waits(ths[i], role)
    ensures forall r :: Total(Wake(ths, wake), Pending(r)) == Total(ths, Pending(r))
    ensures forall r, v :: Total(Wake(ths, wake), Holding(r, v)) == Total(ths, Holding(r, v))
    ensures Total(Wake(ths, wake), Covering(Other(role))) == Total(ths, Covering(Other(role)))
    ensures Total(ths, Covering(role)) <= Total(Wake(ths, wake), Covering(role))
    ensures wake != {} ==> Total(ths, Covering(role)) < Total(Wake(ths, wake), Covering(role))
  {
    forall r
      ensures Total(Wake(ths, wake), Pending(r)) == Total(ths, Pending(r))
    {
      assert Weights(Wake(ths, wake), Pending(r)) == Weights(ths, Pending(r));
    }
    forall r, v
      ensures Total(Wake(ths, wake), Holding(r, v)) == Total(ths, Holding(r, v))
    {
      assert Weights(Wake(ths, wake), Holding(r, v)) == Weights(ths, Holding(r, v));
    }
    assert Weights(Wake(ths, wake), Covering(Other(role))) == Weights(ths, Covering(Other(role)));
    SumShift(Weights(Wake(ths, wake), Covering(role)), Weights(ths, Covering(role)), 0);
    if wake != {} {
      var i :| i in wake;
      SumGrows(Weights(ths, Covering(role)), Weights(Wake(ths, wake), Covering(role)), i);
    }
  }
}
