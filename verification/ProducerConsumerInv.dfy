/** The inductive invariants of the producer/consumer program. */
module ProducerConsumerInv {
  import opened Wrappers
  import opened BoundedRing
  import opened ProducerConsumer
  import opened Tally

  predicate Critical(pc: Pc) {
    pc.Testing? || pc.Moving? || pc.Signalling? || pc.Unlocking?
  }

  /** The numbers in the buffer, oldest first. */
  function Queue(s: State): seq<int> {
    if |s.taken| <= |s.appended| then s.appended[|s.taken|..] else []
  }

  function Count(s: State, role: Role): int {
    if role == Producer then s.pcnt else s.ccnt
  }

  /** What a thread of this role waits for: free slots for producers, items for consumers. */
  function Available(s: State, role: Role): int {
    if role == Producer then |s.ring.buff| - |Queue(s)| else |Queue(s)|
  }

  /** Thread i has the role main gave it, and has started iff main created it. Only consumers print. */
  predicate InPlace(p: Params, s: State, i: nat)
    requires i < |s.threads|
  {
    && s.threads[i].role == (if i >= p.consumers then Producer else Consumer)
    && (s.threads[i].pc.NotStarted? <==> s.created <= i)
    && (s.threads[i].pc.Printing? ==> s.threads[i].role == Consumer)
  }

  ghost predicate Shape(p: Params, s: State) {
    && |s.threads| == ThreadCount(p)
    && (forall i :: 0 <= i < |s.threads| ==> InPlace(p, s, i))
    && s.created <= |s.threads|
    && s.joined <= |s.threads|
    && (s.joined > 0 ==> s.created == |s.threads|)
    && (forall i :: 0 <= i < s.joined ==> s.threads[i].pc.Exited?)
    && (s.status != Running ==> s.created == s.joined == |s.threads|)
    && (s.status == Running || s.status == Returned || s.status == FinalAssertFailed)
    && (s.status == Returned ==> IsEmpty(s.ring))
    && (s.status == FinalAssertFailed ==> !IsEmpty(s.ring))
  }

  ghost predicate MutualExclusion(s: State) {
    && (forall i :: 0 <= i < |s.threads| ==> (Critical(s.threads[i].pc) <==> s.mutex == Some(i)))
    && (s.mutex.Some? ==> s.mutex.value < |s.threads|)
    && (forall i :: 0 <= i < |s.threads| && s.threads[i].pc.Moving? ==> Available(s, s.threads[i].role) > 0)
  }

  /** The buffer holds exactly what has been appended and not yet taken, and items leave in order of arrival. */
  ghost predicate Fifo(p: Params, s: State) {
    && |s.ring.buff| == p.size
    && |s.taken| <= |s.appended|
    && s.taken == s.appended[..|s.taken|]
    && Holds(s.ring, Queue(s))
  }

  /** Each counter is the number of items moved plus the number of tickets still on their way. */
  ghost predicate Tickets(s: State) {
    && s.pcnt == |s.appended| + Total(s.threads, Pending(Producer))
    && s.ccnt == |s.taken| + Total(s.threads, Pending(Consumer))
  }

  predicate CacheBounded(p: Params, s: State, th: Thread) {
    && (th.pc.Claiming? ==> th.pc.cache < p.products && th.pc.cache <= Count(s, th.role))
    && (th.pc.Exited? ==> p.products <= Count(s, th.role))
  }

  /** Counters stop at products; a cached counter is never ahead; a thread exits only at the end. */
  ghost predicate Bounds(p: Params, s: State) {
    && (s.pcnt > 0 ==> p.producers > 0)
    && (s.ccnt > 0 ==> p.consumers > 0)
    && (s.pcnt == 0 || 0 < s.pcnt <= p.products)
    && (s.ccnt == 0 || 0 < s.ccnt <= p.products)
    && (forall i :: 0 <= i < |s.threads| ==> CacheBounded(p, s, s.threads[i]))
  }

  /** The producers' side of number v: once claimed it is held by one producer or has been appended, not both. */
  ghost predicate ClaimedOnce(s: State, v: int) {
    multiset(s.appended)[v] + Total(s.threads, Holding(Producer, v)) == if 0 <= v < s.pcnt then 1 else 0
  }

  /** The consumers' side of number v: each time it was taken it is held by a consumer or has been printed. */
  ghost predicate TakenOnce(s: State, v: int) {
    multiset(s.taken)[v] == Total(s.threads, Holding(Consumer, v)) + multiset(s.printed)[v]
  }

  ghost predicate Numbers(s: State) {
    forall v :: ClaimedOnce(s, v) && TakenOnce(s, v)
  }

  /** If somebody waits, then there is no more of what it waits for than threads already on their way. */
  ghost predicate NoLostWakeup(s: State) {
    forall role, i :: 0 <= i < |s.threads| && Waits(s.threads[i], role) ==>
      Available(s, role) <= Total(s.threads, Covering(role))
  }

  ghost predicate Inv(p: Params, s: State) {
    Shape(p, s) && MutualExclusion(s) && Fifo(p, s) && Tickets(s) && Bounds(p, s) && Numbers(s) && NoLostWakeup(s)
  }

  // ---------------------------------------------------------------- one step

  /** Where a thread goes from where it is. */
  ghost predicate PcStep(p: Params, s: State, role: Role, from: Pc, to: Pc) {
    match from
    case NotStarted => to == Reading
    case Reading => to == if Count(s, role) < p.products then Claiming(Count(s, role)) else Exited
    case Claiming(cache) => to == if Count(s, role) == cache then Locking(cache) else Reading
    case Locking(arg) => to == Testing(arg)
    case Testing(arg) => to == if Available(s, role) == 0 then Waiting(arg) else Moving(arg)
    case Waiting(arg) => to == Woken(arg)
    case Woken(arg) => to == Testing(arg)
    case Moving(arg) => to.Signalling? && (role == Producer ==> to.arg == arg)
    case Signalling(arg) => to == Unlocking(arg)
    case Unlocking(arg) => to == if role == Producer then Reading else Printing(arg)
    case Printing(_) => to == Reading
    case Exited => false
  }

  /** Thread m goes one step, waking the threads in wake; the counters follow. */
  ghost predicate Moves(p: Params, s: State, s': State, m: nat, wake: set<nat>) {
    && m < |s.threads| == |s'.threads|
    && s'.threads == Wake(s.threads, wake)[m := s'.threads[m]]
    && var role, from, to := s.threads[m].role, s.threads[m].pc, s'.threads[m].pc;
    && s'.threads[m].role == role
    && PcStep(p, s, role, from, to)
    && (if from.Signalling? then WakesSome(s.threads, Other(role), wake) else wake == {})
    && s'.pcnt == s.pcnt + (if role == Producer && to.Locking? then 1 else 0)
    && s'.ccnt == s.ccnt + (if role == Consumer && to.Locking? then 1 else 0)
  }

  /** The buffer, the lists, the mutex and main follow the move of thread m. */
  ghost predicate Follows(p: Params, s: State, s': State, m: nat)
    requires m < |s.threads| == |s'.threads|
  {
    var role, from, to := s.threads[m].role, s.threads[m].pc, s'.threads[m].pc;
    && (from.Moving? ==> to.Signalling?)
    && s'.appended == s.appended + (if role == Producer && from.Moving? then [from.arg] else [])
    && s'.taken == s.taken + (if role == Consumer && from.Moving? then [to.arg] else [])
    && s'.printed == s.printed + (if from.Printing? then [from.arg] else [])
    && (to.Testing? ==> s.mutex == None)
    && s'.mutex == (if to.Testing? then Some(m) else if from.Unlocking? || to.Waiting? then None else s.mutex)
    && s'.created == s.created + (if from.NotStarted? then 1 else 0)
    && s'.joined == s.joined
    && s'.status == s.status == Running
    && (from.NotStarted? ==> m == s.created)
  }

  ghost predicate Effect(p: Params, s: State, s': State, m: nat, wake: set<nat>) {
    Moves(p, s, s', m, wake) && Follows(p, s, s', m) && Fifo(p, s')
  }

  /** Join and the final assert leave threads, counters and buffer alone. */
  ghost predicate MainEffect(s: State, s': State) {
    && s' == s.(joined := s'.joined, status := s'.status)
    && s.status == Running
    && s.created == |s.threads|
    && if s'.joined == s.joined then
         s.joined == |s.threads| && s'.status == if IsEmpty(s.ring) then Returned else FinalAssertFailed
       else
         s'.joined == s.joined + 1 <= |s.threads| && s.threads[s.joined].pc.Exited? && s'.status == Running
  }

  /** The thread an action moves, or the number of threads if it moves none. */
  function Mover(s: State, a: Action): nat {
    match a
    case Create => s.created
    case Run(tid, _) => tid
    case Spurious(who) => who
    case Join => |s.threads|
    case FinalAssert => |s.threads|
  }

  /** The threads an action wakes by a signal. */
  function Awakened(s: State, a: Action): set<nat> {
    if a.Run? && a.tid < |s.threads| && s.threads[a.tid].pc.Signalling? then a.wake else {}
  }

  /** Storing or taking keeps the buffer equal to what has arrived and not yet left. */
  lemma MoveKeepsFifo(p: Params, s: State, tid: nat)
    requires Fifo(p, s) && tid < |s.threads| && s.threads[tid].pc.Moving?
    requires Available(s, s.threads[tid].role) > 0
    ensures var arg := s.threads[tid].pc.arg; var s' := Move(s, tid, arg);
      && Fifo(p, s')
      && s' == Goto(s, tid, s'.threads[tid].pc).(ring := s'.ring, appended := s'.appended, taken := s'.taken)
      && s'.threads[tid].pc.Signalling?
      && if s.threads[tid].role == Producer then
           s'.threads[tid].pc.arg == arg && s'.appended == s.appended + [arg] && s'.taken == s.taken
         else
           s'.appended == s.appended && s'.taken == s.taken + [s'.threads[tid].pc.arg]
  {
    var s' := Move(s, tid, s.threads[tid].pc.arg);
    if s.threads[tid].role == Producer {
      StoreEnqueues(s.ring, Queue(s), s.threads[tid].pc.arg);
      assert Queue(s') == Queue(s) + [s.threads[tid].pc.arg];
      assert s'.appended[..|s.taken|] == s.appended[..|s.taken|];
    } else {
      TakeDequeues(s.ring, Queue(s));
      assert Queue(s') == Queue(s)[1..];
      assert s'.taken == s.appended[..|s.taken| + 1];
    }
  }

  /**
    The scheduler is free: a started thread can step whenever it is not blocked and has not exited, and it is
    blocked only by another thread holding the mutex it wants, or while it waits; main creates and joins.
   */
  lemma ThreadsRunFreely(p: Params, s: State, tid: nat, wake: set<nat>)
    requires s.status == Running && tid < |s.threads| && !s.threads[tid].pc.Signalling?
    ensures Step(p, s, Run(tid, wake)).Some? <==>
      && !s.threads[tid].pc.NotStarted? && !s.threads[tid].pc.Waiting? && !s.threads[tid].pc.Exited?
      && (s.threads[tid].pc.Locking? || s.threads[tid].pc.Woken? ==> s.mutex == None)
    ensures Step(p, s, Create).Some? <==> s.created < |s.threads|
    ensures Step(p, s, Join).Some? <==>
      s.created == |s.threads| && s.joined < |s.threads| && s.threads[s.joined].pc.Exited?
    ensures Step(p, s, FinalAssert).Some? <==> s.created == s.joined == |s.threads|
  {
  }

  /** Moving an item without the guard would fail: into a full ring, or out of an empty one. */
  lemma UnguardedMoveFails(p: Params, s: State, tid: nat, wake: set<nat>)
    requires Fifo(p, s) && s.status == Running && tid < |s.threads| && s.threads[tid].pc.Moving?
    ensures var s', role := Step(p, s, Run(tid, wake)).value, s.threads[tid].role;
      && (s'.status == SlotAssertFailed <==> role == Producer && |Queue(s)| == p.size)
      && (s'.status == NullDereferenced <==> role == Consumer && Queue(s) == [])
  {
    GuardsAreNeeded(s.ring, Queue(s), s.threads[tid].pc.arg);
  }

  /**
    A signal may wake any set of the threads blocked on the other side, just one of them or several, except
    that it must wake one if there is one. They move on to reacquiring the mutex; nobody else moves but the
    signaller, and nothing else changes.
   */
  lemma SignalWakesAnyWaiters(p: Params, s: State, tid: nat, wake: set<nat>)
    requires s.status == Running && tid < |s.threads| && s.threads[tid].pc.Signalling?
    ensures Step(p, s, Run(tid, wake)).Some? <==>
      && (forall i :: i in wake ==>
           i < |s.threads| && s.threads[i].pc.Waiting? && s.threads[i].role != s.threads[tid].role)
      && (wake == {} ==> forall i :: 0 <= i < |s.threads| && s.threads[i].pc.Waiting? ==>
           s.threads[i].role == s.threads[tid].role)
    ensures Step(p, s, Run(tid, wake)).Some? ==>
      var s' := Step(p, s, Run(tid, wake)).value;
      && s' == s.(threads := s'.threads) && |s'.threads| == |s.threads|
      && forall i :: 0 <= i < |s.threads| ==>
           && s'.threads[i].role == s.threads[i].role
           && s'.threads[i].pc ==
                if i in wake then Woken(s.threads[i].pc.arg)
                else if i == tid then Unlocking(s.threads[tid].pc.arg)
                else s.threads[i].pc
  {
  }

  /** Every blocked thread may wake up without a signal, at any time, and nothing else happens then. */
  lemma SpuriousWakeUps(p: Params, s: State, who: nat)
    requires s.status == Running
    ensures Step(p, s, Spurious(who)).Some? <==> who < |s.threads| && s.threads[who].pc.Waiting?
    ensures Step(p, s, Spurious(who)).Some? ==>
      Step(p, s, Spurious(who)).value ==
        s.(threads := s.threads[who := Thread(s.threads[who].role, Woken(s.threads[who].pc.arg))])
  {
  }

  /** Every action is the move of one thread or one of the two steps of main that move none. */
  lemma StepHasEffect(p: Params, s: State, a: Action)
    requires Shape(p, s) && MutualExclusion(s) && Fifo(p, s) && Step(p, s, a).Some?
    ensures var s' := Step(p, s, a).value;
      if a.Join? || a.FinalAssert? then MainEffect(s, s')
      else Effect(p, s, s', Mover(s, a), Awakened(s, a))
  {
    match a
    case Create =>
      assert InPlace(p, s, s.created);
      assert Wake(s.threads, {}) == s.threads;
    case Spurious(_) =>
      assert Wake(s.threads, {}) == s.threads;
    case Join =>
    case FinalAssert =>
    case Run(tid, wake) =>
      if s.threads[tid].pc.Moving? {
        MovingHasEffect(p, s, tid);
      } else {
        RunHasEffect(p, s, tid, wake);
      }
  }

  lemma MovingHasEffect(p: Params, s: State, tid: nat)
    requires MutualExclusion(s) && Fifo(p, s)
    requires s.status == Running && tid < |s.threads| && s.threads[tid].pc.Moving?
    ensures Effect(p, s, Move(s, tid, s.threads[tid].pc.arg), tid, {})
  {
    assert Wake(s.threads, {}) == s.threads;
    MoveKeepsFifo(p, s, tid);
  }

  lemma RunHasEffect(p: Params, s: State, tid: nat, wake: set<nat>)
    requires Shape(p, s) && MutualExclusion(s) && Fifo(p, s)
    requires s.status == Running && tid < |s.threads| && !s.threads[tid].pc.Moving?
    requires RunThread(p, s, tid, wake).Some?
    ensures Effect(p, s, RunThread(p, s, tid, wake).value, tid, Awakened(s, Run(tid, wake)))
  {
    assert InPlace(p, s, tid);
    RunMoves(p, s, tid, wake);
    RunFollows(p, s, tid, wake);
    var s' := RunThread(p, s, tid, wake).value;
    assert Queue(s') == Queue(s) && s'.ring == s.ring;
  }

  lemma RunMoves(p: Params, s: State, tid: nat, wake: set<nat>)
    requires Fifo(p, s) && tid < |s.threads| && !s.threads[tid].pc.Moving?
    requires RunThread(p, s, tid, wake).Some?
    ensures Moves(p, s, RunThread(p, s, tid, wake).value, tid, Awakened(s, Run(tid, wake)))
  {
    if s.threads[tid].pc.Testing? {
      FullAndEmptyAreExact(s.ring, Queue(s));
    }
    if !s.threads[tid].pc.Signalling? {
      assert Wake(s.threads, {}) == s.threads;
    }
  }

  lemma RunFollows(p: Params, s: State, tid: nat, wake: set<nat>)
    requires s.status == Running && tid < |s.threads| && !s.threads[tid].pc.Moving?
    requires RunThread(p, s, tid, wake).Some?
    ensures var s' := RunThread(p, s, tid, wake).value;
      |s'.threads| == |s.threads| && Follows(p, s, s', tid) && s'.ring == s.ring
  {
  }

  /** A gauge changes by the mover's change of weight, and by what waking adds. */
  lemma EffectTotal(p: Params, s: State, s': State, m: nat, wake: set<nat>, gauge: Thread -> nat)
    requires Moves(p, s, s', m, wake)
    ensures Total(s'.threads, gauge) + gauge(s.threads[m])
         == Total(Wake(s.threads, wake), gauge) + gauge(s'.threads[m])
  {
    TotalUpdate(Wake(s.threads, wake), m, s'.threads[m], gauge);
  }

  lemma ShapePreserved(p: Params, s: State, s': State, m: nat, wake: set<nat>)
    requires Moves(p, s, s', m, wake) && Follows(p, s, s', m) && Shape(p, s)
    ensures Shape(p, s')
  {
    assert InPlace(p, s, m);
    forall i | 0 <= i < |s.threads|
      ensures InPlace(p, s', i)
    {
      assert InPlace(p, s, i);
    }
    forall i | 0 <= i < s'.joined
      ensures s'.threads[i].pc.Exited?
    {
      assert s.threads[i].pc.Exited?;
    }
  }

  lemma MutualExclusionPreserved(p: Params, s: State, s': State, m: nat, wake: set<nat>)
    requires Effect(p, s, s', m, wake) && Fifo(p, s) && MutualExclusion(s)
    ensures MutualExclusion(s')
  {
    forall i | 0 <= i < |s.threads|
      ensures Critical(s'.threads[i].pc) <==> s'.mutex == Some(i)
      ensures s'.threads[i].pc.Moving? ==> Available(s', s'.threads[i].role) > 0
    {
      if i != m {
        assert Critical(s'.threads[i].pc) <==> Critical(s.threads[i].pc);
      }
    }
  }

  lemma TicketsPreserved(p: Params, s: State, s': State, m: nat, wake: set<nat>)
    requires Moves(p, s, s', m, wake) && Follows(p, s, s', m) && Tickets(s)
    ensures Tickets(s')
  {
    EffectTotal(p, s, s', m, wake, Pending(Producer));
    EffectTotal(p, s, s', m, wake, Pending(Consumer));
    TotalWake(s.threads, wake, Other(s.threads[m].role));
  }

  lemma CountersBounded(p: Params, s: State, s': State, m: nat, wake: set<nat>)
    requires Moves(p, s, s', m, wake) && |s.threads| == ThreadCount(p) && InPlace(p, s, m)
    requires CacheBounded(p, s, s.threads[m])
    requires s.pcnt >= 0 && s.ccnt >= 0
    ensures s.pcnt <= s'.pcnt && (s.pcnt < s'.pcnt ==> p.producers > 0 && s'.pcnt <= p.products)
    ensures s.ccnt <= s'.ccnt && (s.ccnt < s'.ccnt ==> p.consumers > 0 && s'.ccnt <= p.products)
    ensures CacheBounded(p, s', s'.threads[m])
  {
  }

  lemma BoundsPreserved(p: Params, s: State, s': State, m: nat, wake: set<nat>)
    requires Moves(p, s, s', m, wake) && Shape(p, s) && Bounds(p, s)
    ensures Bounds(p, s')
  {
    assert CacheBounded(p, s, s.threads[m]) && InPlace(p, s, m);
    CountersBounded(p, s, s', m, wake);
    forall i | 0 <= i < |s.threads|
      ensures CacheBounded(p, s', s'.threads[i])
    {
      assert CacheBounded(p, s, s.threads[i]);
    }
  }

  lemma NoLostWakeupPreserved(p: Params, s: State, s': State, m: nat, wake: set<nat>, role: Role, i: nat)
    requires Effect(p, s, s', m, wake) && Fifo(p, s) && NoLostWakeup(s)
    requires i < |s'.threads| && Waits(s'.threads[i], role)
    ensures Available(s', role) <= Total(s'.threads, Covering(role))
  {
    EffectTotal(p, s, s', m, wake, Covering(role));
    TotalWake(s.threads, wake, Other(s.threads[m].role));
    if i != m {
      assert Waits(s.threads[i], role);
    }
  }

  lemma ClaimedOncePreserved(p: Params, s: State, s': State, m: nat, wake: set<nat>, v: int)
    requires Moves(p, s, s', m, wake) && Follows(p, s, s', m) && s.pcnt >= 0 && ClaimedOnce(s, v)
    ensures ClaimedOnce(s', v)
  {
    EffectTotal(p, s, s', m, wake, Holding(Producer, v));
    TotalWake(s.threads, wake, Other(s.threads[m].role));
  }

  lemma ConsumerHolding(p: Params, s: State, s': State, m: nat, wake: set<nat>, v: int)
    requires Moves(p, s, s', m, wake) && InPlace(p, s, m)
    ensures var th, th' := s.threads[m], s'.threads[m];
      Total(s'.threads, Holding(Consumer, v)) + (if th.pc.Printing? && th.pc.arg == v then 1 else 0)
      == Total(s.threads, Holding(Consumer, v))
         + (if th.role == Consumer && th.pc.Moving? && th'.pc.arg == v then 1 else 0)
  {
    EffectTotal(p, s, s', m, wake, Holding(Consumer, v));
    TotalWake(s.threads, wake, Other(s.threads[m].role));
  }

  lemma TakenOncePreserved(p: Params, s: State, s': State, m: nat, wake: set<nat>, v: int)
    requires Moves(p, s, s', m, wake) && Follows(p, s, s', m) && InPlace(p, s, m) && TakenOnce(s, v)
    ensures TakenOnce(s', v)
  {
    ConsumerHolding(p, s, s', m, wake, v);
    var th, th' := s.threads[m], s'.threads[m];
    assert multiset(s'.taken)[v] == multiset(s.taken)[v]
        + (if th.role == Consumer && th.pc.Moving? && th'.pc.arg == v then 1 else 0);
    assert multiset(s'.printed)[v] == multiset(s.printed)[v] + (if th.pc.Printing? && th.pc.arg == v then 1 else 0);
  }

  lemma InvInit(p: Params)
    ensures Inv(p, Init(p))
  {
    var s := Init(p);
    EmptyHoldsNothing(p.size);
    SumZero(Weights(s.threads, Pending(Producer)));
    SumZero(Weights(s.threads, Pending(Consumer)));
    forall v
      ensures ClaimedOnce(s, v) && TakenOnce(s, v)
    {
      SumZero(Weights(s.threads, Holding(Producer, v)));
      SumZero(Weights(s.threads, Holding(Consumer, v)));
    }
  }

  lemma InvPreserved(p: Params, s: State, a: Action)
    requires Inv(p, s) && Step(p, s, a).Some?
    ensures Inv(p, Step(p, s, a).value)
  {
    StepHasEffect(p, s, a);
    if a.Join? || a.FinalAssert? {
      MainEffectKeepsShape(p, s, Step(p, s, a).value);
      MainEffectKeepsNumbers(p, s, Step(p, s, a).value);
      MainEffectKeepsBounds(p, s, Step(p, s, a).value);
    } else {
      EffectKeepsInv(p, s, Step(p, s, a).value, Mover(s, a), Awakened(s, a));
    }
  }

  lemma MainEffectKeepsShape(p: Params, s: State, s': State)
    requires Shape(p, s) && MainEffect(s, s')
    ensures Shape(p, s')
  {
    forall i | 0 <= i < |s'.threads|
      ensures InPlace(p, s', i)
    {
      assert InPlace(p, s, i);
    }
  }

  lemma MainEffectKeepsNumbers(p: Params, s: State, s': State)
    requires Numbers(s) && NoLostWakeup(s) && MainEffect(s, s')
    ensures Numbers(s') && NoLostWakeup(s')
  {
    forall v
      ensures ClaimedOnce(s', v) && TakenOnce(s', v)
    {
      assert ClaimedOnce(s, v) && TakenOnce(s, v);
    }
    forall role, i | 0 <= i < |s'.threads| && Waits(s'.threads[i], role)
      ensures Available(s', role) <= Total(s'.threads, Covering(role))
    {
      assert Available(s', role) == Available(s, role);
    }
  }

  lemma MainEffectKeepsBounds(p: Params, s: State, s': State)
    requires MutualExclusion(s) && Fifo(p, s) && Tickets(s) && Bounds(p, s) && MainEffect(s, s')
    ensures MutualExclusion(s') && Fifo(p, s') && Tickets(s') && Bounds(p, s')
  {
    forall i | 0 <= i < |s'.threads|
      ensures CacheBounded(p, s', s'.threads[i])
      ensures s'.threads[i].pc.Moving? ==> Available(s', s'.threads[i].role) > 0
    {
      assert CacheBounded(p, s, s.threads[i]);
      assert Available(s', s.threads[i].role) == Available(s, s.threads[i].role);
    }
  }

  lemma EffectKeepsInv(p: Params, s: State, s': State, m: nat, wake: set<nat>)
    requires Inv(p, s) && Effect(p, s, s', m, wake)
    ensures Inv(p, s')
  {
    ShapePreserved(p, s, s', m, wake);
    MutualExclusionPreserved(p, s, s', m, wake);
    TicketsPreserved(p, s, s', m, wake);
    BoundsPreserved(p, s, s', m, wake);
    forall v
      ensures ClaimedOnce(s', v) && TakenOnce(s', v)
    {
      assert ClaimedOnce(s, v) && TakenOnce(s, v) && InPlace(p, s, m);
      ClaimedOncePreserved(p, s, s', m, wake, v);
      TakenOncePreserved(p, s, s', m, wake, v);
    }
    forall role, i | 0 <= i < |s'.threads| && Waits(s'.threads[i], role)
      ensures Available(s', role) <= Total(s'.threads, Covering(role))
    {
      NoLostWakeupPreserved(p, s, s', m, wake, role, i);
    }
  }

  /** Every state of every run satisfies the invariants. */
  lemma {:induction false} InvAlways(p: Params, acts: seq<Action>)
    requires Exec(p, acts).Some?
    ensures Inv(p, Exec(p, acts).value)
  {
    if acts == [] {
      InvInit(p);
    } else {
      var before := acts[..|acts| - 1];
      InvAlways(p, before);
      InvPreserved(p, Exec(p, before).value, acts[|acts| - 1]);
    }
  }
}
