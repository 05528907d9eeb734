/** What the producer/consumer program guarantees over every run. */
module ProducerConsumerTheorems {
  import opened Wrappers
  import opened BoundedRing
  import opened ProducerConsumer
  import opened ProducerConsumerInv
  import opened Tally

  /** The numbers 0, 1, ..., n - 1. */
  function Iota(n: int): seq<int> {
    if n <= 0 then [] else Iota(n - 1) + [n - 1]
  }

  lemma {:induction false} IotaCounts(n: int, v: int)
    ensures multiset(Iota(n))[v] == if 0 <= v < n then 1 else 0
    ensures |Iota(n)| == if n <= 0 then 0 else n
  {
    if n > 0 {
      IotaCounts(n - 1, v);
      assert multiset(Iota(n)) == multiset(Iota(n - 1)) + multiset{n - 1};
    }
  }

  // ---------------------------------------------------------------- safety

  /** No run trips the empty-slot assert of append or prints through a null pointer. */
  lemma NeverFails(p: Params, acts: seq<Action>)
    requires Exec(p, acts).Some?
    ensures var s := Exec(p, acts).value; !s.status.SlotAssertFailed? && !s.status.NullDereferenced?
  {
    InvAlways(p, acts);
  }

  /** At any moment each claimed number is in exactly one place, and no other number is anywhere. */
  lemma {:induction false} ExactlyOnePlace(p: Params, acts: seq<Action>, v: int)
    requires Exec(p, acts).Some?
    ensures var s := Exec(p, acts).value;
      Total(s.threads, Holding(Producer, v)) + multiset(Queue(s))[v]
      + Total(s.threads, Holding(Consumer, v)) + multiset(s.printed)[v]
      == if 0 <= v < s.pcnt then 1 else 0
  {
    InvAlways(p, acts);
    var s := Exec(p, acts).value;
    assert ClaimedOnce(s, v) && TakenOnce(s, v);
    SplitCounts(s.appended, s.taken, Queue(s), v);
  }

  lemma SplitCounts(whole: seq<int>, left: seq<int>, right: seq<int>, v: int)
    requires |left| <= |whole| && left == whole[..|left|] && right == whole[|left|..]
    ensures multiset(whole)[v] == multiset(left)[v] + multiset(right)[v]
  {
    assert whole == left + right;
  }

  /** In every run the numbers leave the buffer in the order in which they entered it. */
  lemma FirstInFirstOut(p: Params, acts: seq<Action>)
    requires Exec(p, acts).Some?
    ensures var s := Exec(p, acts).value;
      s.taken <= s.appended && Holds(s.ring, s.appended[|s.taken|..]) && |s.appended| - |s.taken| <= p.size
  {
    InvAlways(p, acts);
  }

  lemma AllExited(p: Params, s: State)
    requires Inv(p, s) && s.joined == |s.threads|
    ensures s.pcnt == |s.appended| && s.ccnt == |s.taken|
    ensures p.producers > 0 ==> p.products <= s.pcnt
    ensures p.consumers > 0 ==> p.products <= s.ccnt
    ensures forall role, v :: Total(s.threads, Holding(role, v)) == 0
  {
    SumZero(Weights(s.threads, Pending(Producer)));
    SumZero(Weights(s.threads, Pending(Consumer)));
    forall role, v
      ensures Total(s.threads, Holding(role, v)) == 0
    {
      SumZero(Weights(s.threads, Holding(role, v)));
    }
    if p.producers > 0 {
      assert InPlace(p, s, p.consumers) && CacheBounded(p, s, s.threads[p.consumers]);
    }
    if p.consumers > 0 {
      assert InPlace(p, s, 0) && CacheBounded(p, s, s.threads[0]);
    }
  }

  /** The parameters for which the program can finish: something to do needs threads on both sides. */
  predicate Completes(p: Params) {
    p.products <= 0 || (p.producers == 0 && p.consumers == 0) || (p.producers > 0 && p.consumers > 0)
  }

  /** The parameters for which all threads exit; besides those, products that fit in the ring and nobody takes. */
  predicate Joins(p: Params) {
    Completes(p) || (p.consumers == 0 && p.products <= p.size)
  }

  /** Once main has joined every thread, its final assert passes exactly when Completes holds. */
  lemma FinalAssertExact(p: Params, s: State)
    requires Inv(p, s) && s.joined == |s.threads|
    ensures IsEmpty(s.ring) <==> Completes(p)
  {
    AllExited(p, s);
    FullAndEmptyAreExact(s.ring, Queue(s));
  }

  /** When main returns, each number claimed has been printed, and all of 0 up to products have been claimed. */
  lemma ReturnedState(p: Params, s: State)
    requires Inv(p, s) && s.status == Returned
    ensures s.taken == s.appended && s.pcnt == if p.producers > 0 && p.products > 0 then p.products else 0
    ensures forall v :: Total(s.threads, Holding(Producer, v)) == Total(s.threads, Holding(Consumer, v)) == 0
  {
    AllExited(p, s);
    FullAndEmptyAreExact(s.ring, Queue(s));
  }

  /**
    When main returns, every number below products has been printed exactly once and nothing else has;
    without any producer it returns only with an empty output.
   */
  lemma OutputIsComplete(p: Params, acts: seq<Action>)
    requires Exec(p, acts).Some? && Exec(p, acts).value.status == Returned
    ensures multiset(Exec(p, acts).value.printed) == multiset(if p.producers > 0 then Iota(p.products) else [])
  {
    InvAlways(p, acts);
    var s := Exec(p, acts).value;
    ReturnedState(p, s);
    assert Iota(s.pcnt) == if p.producers > 0 then Iota(p.products) else [];
    forall v
      ensures multiset(s.printed)[v] == multiset(Iota(s.pcnt))[v]
    {
      IotaCounts(s.pcnt, v);
      assert ClaimedOnce(s, v) && TakenOnce(s, v);
    }
  }

  // ---------------------------------------------------------------- order

  /** The number a thread holds, as a list. */
  function Load(th: Thread): seq<int> {
    if (if th.role == Producer then BeforeMove(th.pc) else AfterMove(th.pc)) then [th.pc.arg] else []
  }

  ghost predicate SingleOrder(p: Params, s: State) {
    && (p.producers == 1 && |s.threads| == ThreadCount(p) ==>
        s.appended + Load(s.threads[p.consumers]) == Iota(s.pcnt))
    && (p.consumers == 1 && |s.threads| == ThreadCount(p) ==>
        s.printed + Load(s.threads[0]) == s.taken)
  }

  /** A step of a producer: a claim appends the ticket to what it carries, a store moves it to the buffer. */
  lemma ProducerCarries(p: Params, s: State, s': State, m: nat, wake: set<nat>)
    requires Moves(p, s, s', m, wake) && Follows(p, s, s', m) && s.threads[m].role == Producer && InPlace(p, s, m)
    ensures s'.appended + Load(s'.threads[m])
         == s.appended + Load(s.threads[m]) + (if s'.threads[m].pc.Locking? then [s.pcnt] else [])
  {
    var th, th' := s.threads[m], s'.threads[m];
    if th'.pc.Locking? {
      assert Load(th) == [] && s'.appended == s.appended;
    } else if th.pc.Moving? {
      assert Load(th) == [th.pc.arg] && Load(th') == [];
    } else {
      assert Load(th') == Load(th) && s'.appended == s.appended;
    }
  }

  lemma EffectKeepsProducerOrder(p: Params, s: State, s': State, m: nat, wake: set<nat>)
    requires Moves(p, s, s', m, wake) && Follows(p, s, s', m) && Shape(p, s) && s.pcnt >= 0 && p.producers == 1
    requires s.appended + Load(s.threads[p.consumers]) == Iota(s.pcnt)
    ensures s'.appended + Load(s'.threads[p.consumers]) == Iota(s'.pcnt)
  {
    var i := p.consumers;
    assert InPlace(p, s, m) && InPlace(p, s, i);
    if m == i {
      ProducerCarries(p, s, s', m, wake);
    } else {
      assert s.threads[m].role == Consumer;
      assert Load(s'.threads[i]) == Load(s.threads[i]);
    }
  }

  lemma EffectKeepsConsumerOrder(p: Params, s: State, s': State, m: nat, wake: set<nat>)
    requires Moves(p, s, s', m, wake) && Follows(p, s, s', m) && Shape(p, s) && p.consumers == 1
    requires s.printed + Load(s.threads[0]) == s.taken
    ensures s'.printed + Load(s'.threads[0]) == s'.taken
  {
    assert InPlace(p, s, m) && InPlace(p, s, 0);
    var th, th' := s.threads[m], s'.threads[m];
    if m != 0 {
      assert Load(s'.threads[0]) == Load(s.threads[0]);
    } else if th.pc.Moving? {
      assert s'.printed + Load(th') == s.printed + Load(th) + [th'.pc.arg];
    } else {
      assert s'.printed + Load(th') == s.printed + Load(th);
    }
  }

  lemma {:induction false} SingleOrderAlways(p: Params, acts: seq<Action>)
    requires Exec(p, acts).Some?
    ensures SingleOrder(p, Exec(p, acts).value)
  {
    if acts != [] {
      var before := acts[..|acts| - 1];
      SingleOrderAlways(p, before);
      InvAlways(p, before);
      var s, a := Exec(p, before).value, acts[|acts| - 1];
      StepHasEffect(p, s, a);
      if !a.Join? && !a.FinalAssert? {
        var s', m, wake := Exec(p, acts).value, Mover(s, a), Awakened(s, a);
        if p.producers == 1 {
          EffectKeepsProducerOrder(p, s, s', m, wake);
        }
        if p.consumers == 1 {
          EffectKeepsConsumerOrder(p, s, s', m, wake);
        }
      }
    }
  }

  lemma {:induction false} IotaPrefix(s: seq<int>, t: seq<int>, n: int)
    requires s + t == Iota(n)
    ensures s == Iota(|s|)
    decreases |t|
  {
    IotaCounts(n, 0);
    if t != [] {
      assert s + t[..|t| - 1] == (s + t)[..|s| + |t| - 1] == Iota(n - 1);
      IotaPrefix(s, t[..|t| - 1], n - 1);
    }
  }

  /** With one producer and one consumer the output is 0, 1, 2, ... in order at every moment. */
  lemma InOrderWithOneOfEach(p: Params, acts: seq<Action>)
    requires Exec(p, acts).Some? && p.producers == 1 && p.consumers == 1
    ensures var s := Exec(p, acts).value; s.printed == Iota(|s.printed|)
  {
    InvAlways(p, acts);
    SingleOrderAlways(p, acts);
    var s := Exec(p, acts).value;
    assert s.taken + Queue(s) == s.appended;
    ChainIsPrefix(s.printed, Load(s.threads[0]), Queue(s), Load(s.threads[p.consumers]), s.taken, s.appended, s.pcnt);
  }

  lemma ChainIsPrefix(a: seq<int>, b: seq<int>, c: seq<int>, d: seq<int>, ab: seq<int>, abc: seq<int>, n: int)
    requires a + b == ab && ab + c == abc && abc + d == Iota(n)
    ensures a == Iota(|a|)
  {
    assert a + (b + c + d) == abc + d;
    IotaPrefix(a, b + c + d, n);
  }

  // ---------------------------------------------------------------- progress

  /** A thread that could take a step if the mutex were free. */
  predicate Ready(pc: Pc) {
    pc.Reading? || pc.Claiming? || pc.Locking? || pc.Woken? || pc.Printing?
  }

  ghost predicate Blocked(s: State) {
    forall j :: 0 <= j < |s.threads| ==> s.threads[j].pc.Waiting? || s.threads[j].pc.Exited?
  }

  /** With everybody waiting or gone nothing covers the waiters, so they wait for something there is none of. */
  lemma WaitersAreRight(s: State, i: nat)
    requires NoLostWakeup(s) && Blocked(s) && i < |s.threads| && s.threads[i].pc.Waiting?
    ensures Available(s, s.threads[i].role) <= 0
  {
    var role := s.threads[i].role;
    SumZero(Weights(s.threads, Covering(role)));
    assert Waits(s.threads[i], role);
  }

  /** If one side has finished, it has left something for every pending ticket of the other side. */
  lemma FinishedSideHasServed(p: Params, s: State, role: Role, j: nat)
    requires Inv(p, s)
    requires j < |s.threads| && s.threads[j].role == Other(role)
    requires forall k :: 0 <= k < |s.threads| && s.threads[k].role == Other(role) ==> s.threads[k].pc.Exited?
    ensures Available(s, role) >= Total(s.threads, Pending(role)) || Count(s, role) == 0
  {
    SumZero(Weights(s.threads, Pending(Other(role))));
    assert CacheBounded(p, s, s.threads[j]);
  }

  /** Without consumers a producer waits only if the ring cannot hold all the products. */
  lemma NoRoomForAll(p: Params, s: State, i: nat)
    requires Inv(p, s) && Blocked(s) && i < |s.threads| && s.threads[i].pc.Waiting? && p.consumers == 0
    ensures p.products > p.size
  {
    assert InPlace(p, s, i);
    WaitersAreRight(s, i);
    SumEntry(Weights(s.threads, Pending(Producer)), i);
  }

  /** Not everybody can wait at once, and no side waits for a side that is gone unless the ring is too small. */
  lemma NobodyWaitsForever(p: Params, s: State, i: nat)
    requires Inv(p, s) && Joins(p) && Blocked(s) && i < |s.threads|
    ensures s.threads[i].pc.Exited?
  {
    if s.threads[i].pc.Waiting? && !Completes(p) {
      NoRoomForAll(p, s, i);
    } else if s.threads[i].pc.Waiting? {
      var role := s.threads[i].role;
      WaitersAreRight(s, i);
      forall k | 0 <= k < |s.threads| && s.threads[k].role == Other(role)
        ensures s.threads[k].pc.Exited?
      {
        if s.threads[k].pc.Waiting? {
          WaitersAreRight(s, k);
        }
      }
      SumEntry(Weights(s.threads, Pending(role)), i);
      assert InPlace(p, s, i);
      var j := if role == Producer then 0 else p.consumers;
      assert InPlace(p, s, j);
      FinishedSideHasServed(p, s, role, j);
    }
  }

  /** Whoever holds the mutex can go on; a signaller may wake all waiters. */
  lemma HolderCanStep(p: Params, s: State, m: nat) returns (a: Action)
    requires s.status == Running && m < |s.threads| && Critical(s.threads[m].pc)
    ensures a.Run? && Step(p, s, a).Some?
  {
    var role := Other(s.threads[m].role);
    var wake := set i: nat | i < |s.threads| && Waits(s.threads[i], role);
    forall i: nat | i < |s.threads|
      ensures wake == {} ==> !Waits(s.threads[i], role)
    {
      assert Waits(s.threads[i], role) ==> i in wake;
    }
    assert WakesSome(s.threads, role, wake);
    a := Run(m, wake);
  }

  /** With everybody waiting or gone, main can go on. */
  lemma MainCanStep(p: Params, s: State) returns (a: Action)
    requires Inv(p, s) && s.status == Running && Joins(p) && Blocked(s) && s.created == |s.threads|
    ensures !a.Spurious? && Step(p, s, a).Some?
  {
    if s.joined < |s.threads| {
      NobodyWaitsForever(p, s, s.joined);
      a := Join;
    } else {
      a := FinalAssert;
    }
  }

  /** As long as main has not finished, some step other than a spurious wake-up is enabled. */
  lemma NoDeadlock(p: Params, s: State) returns (a: Action)
    requires Inv(p, s) && s.status == Running && Joins(p)
    ensures !a.Spurious? && Step(p, s, a).Some?
  {
    if s.created < |s.threads| {
      a := Create;
    } else if s.mutex.Some? {
      a := HolderCanStep(p, s, s.mutex.value);
    } else if i: nat :| i < |s.threads| && Ready(s.threads[i].pc) {
      a := Run(i, {});
    } else {
      forall i | 0 <= i < |s.threads|
        ensures s.threads[i].pc.Waiting? || s.threads[i].pc.Exited?
      {
        assert InPlace(p, s, i) && !Critical(s.threads[i].pc) && !Ready(s.threads[i].pc);
      }
      a := MainCanStep(p, s);
    }
  }

  // ---------------------------------------------------------------- termination

  function Products(p: Params): nat {
    if p.products > 0 then p.products else 0
  }

  /** What one claim can add to the ranks: the claimer's whole trip and a retry for each other thread. */
  function PerTicket(p: Params): nat {
    4 * ThreadCount(p) + 7
  }

  ghost function Unclaimed(p: Params, s: State): int {
    2 * Products(p) - s.pcnt - s.ccnt
  }

  ghost function Ranks(p: Params, s: State): nat {
    Total(s.threads, Rank(ThreadCount(p), s.pcnt, s.ccnt))
  }

  ghost function MainRank(p: Params, s: State): int {
    2 * ThreadCount(p) - s.created - s.joined + (if s.status == Running then 1 else 0)
  }

  ghost function Measure(p: Params, s: State): int {
    PerTicket(p) * Unclaimed(p, s) + Ranks(p, s) + MainRank(p, s)
  }

  lemma ProductOfNaturals(a: nat, b: nat)
    ensures a * b >= 0
  {
  }

  lemma MeasureNonNegative(p: Params, s: State)
    requires Inv(p, s)
    ensures Measure(p, s) >= 0
  {
    assert MainRank(p, s) >= 0;
    ProductOfNaturals(PerTicket(p), Unclaimed(p, s));
  }

  /** When a counter moves on, a cached copy of it may become stale, which costs its thread two more steps. */
  lemma StaleCost(p: Params, s: State, pcnt': int, ccnt': int)
    requires Bounds(p, s) && s.pcnt <= pcnt' && s.ccnt <= ccnt'
    ensures Total(s.threads, Rank(ThreadCount(p), pcnt', ccnt'))
         <= Total(s.threads, Rank(ThreadCount(p), s.pcnt, s.ccnt)) + 2 * |s.threads|
  {
    var g, g' := Rank(ThreadCount(p), s.pcnt, s.ccnt), Rank(ThreadCount(p), pcnt', ccnt');
    forall i | 0 <= i < |s.threads|
      ensures g'(s.threads[i]) <= g(s.threads[i]) + 2
    {
      assert CacheBounded(p, s, s.threads[i]);
    }
    SumShift(Weights(s.threads, g), Weights(s.threads, g'), 2);
  }

  /** A claim makes at most every other thread retry. */
  lemma ClaimRanks(p: Params, s: State, s': State, m: nat)
    requires Moves(p, s, s', m, {}) && |s.threads| == ThreadCount(p) && Bounds(p, s)
    requires s'.threads[m].pc.Locking?
    ensures Ranks(p, s') <= Ranks(p, s) + 4 * ThreadCount(p) + 6
  {
    assert Wake(s.threads, {}) == s.threads;
    EffectTotal(p, s, s', m, {}, Rank(ThreadCount(p), s'.pcnt, s'.ccnt));
    StaleCost(p, s, s'.pcnt, s'.ccnt);
  }

  /** Waking lifts each waiter by two. */
  lemma WakeCost(ths: seq<Thread>, wake: set<nat>, t: nat, pcnt: int, ccnt: int)
    ensures Total(Wake(ths, wake), Rank(t, pcnt, ccnt)) <= Total(ths, Rank(t, pcnt, ccnt)) + 2 * |ths|
  {
    SumShift(Weights(ths, Rank(t, pcnt, ccnt)), Weights(Wake(ths, wake), Rank(t, pcnt, ccnt)), 2);
  }

  /** A signal lifts each waiter by two at most, which the signaller's own rank pays for. */
  lemma SignalRanks(p: Params, s: State, s': State, m: nat, wake: set<nat>)
    requires Moves(p, s, s', m, wake) && |s.threads| == ThreadCount(p) && s.threads[m].pc.Signalling?
    ensures Ranks(p, s') < Ranks(p, s)
  {
    EffectTotal(p, s, s', m, wake, Rank(ThreadCount(p), s.pcnt, s.ccnt));
    WakeCost(s.threads, wake, ThreadCount(p), s.pcnt, s.ccnt);
  }

  /** Any other move of a thread lowers its rank, except that a spurious wake-up lifts it by two. */
  lemma PlainRanks(p: Params, s: State, s': State, m: nat)
    requires Moves(p, s, s', m, {})
    requires !s'.threads[m].pc.Locking? && !s.threads[m].pc.Signalling?
    ensures if s.threads[m].pc.Waiting? then Ranks(p, s') == Ranks(p, s) + 2 else Ranks(p, s') < Ranks(p, s)
  {
    assert Wake(s.threads, {}) == s.threads;
    EffectTotal(p, s, s', m, {}, Rank(ThreadCount(p), s.pcnt, s.ccnt));
  }

  lemma EffectMeasure(p: Params, s: State, s': State, m: nat, wake: set<nat>)
    requires Moves(p, s, s', m, wake) && Follows(p, s, s', m) && Shape(p, s) && Bounds(p, s)
    ensures if s.threads[m].pc.Waiting? then Measure(p, s') == Measure(p, s) + 2
            else Measure(p, s') < Measure(p, s)
  {
    if s'.threads[m].pc.Locking? {
      ClaimRanks(p, s, s', m);
      OneTicketLess(PerTicket(p), Unclaimed(p, s), Unclaimed(p, s'));
    } else {
      assert Unclaimed(p, s') == Unclaimed(p, s);
      if s.threads[m].pc.Signalling? {
        SignalRanks(p, s, s', m, wake);
      } else {
        PlainRanks(p, s, s', m);
      }
    }
  }

  lemma OneTicketLess(c: nat, u: int, u': int)
    requires u' == u - 1
    ensures c * u' == c * u - c
  {
  }

  /** Every step lowers the measure, except that a spurious wake-up raises it by two. */
  lemma MeasureDecreases(p: Params, s: State, a: Action)
    requires Inv(p, s) && Step(p, s, a).Some?
    ensures var s' := Step(p, s, a).value;
      if a.Spurious? then Measure(p, s') == Measure(p, s) + 2 else Measure(p, s') < Measure(p, s)
  {
    StepHasEffect(p, s, a);
    var s' := Step(p, s, a).value;
    if a.Join? || a.FinalAssert? {
      assert s'.threads == s.threads && Unclaimed(p, s') == Unclaimed(p, s);
    } else {
      EffectMeasure(p, s, s', Mover(s, a), Awakened(s, a));
    }
  }

  function SpuriousCount(acts: seq<Action>): nat {
    if acts == [] then 0
    else SpuriousCount(acts[..|acts| - 1]) + (if acts[|acts| - 1].Spurious? then 1 else 0)
  }

  /** The number of steps that claiming and serving all tickets can take. */
  function StepBound(p: Params): nat {
    PerTicket(p) * (2 * Products(p)) + 5 * ThreadCount(p) + 1
  }

  lemma {:induction false} MeasureBoundsRun(p: Params, acts: seq<Action>)
    requires Exec(p, acts).Some?
    ensures Measure(p, Exec(p, acts).value) + |acts| <= StepBound(p) + 3 * SpuriousCount(acts)
  {
    if acts == [] {
      var s := Init(p);
      var g := Rank(ThreadCount(p), 0, 0);
      SumShift(seq(|s.threads|, _ => 0), Weights(s.threads, g), 3);
      SumZero(seq(|s.threads|, _ => 0));
    } else {
      var before := acts[..|acts| - 1];
      MeasureBoundsRun(p, before);
      InvAlways(p, before);
      MeasureDecreases(p, Exec(p, before).value, acts[|acts| - 1]);
    }
  }

  /** Every run is finite: its length is bounded by the parameters and the number of spurious wake-ups. */
  lemma {:induction false} RunsAreBounded(p: Params, acts: seq<Action>)
    requires Exec(p, acts).Some?
    ensures |acts| <= StepBound(p) + 3 * SpuriousCount(acts)
  {
    MeasureBoundsRun(p, acts);
    InvAlways(p, acts);
    MeasureNonNegative(p, Exec(p, acts).value);
  }

  /** Nothing can happen any more, apart from spurious wake-ups. */
  ghost predicate Stuck(p: Params, s: State) {
    forall a :: Step(p, s, a).Some? ==> a.Spurious?
  }

  /** If main gets past its joins, the parameters let all threads exit. */
  lemma JoinedMeansJoins(p: Params, s: State)
    requires Inv(p, s) && s.joined == |s.threads|
    ensures Joins(p)
  {
    AllExited(p, s);
  }

  /**
    How every run ends that cannot go on: main returns from its final assert exactly if there is nothing to
    produce, no thread at all, or at least one thread on each side; otherwise the final assert fails exactly
    if there are no consumers and everything fits in the ring, and in all other cases it is a deadlock.
   */
  lemma FinishesExactly(p: Params, acts: seq<Action>)
    requires Exec(p, acts).Some? && Stuck(p, Exec(p, acts).value)
    ensures Exec(p, acts).value.status ==
      if Completes(p) then Returned else if Joins(p) then FinalAssertFailed else Running
  {
    InvAlways(p, acts);
    var s := Exec(p, acts).value;
    if s.status != Running {
      FinalAssertExact(p, s);
      JoinedMeansJoins(p, s);
    } else if Joins(p) {
      var a := NoDeadlock(p, s);
      assert false;
    }
  }

  lemma ExecStep(p: Params, acts: seq<Action>, a: Action)
    requires Exec(p, acts).Some?
    ensures Exec(p, acts + [a]) == Step(p, Exec(p, acts).value, a)
  {
    assert (acts + [a])[..|acts + [a]| - 1] == acts;
  }

  /** A run that has not finished can be extended by a step that makes progress. */
  lemma {:induction false} OneStepFurther(p: Params, acts: seq<Action>) returns (a: Action)
    requires Exec(p, acts).Some? && Exec(p, acts).value.status == Running && Completes(p)
    ensures !a.Spurious? && Exec(p, acts + [a]).Some?
    ensures 0 <= Measure(p, Exec(p, acts + [a]).value) < Measure(p, Exec(p, acts).value)
  {
    InvAlways(p, acts);
    a := NoDeadlock(p, Exec(p, acts).value);
    ExecStep(p, acts, a);
    MeasureDecreases(p, Exec(p, acts).value, a);
    InvAlways(p, acts + [a]);
    MeasureNonNegative(p, Exec(p, acts + [a]).value);
  }

  lemma OverMeansReturned(p: Params, acts: seq<Action>)
    requires Exec(p, acts).Some? && Exec(p, acts).value.status != Running && Completes(p)
    ensures Exec(p, acts).value.status == Returned
  {
    InvAlways(p, acts);
    FinalAssertExact(p, Exec(p, acts).value);
  }

  lemma {:induction false} FinishWithin(p: Params, acts: seq<Action>, n: nat) returns (full: seq<Action>)
    requires Exec(p, acts).Some? && Completes(p) && Measure(p, Exec(p, acts).value) <= n
    ensures acts <= full && Exec(p, full).Some? && Exec(p, full).value.status == Returned
    ensures forall i :: |acts| <= i < |full| ==> !full[i].Spurious?
    decreases n
  {
    if Exec(p, acts).value.status == Running {
      var a := OneStepFurther(p, acts);
      full := FinishWithin(p, acts + [a], n - 1);
      assert full[|acts|] == a;
    } else {
      OverMeansReturned(p, acts);
      full := acts;
    }
  }

  /** Any run can be continued, without further spurious wake-ups, until main returns. */
  lemma {:induction false} CanAlwaysFinish(p: Params, acts: seq<Action>) returns (full: seq<Action>)
    requires Exec(p, acts).Some? && Completes(p)
    ensures acts <= full && Exec(p, full).Some? && Exec(p, full).value.status == Returned
    ensures forall i :: |acts| <= i < |full| ==> !full[i].Spurious?
  {
    InvAlways(p, acts);
    MeasureNonNegative(p, Exec(p, acts).value);
    full := FinishWithin(p, acts, Measure(p, Exec(p, acts).value));
  }
}
