/**
  Many threads counting one shared number down to zero: the compare-and-swap loop of
  atomic/atomic_basic.cpp (atomic/test_gcc_atomic.cpp is the same loop written in place) and the mutex
  loop of atomic/test_gcc_atomic_use_lock.cpp, against one atomic specification.
 */
module CountdownSpec {

  /** The number left, and the values handed out so far, oldest first. */
  datatype Abstract = Abstract(num: int, claims: seq<int>)

  /** Nothing happens, or a positive number is claimed and decremented. */
  predicate AbstractNext(a: Abstract, b: Abstract) {
    b == a || (a.num > 0 && b == Abstract(a.num - 1, a.claims + [a.num]))
  }

  /** start, start - 1, ..., end + 1. */
  function Down(start: int, end: int): seq<int>
    decreases start - end
  {
    if start <= end then [] else Down(start, end + 1) + [end + 1]
  }

  /** What there is to count down: nothing from a number that is not positive. */
  function Positive(n: int): nat {
    if n > 0 then n else 0
  }

  /** The invariant of the specification: what has been handed out is a countdown, and it stops at zero. */
  predicate AbstractInv(start: int, a: Abstract) {
    && a.num <= start
    && (start > 0 ==> a.num >= 0)
    && (start <= 0 ==> a.num == start)
    && a.claims == Down(start, a.num)
  }

  lemma AbstractInvPreserved(start: int, a: Abstract, b: Abstract)
    requires AbstractInv(start, a) && AbstractNext(a, b)
    ensures AbstractInv(start, b)
  {
  }

  /** A countdown hands out every number from end + 1 to start once. */
  lemma {:induction false} DownCounts(start: int, end: int, v: int)
    ensures multiset(Down(start, end))[v] == if end < v <= start then 1 else 0
    decreases start - end
  {
    if start > end {
      DownCounts(start, end + 1, v);
    }
  }
}

/** The compare-and-swap loop. */
module CasCountdown {
  import opened Wrappers
  import opened CountdownSpec
  import opened Tally

  /**
    Reading: about to read the counter in the loop condition. Swapping: about to compare-and-swap.
    Working: the swap succeeded and the work function is about to be called. Returning: the inner loop
    ended and the outer condition is about to test its result.
   */
  datatype Pc = Reading | Swapping(now: int) | Working(now: int) | Returning(now: int) | Exited

  /** handed lists the calls of the work function; failures counts the failed swaps. */
  datatype State = State(num: int, threads: seq<Pc>, claims: seq<int>, handed: seq<int>, failures: nat)

  function Init(threads: nat, start: int): State {
    State(start, seq(threads, _ => Reading), [], [], 0)
  }

  function Step(s: State, tid: nat): Option<State> {
    if tid >= |s.threads| then None else
    match s.threads[tid]
    case Reading =>
      Some(s.(threads := s.threads[tid := if s.num > 0 then Swapping(s.num) else Returning(s.num)]))
    case Swapping(now) =>
      if s.num == now
      then Some(s.(num := now - 1, threads := s.threads[tid := Working(now)], claims := s.claims + [now]))
      else Some(s.(threads := s.threads[tid := Reading], failures := s.failures + 1))
    case Working(now) =>
      Some(s.(threads := s.threads[tid := Reading], handed := s.handed + [now]))
    case Returning(now) =>
      Some(s.(threads := s.threads[tid := if now > 0 then Reading else Exited]))
    case Exited => None
  }

  /** Runs: tids is the list of threads in the order in which the scheduler lets them step. */
  function Exec(threads: nat, start: int, tids: seq<nat>): Option<State> {
    if tids == [] then Some(Init(threads, start)) else
    match Exec(threads, start, tids[..|tids| - 1])
    case None => None
    case Some(s) => Step(s, tids[|tids| - 1])
  }

  function View(s: State): Abstract {
    Abstract(s.num, s.claims)
  }

  /** Threads whose next swap will fail. */
  function Stale(num: int): Pc -> nat {
    (pc: Pc) => if pc.Swapping? && pc.now != num then 1 else 0
  }

  /** Threads that are about to work on v. */
  function AtWork(v: int): Pc -> nat {
    (pc: Pc) => if pc == Working(v) then 1 else 0
  }

  /** Remaining steps of a thread. */
  function Rank(num: int): Pc -> nat {
    (pc: Pc) =>
      match pc
      case Reading => 3
      case Swapping(now) => if now == num then 2 else 4
      case Working(_) => 4
      case Returning(_) => 1
      case Exited => 0
  }

  /** A thread that is about to swap read a positive number; one that left read one that was not positive. */
  predicate CacheOk(start: int, num: int, pc: Pc) {
    && (pc.Swapping? ==> 0 < pc.now && num <= pc.now)
    && (pc.Returning? ==> pc.now == num <= 0)
    && (pc.Exited? ==> num <= 0)
  }

  ghost predicate WorkOnce(s: State, v: int) {
    multiset(s.claims)[v] == multiset(s.handed)[v] + Total(s.threads, AtWork(v))
  }

  /** Counting steps taken by successful swaps, and what they can cost the other threads in retries. */
  function Claimed(start: int, s: State): int {
    start - s.num
  }

  ghost predicate Inv(threads: nat, start: int, s: State) {
    && |s.threads| == threads
    && AbstractInv(start, View(s))
    && (forall i :: 0 <= i < threads ==> CacheOk(start, s.num, s.threads[i]))
    && (forall v :: WorkOnce(s, v))
    && (threads > 0 ==> s.failures + Total(s.threads, Stale(s.num)) <= Claimed(start, s) * (threads - 1))
  }

  /** Every step of every thread is a step of the atomic specification. */
  lemma StepRefines(threads: nat, start: int, s: State, tid: nat)
    requires Inv(threads, start, s) && Step(s, tid).Some?
    ensures AbstractNext(View(s), View(Step(s, tid).value))
  {
  }

  lemma WorkOncePreserved(threads: nat, start: int, s: State, tid: nat, v: int)
    requires Inv(threads, start, s) && Step(s, tid).Some?
    ensures WorkOnce(Step(s, tid).value, v)
  {
    assert WorkOnce(s, v);
    var s' := Step(s, tid).value;
    TotalUpdate(s.threads, tid, s'.threads[tid], AtWork(v));
  }

  /** A successful swap makes at most the other threads stale. */
  lemma SuccessStales(ths: seq<Pc>, tid: nat, num: int)
    requires tid < |ths| && ths[tid] == Swapping(num)
    ensures Total(ths[tid := Working(num)], Stale(num - 1)) <= Total(ths, Stale(num)) + |ths| - 1
  {
    TotalUpdate(ths, tid, Working(num), Stale(num - 1));
    SumShift(Weights(ths, Stale(num)), Weights(ths, Stale(num - 1)), 1);
  }

  lemma OneMoreTimes(a: int, b: nat)
    ensures (a + 1) * b == a * b + b
  {
  }

  lemma RetriesPreserved(threads: nat, start: int, s: State, tid: nat)
    requires Inv(threads, start, s) && Step(s, tid).Some?
    ensures var s' := Step(s, tid).value;
      s'.failures + Total(s'.threads, Stale(s'.num)) <= Claimed(start, s') * (threads - 1)
  {
    var s' := Step(s, tid).value;
    assert CacheOk(start, s.num, s.threads[tid]);
    if s.threads[tid] == Swapping(s.num) {
      SuccessStales(s.threads, tid, s.num);
      OneMoreTimes(Claimed(start, s), threads - 1);
    } else {
      TotalUpdate(s.threads, tid, s'.threads[tid], Stale(s.num));
      assert Claimed(start, s') == Claimed(start, s);
    }
  }

  lemma CachesPreserved(threads: nat, start: int, s: State, tid: nat)
    requires Inv(threads, start, s) && Step(s, tid).Some?
    ensures var s' := Step(s, tid).value;
      |s'.threads| == threads && forall i :: 0 <= i < threads ==> CacheOk(start, s'.num, s'.threads[i])
  {
    var s' := Step(s, tid).value;
    forall i | 0 <= i < threads
      ensures CacheOk(start, s'.num, s'.threads[i])
    {
      assert CacheOk(start, s.num, s.threads[i]) && CacheOk(start, s.num, s.threads[tid]);
    }
  }

  lemma {:induction false} InvPreserved(threads: nat, start: int, s: State, tid: nat)
    requires Inv(threads, start, s) && Step(s, tid).Some?
    ensures Inv(threads, start, Step(s, tid).value)
  {
    var s' := Step(s, tid).value;
    StepRefines(threads, start, s, tid);
    AbstractInvPreserved(start, View(s), View(s'));
    RetriesPreserved(threads, start, s, tid);
    forall v
      ensures WorkOnce(s', v)
    {
      WorkOncePreserved(threads, start, s, tid, v);
    }
    CachesPreserved(threads, start, s, tid);
  }

  lemma InvInit(threads: nat, start: int)
    ensures Inv(threads, start, Init(threads, start))
  {
    var s := Init(threads, start);
    SumZero(Weights(s.threads, Stale(start)));
    forall v
      ensures WorkOnce(s, v)
    {
      SumZero(Weights(s.threads, AtWork(v)));
    }
  }

  lemma {:induction false} InvAlways(threads: nat, start: int, tids: seq<nat>)
    requires Exec(threads, start, tids).Some?
    ensures Inv(threads, start, Exec(threads, start, tids).value)
  {
    if tids == [] {
      InvInit(threads, start);
    } else {
      var before := tids[..|tids| - 1];
      InvAlways(threads, start, before);
      InvPreserved(threads, start, Exec(threads, start, before).value, tids[|tids| - 1]);
    }
  }

  // ---------------------------------------------------------------- over whole runs

  /** In every run the claims are start, start - 1, ... without gap or repetition, and zero is never passed. */
  lemma ClaimsCountDown(threads: nat, start: int, tids: seq<nat>)
    requires Exec(threads, start, tids).Some?
    ensures var s := Exec(threads, start, tids).value;
      && s.claims == Down(start, s.num)
      && if start > 0 then 0 <= s.num <= start else s.num == start && s.claims == []
  {
    InvAlways(threads, start, tids);
  }

  /** Every claimed number is handed to the work function once, or is about to be; no other number is. */
  lemma HandedOnce(threads: nat, start: int, tids: seq<nat>, v: int)
    requires Exec(threads, start, tids).Some?
    ensures var s := Exec(threads, start, tids).value;
      multiset(s.handed)[v] + Total(s.threads, AtWork(v)) == if s.num < v <= start then 1 else 0
  {
    InvAlways(threads, start, tids);
    var s := Exec(threads, start, tids).value;
    assert WorkOnce(s, v);
    DownCounts(start, s.num, v);
  }

  predicate AllExited(s: State) {
    forall i :: 0 <= i < |s.threads| ==> s.threads[i].Exited?
  }

  lemma NobodyAtWork(s: State, v: int)
    requires AllExited(s)
    ensures Total(s.threads, AtWork(v)) == 0
  {
    SumZero(Weights(s.threads, AtWork(v)));
  }

  /** When all threads are done the number is zero and the work function has had 1, ..., start, once each. */
  lemma AllWorkDone(threads: nat, start: int, tids: seq<nat>)
    requires threads > 0 && Exec(threads, start, tids).Some? && AllExited(Exec(threads, start, tids).value)
    ensures var s := Exec(threads, start, tids).value;
      s.num == (if start > 0 then 0 else start) && multiset(s.handed) == multiset(Down(start, 0))
  {
    InvAlways(threads, start, tids);
    var s := Exec(threads, start, tids).value;
    assert CacheOk(start, s.num, s.threads[0]);
    forall v
      ensures multiset(s.handed)[v] == multiset(Down(start, 0))[v]
    {
      HandedOnce(threads, start, tids, v);
      DownCounts(start, 0, v);
      NobodyAtWork(s, v);
    }
  }

  /** No run has more failed swaps than start times the number of other threads. */
  lemma RetryBound(threads: nat, start: int, tids: seq<nat>)
    requires threads > 0 && Exec(threads, start, tids).Some?
    ensures Exec(threads, start, tids).value.failures <= Positive(start) * (threads - 1)
  {
    InvAlways(threads, start, tids);
    ProductMonotone(Claimed(start, Exec(threads, start, tids).value), Positive(start), threads - 1);
  }

  lemma ProductMonotone(a: int, b: int, c: nat)
    requires a <= b
    ensures a * c <= b * c
  {
  }

  ghost function Measure(s: State): int {
    Positive(s.num) * (2 * |s.threads| + 1) + Total(s.threads, Rank(s.num))
  }

  lemma MeasureDecreases(threads: nat, start: int, s: State, tid: nat)
    requires Inv(threads, start, s) && Step(s, tid).Some?
    ensures Measure(Step(s, tid).value) < Measure(s)
  {
    var s' := Step(s, tid).value;
    assert CacheOk(start, s.num, s.threads[tid]);
    if s.threads[tid] == Swapping(s.num) {
      TotalUpdate(s.threads, tid, Working(s.num), Rank(s.num - 1));
      SumShift(Weights(s.threads, Rank(s.num)), Weights(s.threads, Rank(s.num - 1)), 2);
      OneMoreTimes(s'.num, 2 * threads + 1);
    } else {
      TotalUpdate(s.threads, tid, s'.threads[tid], Rank(s.num));
    }
  }

  lemma {:induction false} MeasureBoundsRun(threads: nat, start: int, tids: seq<nat>)
    requires Exec(threads, start, tids).Some?
    ensures Measure(Exec(threads, start, tids).value) + |tids| <= Positive(start) * (2 * threads + 1) + 3 * threads
  {
    if tids == [] {
      var s := Init(threads, start);
      SumZero(seq(threads, _ => 0));
      SumShift(seq(threads, _ => 0), Weights(s.threads, Rank(start)), 3);
    } else {
      var before := tids[..|tids| - 1];
      MeasureBoundsRun(threads, start, before);
      InvAlways(threads, start, before);
      MeasureDecreases(threads, start, Exec(threads, start, before).value, tids[|tids| - 1]);
    }
  }

  lemma MeasureNonNegative(s: State)
    ensures Measure(s) >= 0
  {
    ProductMonotone(0, Positive(s.num), 2 * |s.threads| + 1);
  }

  function StepBound(threads: nat, start: int): nat {
    Positive(start) * (2 * threads + 1) + 3 * threads
  }

  /** Every run is finite, with a bound on its length. */
  lemma RunsAreBounded(threads: nat, start: int, tids: seq<nat>)
    requires Exec(threads, start, tids).Some?
    ensures |tids| <= StepBound(threads, start)
  {
    MeasureBoundsRun(threads, start, tids);
    InvAlways(threads, start, tids);
    MeasureNonNegative(Exec(threads, start, tids).value);
  }

  /**
    Every thread that has not exited can step at any time, so the theorems cover every interleaving. A step
    moves one thread; it counts down in a swap that finds the number it read, and in nothing else.
   */
  lemma StepExactly(s: State, tid: nat)
    ensures Step(s, tid).Some? <==> tid < |s.threads| && !s.threads[tid].Exited?
    ensures Step(s, tid).Some? ==>
      var s', pc := Step(s, tid).value, s.threads[tid];
      && s'.threads == s.threads[tid := s'.threads[tid]]
      && s'.num == s.num - (if pc == Swapping(s.num) then 1 else 0)
      && s'.claims == s.claims + (if pc == Swapping(s.num) then [s.num] else [])
      && s'.failures == s.failures + (if pc.Swapping? && pc.now != s.num then 1 else 0)
      && s'.handed == s.handed + (if pc.Working? then [pc.now] else [])
      && (s'.threads[tid].Exited? <==> pc.Returning? && pc.now <= 0)
  {
  }

  /** Until all threads have exited some thread can step: nobody ever waits for anybody. */
  lemma NoDeadlock(s: State) returns (tid: nat)
    requires !AllExited(s)
    ensures tid < |s.threads| && !s.threads[tid].Exited? && Step(s, tid).Some?
  {
    tid :| tid < |s.threads| && !s.threads[tid].Exited?;
  }

  /** Every run can be continued until all threads have exited, and then all the work has been done. */
  lemma {:induction false} CanFinish(threads: nat, start: int, tids: seq<nat>) returns (full: seq<nat>)
    requires threads > 0 && Exec(threads, start, tids).Some?
    ensures tids <= full && Exec(threads, start, full).Some? && AllExited(Exec(threads, start, full).value)
    ensures multiset(Exec(threads, start, full).value.handed) == multiset(Down(start, 0))
    decreases StepBound(threads, start) - |tids|
  {
    var s := Exec(threads, start, tids).value;
    if AllExited(s) {
      full := tids;
      AllWorkDone(threads, start, tids);
    } else {
      var tid := NoDeadlock(s);
      ExecStep(threads, start, tids, tid);
      RunsAreBounded(threads, start, tids + [tid]);
      full := CanFinish(threads, start, tids + [tid]);
    }
  }

  // ---------------------------------------------------------------- the bound is attained

  /** 0, 1, ..., k - 1: each thread below k steps once. */
  function Sweep(k: nat): (tids: seq<nat>)
    ensures |tids| == k
  {
    if k == 0 then [] else Sweep(k - 1) + [k - 1]
  }

  /** The first k threads are at pc, the others at rest. */
  predicate FirstAre(ths: seq<Pc>, k: nat, pc: Pc, rest: Pc) {
    forall i :: 0 <= i < |ths| ==> ths[i] == if i < k then pc else rest
  }

  lemma ExecStep(threads: nat, start: int, tids: seq<nat>, tid: nat)
    requires Exec(threads, start, tids).Some?
    ensures Exec(threads, start, tids + [tid]) == Step(Exec(threads, start, tids).value, tid)
  {
    assert (tids + [tid])[..|tids + [tid]| - 1] == tids;
  }

  lemma OneRead(s: State, k: nat)
    requires s.num > 0 && k < |s.threads| && FirstAre(s.threads, k, Swapping(s.num), Reading)
    ensures Step(s, k) == Some(s.(threads := s.threads[k := Swapping(s.num)]))
    ensures FirstAre(s.threads[k := Swapping(s.num)], k + 1, Swapping(s.num), Reading)
  {
  }

  /** Each thread below k reads the number. */
  lemma {:induction false} SweepReads(threads: nat, start: int, tids: seq<nat>, k: nat)
    requires Exec(threads, start, tids).Some?
    requires var s := Exec(threads, start, tids).value;
      s.num > 0 && k <= |s.threads| && FirstAre(s.threads, 0, Reading, Reading)
    ensures Exec(threads, start, tids + Sweep(k)).Some?
    ensures var s, s' := Exec(threads, start, tids).value, Exec(threads, start, tids + Sweep(k)).value;
      && s' == s.(threads := s'.threads)
      && |s'.threads| == |s.threads| && FirstAre(s'.threads, k, Swapping(s.num), Reading)
  {
    if k == 0 {
      assert tids + Sweep(0) == tids;
    } else {
      SweepReads(threads, start, tids, k - 1);
      var before := tids + Sweep(k - 1);
      assert tids + Sweep(k) == before + [k - 1];
      ExecStep(threads, start, before, k - 1);
      OneRead(Exec(threads, start, before).value, k - 1);
    }
  }

  /** After the swap of thread 0 each other thread below k fails its own. */
  lemma {:induction false} SweepFails(threads: nat, start: int, tids: seq<nat>, num: int, k: nat)
    requires Exec(threads, start, tids).Some?
    requires var s := Exec(threads, start, tids).value;
      && 1 <= k <= |s.threads| && s.num != num
      && s.threads[0] == Working(num) && FirstAre(s.threads[1..], 0, Reading, Swapping(num))
    ensures Exec(threads, start, tids + Sweep(k)[1..]).Some?
    ensures var s, s' := Exec(threads, start, tids).value, Exec(threads, start, tids + Sweep(k)[1..]).value;
      && s' == s.(threads := s'.threads, failures := s.failures + k - 1)
      && |s'.threads| == |s.threads|
      && s'.threads[0] == Working(num) && FirstAre(s'.threads[1..], k - 1, Reading, Swapping(num))
  {
    if k == 1 {
      assert Sweep(1) == [0] && tids + Sweep(1)[1..] == tids;
    } else {
      SweepFails(threads, start, tids, num, k - 1);
      var before := tids + Sweep(k - 1)[1..];
      assert tids + Sweep(k)[1..] == before + [k - 1];
      ExecStep(threads, start, before, k - 1);
      var s1 := Exec(threads, start, before).value;
      assert s1.threads[1..][k - 2] == s1.threads[k - 1];
      assert Exec(threads, start, before + [k - 1]).value.threads[1..] == s1.threads[1..][k - 2 := Reading];
    }
  }

  /** One round: everybody reads, thread 0 wins, everybody else fails, thread 0 works. */
  lemma WorstRound(threads: nat, start: int, tids: seq<nat>) returns (tids': seq<nat>)
    requires Exec(threads, start, tids).Some?
    requires var s := Exec(threads, start, tids).value;
      s.num > 0 && |s.threads| > 0 && FirstAre(s.threads, 0, Reading, Reading)
    ensures Exec(threads, start, tids').Some?
    ensures var s, s' := Exec(threads, start, tids).value, Exec(threads, start, tids').value;
      && s'.num == s.num - 1
      && |s'.threads| == |s.threads| && FirstAre(s'.threads, 0, Reading, Reading)
      && s'.failures == s.failures + |s.threads| - 1
  {
    var s := Exec(threads, start, tids).value;
    var n := |s.threads|;
    SweepReads(threads, start, tids, n);
    ExecStep(threads, start, tids + Sweep(n), 0);
    var won := tids + Sweep(n) + [0];
    SweepFails(threads, start, won, s.num, n);
    var lost := won + Sweep(n)[1..];
    ExecStep(threads, start, lost, 0);
    tids' := lost + [0];
    var s1, s' := Exec(threads, start, lost).value, Exec(threads, start, tids').value;
    forall i | 0 <= i < n
      ensures s'.threads[i] == Reading
    {
      if i > 0 {
        assert s1.threads[1..][i - 1] == s1.threads[i];
      }
    }
  }

  /** The retry bound cannot be improved: for every start and every number of threads some run attains it. */
  lemma {:induction false} RetryBoundAttained(threads: nat, start: nat, rounds: nat) returns (tids: seq<nat>)
    requires threads > 0 && rounds <= start
    ensures Exec(threads, start, tids).Some?
    ensures var s := Exec(threads, start, tids).value;
      && s.num == start - rounds
      && |s.threads| == threads && FirstAre(s.threads, 0, Reading, Reading)
      && s.failures == rounds * (threads - 1)
  {
    if rounds == 0 {
      tids := [];
    } else {
      var before := RetryBoundAttained(threads, start, rounds - 1);
      tids := WorstRound(threads, start, before);
      OneMoreTimes(rounds - 1, threads - 1);
    }
  }
}

/** The mutex loop, whose loop condition is a copy of the number in an int of 32 bits. */
module LockCountdown {
  import opened Wrappers
  import opened CountdownSpec
  import opened Tally

  const WORD := 0x1_0000_0000

  /** The conversion of a long long to an int of 32 bits. */
  function ToInt(v: int): (r: int)
    ensures -0x8000_0000 <= r < 0x8000_0000
    ensures (v - r) % 0x1_0000_0000 == 0
  {
    (v + WORD / 2) % WORD - WORD / 2
  }

  /** Counting and Caching are the two statements inside the mutex. */
  datatype Pc =
    | Starting
    | Testing(cache: int)
    | Locking
    | Counting
    | Caching
    | Unlocking(cache: int)
    | Exited

  datatype State = State(num: int, mutex: Option<nat>, threads: seq<Pc>, claims: seq<int>)

  function Init(threads: nat, start: int): State {
    State(start, None, seq(threads, _ => Starting), [])
  }

  function Step(s: State, tid: nat): Option<State> {
    if tid >= |s.threads| then None else
    match s.threads[tid]
    case Starting =>
      Some(s.(threads := s.threads[tid := Testing(ToInt(s.num))]))
    case Testing(cache) =>
      Some(s.(threads := s.threads[tid := if cache != 0 then Locking else Exited]))
    case Locking =>
      if s.mutex == None then Some(s.(mutex := Some(tid), threads := s.threads[tid := Counting])) else None
    case Counting =>
      if s.num > 0
      then Some(s.(num := s.num - 1, claims := s.claims + [s.num], threads := s.threads[tid := Caching]))
      else Some(s.(threads := s.threads[tid := Caching]))
    case Caching =>
      Some(s.(threads := s.threads[tid := Unlocking(ToInt(s.num))]))
    case Unlocking(cache) =>
      Some(s.(mutex := None, threads := s.threads[tid := Testing(cache)]))
    case Exited => None
  }

  function Exec(threads: nat, start: int, tids: seq<nat>): Option<State> {
    if tids == [] then Some(Init(threads, start)) else
    match Exec(threads, start, tids[..|tids| - 1])
    case None => None
    case Some(s) => Step(s, tids[|tids| - 1])
  }

  function View(s: State): Abstract {
    Abstract(s.num, s.claims)
  }

  predicate Holding(pc: Pc) {
    pc.Counting? || pc.Caching? || pc.Unlocking?
  }

  /** The starts for which the 32-bit copy is zero exactly when the number is. */
  predicate InRange(start: int) {
    0 <= start < WORD
  }

  /** The copy a thread acts on: zero once it has read zero. */
  predicate SawZero(pc: Pc) {
    pc.Exited? || ((pc.Testing? || pc.Unlocking?) && pc.cache == 0)
  }

  ghost predicate Inv(threads: nat, start: int, s: State) {
    && |s.threads| == threads
    && AbstractInv(start, View(s))
    && (forall i :: 0 <= i < threads ==> (Holding(s.threads[i]) <==> s.mutex == Some(i)))
    && (s.mutex.Some? ==> s.mutex.value < threads)
    && (InRange(start) ==> forall i :: 0 <= i < threads && SawZero(s.threads[i]) ==> s.num == 0)
    && (start < 0 && ToInt(start) != 0 ==> forall i :: 0 <= i < threads ==> !SawZero(s.threads[i]))
  }

  lemma ToIntZero(v: int)
    ensures ToInt(v) == 0 <==> v % WORD == 0
  {
  }

  /** Every step of every thread is a step of the atomic specification, the same one as for the swap loop. */
  lemma StepRefines(threads: nat, start: int, s: State, tid: nat)
    requires Inv(threads, start, s) && Step(s, tid).Some?
    ensures AbstractNext(View(s), View(Step(s, tid).value))
  {
  }

  lemma InvPreserved(threads: nat, start: int, s: State, tid: nat)
    requires Inv(threads, start, s) && Step(s, tid).Some?
    ensures Inv(threads, start, Step(s, tid).value)
  {
  }

  lemma {:induction false} InvAlways(threads: nat, start: int, tids: seq<nat>)
    requires Exec(threads, start, tids).Some?
    ensures Inv(threads, start, Exec(threads, start, tids).value)
  {
    if tids != [] {
      var before := tids[..|tids| - 1];
      InvAlways(threads, start, before);
      InvPreserved(threads, start, Exec(threads, start, before).value, tids[|tids| - 1]);
    }
  }

  predicate AllExited(s: State) {
    forall i :: 0 <= i < |s.threads| ==> s.threads[i].Exited?
  }

  /** For a start within 32 bits, all threads leave only when the number is zero and all claims were made. */
  lemma ExitsAtZero(threads: nat, start: int, tids: seq<nat>)
    requires threads > 0 && InRange(start)
    requires Exec(threads, start, tids).Some? && AllExited(Exec(threads, start, tids).value)
    ensures var s := Exec(threads, start, tids).value; s.num == 0 && s.claims == Down(start, 0)
  {
    InvAlways(threads, start, tids);
    assert SawZero(Exec(threads, start, tids).value.threads[0]);
  }

  /**
    A thread that has not exited can step at any time, except that it may have to wait for the mutex. A step
    moves one thread, and counts down only inside the mutex.
   */
  lemma StepExactly(s: State, tid: nat)
    ensures Step(s, tid).Some? <==>
      tid < |s.threads| && !s.threads[tid].Exited? && (s.threads[tid].Locking? ==> s.mutex == None)
    ensures Step(s, tid).Some? ==>
      var s', pc := Step(s, tid).value, s.threads[tid];
      && s'.threads == s.threads[tid := s'.threads[tid]]
      && s'.mutex == (if pc.Locking? then Some(tid) else if pc.Unlocking? then None else s.mutex)
      && s'.num == s.num - (if pc.Counting? && s.num > 0 then 1 else 0)
      && s'.claims == s.claims + (if pc.Counting? && s.num > 0 then [s.num] else [])
      && (s'.threads[tid].Exited? <==> pc.Testing? && pc.cache == 0)
  {
  }

  /** Whatever the start, some thread can step until all have exited. */
  lemma NoDeadlock(threads: nat, start: int, s: State) returns (tid: nat)
    requires Inv(threads, start, s) && !AllExited(s)
    ensures Step(s, tid).Some?
  {
    if s.mutex.Some? {
      tid := s.mutex.value;
      assert Holding(s.threads[tid]);
    } else {
      tid :| tid < |s.threads| && !s.threads[tid].Exited?;
    }
  }

  // ---------------------------------------------------------------- termination

  /** Remaining steps of a thread that does not decrement any more. */
  function Rank(num: int): Pc -> nat {
    (pc: Pc) =>
      match pc
      case Starting => 7
      case Testing(cache) => if cache == 0 then 1 else 6
      case Locking => 5
      case Counting => 4
      case Caching => if num == 0 then 3 else 8
      case Unlocking(cache) => if cache == 0 then 2 else 7
      case Exited => 0
  }

  ghost function Measure(s: State): int {
    5 * s.num + Total(s.threads, Rank(s.num))
  }

  /** The number never grows, and with a smaller number no thread has further to go. */
  lemma StepRanks(threads: nat, start: int, s: State, tid: nat)
    requires Inv(threads, start, s) && InRange(start) && Step(s, tid).Some?
    ensures var s' := Step(s, tid).value;
      Total(s'.threads, Rank(s'.num)) + Rank(s'.num)(s.threads[tid])
      <= Total(s.threads, Rank(s.num)) + Rank(s'.num)(s'.threads[tid])
  {
    var s' := Step(s, tid).value;
    SumShift(Weights(s.threads, Rank(s.num)), Weights(s.threads, Rank(s'.num)), 0);
    TotalUpdate(s.threads, tid, s'.threads[tid], Rank(s'.num));
  }

  lemma MeasureDecreases(threads: nat, start: int, s: State, tid: nat)
    requires Inv(threads, start, s) && InRange(start) && Step(s, tid).Some?
    ensures Measure(Step(s, tid).value) < Measure(s)
  {
    StepRanks(threads, start, s, tid);
    ToIntZero(s.num);
  }

  lemma {:induction false} MeasureBoundsRun(threads: nat, start: int, tids: seq<nat>)
    requires InRange(start) && Exec(threads, start, tids).Some?
    ensures Measure(Exec(threads, start, tids).value) + |tids| <= 5 * start + 7 * threads
  {
    if tids == [] {
      SumZero(seq(threads, _ => 0));
      SumShift(seq(threads, _ => 0), Weights(Init(threads, start).threads, Rank(start)), 7);
    } else {
      var before := tids[..|tids| - 1];
      MeasureBoundsRun(threads, start, before);
      InvAlways(threads, start, before);
      MeasureDecreases(threads, start, Exec(threads, start, before).value, tids[|tids| - 1]);
    }
  }

  /** For a start within 32 bits every run is finite. */
  lemma RunsAreBounded(threads: nat, start: int, tids: seq<nat>)
    requires InRange(start) && Exec(threads, start, tids).Some?
    ensures |tids| <= 5 * start + 7 * threads
  {
    MeasureBoundsRun(threads, start, tids);
    InvAlways(threads, start, tids);
  }

  lemma ExecStep(threads: nat, start: int, tids: seq<nat>, tid: nat)
    requires Exec(threads, start, tids).Some?
    ensures Exec(threads, start, tids + [tid]) == Step(Exec(threads, start, tids).value, tid)
  {
    assert (tids + [tid])[..|tids + [tid]| - 1] == tids;
  }

  lemma {:induction false} CanFinish(threads: nat, start: int, tids: seq<nat>) returns (full: seq<nat>)
    requires InRange(start) && Exec(threads, start, tids).Some?
    ensures tids <= full && Exec(threads, start, full).Some? && AllExited(Exec(threads, start, full).value)
    decreases 5 * start + 7 * threads - |tids|
  {
    InvAlways(threads, start, tids);
    var s := Exec(threads, start, tids).value;
    if AllExited(s) {
      full := tids;
    } else {
      var tid := NoDeadlock(threads, start, s);
      ExecStep(threads, start, tids, tid);
      RunsAreBounded(threads, start, tids + [tid]);
      full := CanFinish(threads, start, tids + [tid]);
    }
  }

  // ---------------------------------------------------------------- the exact range

  /** Only thread 0 has started, and it is about to test a fresh copy of the number. */
  ghost predicate Alone(threads: nat, s: State) {
    && threads > 0 && s.num >= 0 && s.mutex == None && |s.threads| == threads
    && s.threads[0] == Testing(ToInt(s.num))
    && (forall i :: 1 <= i < threads ==> s.threads[i] == Starting)
  }

  /** The first k threads have exited, the others have not started. */
  ghost predicate ExitedUpTo(threads: nat, s: State, k: nat) {
    |s.threads| == threads && forall i :: 0 <= i < threads ==> s.threads[i] == if i < k then Exited else Starting
  }

  /** One trip of thread 0 around its loop takes one off the number. */
  lemma OneTripAlone(threads: nat, start: int, tids: seq<nat>) returns (tids': seq<nat>)
    requires Exec(threads, start, tids).Some?
    requires var s := Exec(threads, start, tids).value; Alone(threads, s) && s.num % WORD != 0
    ensures Exec(threads, start, tids').Some?
    ensures var s, s' := Exec(threads, start, tids).value, Exec(threads, start, tids').value;
      Alone(threads, s') && s'.num == s.num - 1
  {
    var s := Exec(threads, start, tids).value;
    ToIntZero(s.num);
    tids' := tids;
    for i := 0 to 5
      invariant Exec(threads, start, tids').Some?
      invariant var s' := Exec(threads, start, tids').value;
        && s'.num == (if i < 3 then s.num else s.num - 1)
        && s'.mutex == (if 2 <= i <= 4 then Some(0) else None)
        && s'.threads == s.threads[0 :=
             if i == 0 then Testing(ToInt(s.num)) else if i == 1 then Locking else if i == 2 then Counting
             else if i == 3 then Caching else if i == 4 then Unlocking(ToInt(s.num - 1))
             else Testing(ToInt(s.num - 1))]
    {
      ExecStep(threads, start, tids', 0);
      tids' := tids' + [0];
    }
  }

  /** Thread 0 finds its copy zero and exits. */
  lemma LastTest(threads: nat, start: int, tids: seq<nat>)
    requires Exec(threads, start, tids).Some?
    requires var s := Exec(threads, start, tids).value; Alone(threads, s) && s.num % WORD == 0
    ensures Exec(threads, start, tids + [0]).Some?
    ensures var s, s' := Exec(threads, start, tids).value, Exec(threads, start, tids + [0]).value;
      ExitedUpTo(threads, s', 1) && s'.num == s.num
  {
    ToIntZero(Exec(threads, start, tids).value.num);
    ExecStep(threads, start, tids, 0);
  }

  /** Numbers between two multiples of the word share the lower one. */
  lemma SameWord(num: int)
    requires num % WORD != 0
    ensures num - 1 - (num - 1) % WORD == num - num % WORD
  {
  }

  /** Thread 0 alone counts down until its 32-bit copy is zero and exits. */
  lemma {:induction false} AloneUntilWrap(threads: nat, start: int, tids: seq<nat>, num: nat) returns (full: seq<nat>)
    requires Exec(threads, start, tids).Some?
    requires Alone(threads, Exec(threads, start, tids).value) && Exec(threads, start, tids).value.num == num
    ensures Exec(threads, start, full).Some?
    ensures ExitedUpTo(threads, Exec(threads, start, full).value, 1)
    ensures Exec(threads, start, full).value.num == num - num % WORD
    decreases num
  {
    if num % WORD == 0 {
      LastTest(threads, start, tids);
      full := tids + [0];
    } else {
      var longer := OneTripAlone(threads, start, tids);
      SameWord(num);
      full := AloneUntilWrap(threads, start, longer, num - 1);
    }
  }

  /** Threads that find the 32-bit copy zero from the start exit at once. */
  lemma {:induction false} OthersExit(threads: nat, start: int, tids: seq<nat>, k: nat) returns (full: seq<nat>)
    requires k <= threads && Exec(threads, start, tids).Some?
    requires var s := Exec(threads, start, tids).value; s.num % WORD == 0 && ExitedUpTo(threads, s, k)
    ensures Exec(threads, start, full).Some? && AllExited(Exec(threads, start, full).value)
    ensures Exec(threads, start, full).value.num == Exec(threads, start, tids).value.num
    decreases threads - k
  {
    if k == threads {
      full := tids;
    } else {
      var s := Exec(threads, start, tids).value;
      ToIntZero(s.num);
      ExecStep(threads, start, tids, k);
      ExecStep(threads, start, tids + [k], k);
      full := OthersExit(threads, start, tids + [k] + [k], k + 1);
    }
  }

  /** From a start that 32 bits cannot hold, the threads can all leave with work left to do. */
  lemma LeavesWork(threads: nat, start: int) returns (tids: seq<nat>)
    requires threads > 0 && start >= WORD
    ensures Exec(threads, start, tids).Some? && AllExited(Exec(threads, start, tids).value)
    ensures Exec(threads, start, tids).value.num > 0
  {
    ExecStep(threads, start, [], 0);
    assert [] + [0] == [0];
    var alone := AloneUntilWrap(threads, start, [0], start);
    tids := OthersExit(threads, start, alone, 1);
  }

  /** A negative start is never counted: the threads loop forever, unless its 32-bit copy happens to be zero. */
  lemma NegativeNeverReachesZero(threads: nat, start: int, tids: seq<nat>)
    requires start < 0 && Exec(threads, start, tids).Some?
    ensures Exec(threads, start, tids).value.num == start
  {
    InvAlways(threads, start, tids);
  }

  /** Some run ends with all threads gone, and every run that does has counted down to zero. */
  ghost predicate CountsToZero(threads: nat, start: int) {
    && (exists tids :: EndsWith(threads, start, tids))
    && (forall tids :: EndsWith(threads, start, tids) ==> Exec(threads, start, tids).value.num == 0)
  }

  predicate EndsWith(threads: nat, start: int, tids: seq<nat>) {
    Exec(threads, start, tids).Some? && AllExited(Exec(threads, start, tids).value)
  }

  /** The exact range in which the mutex loop does its job: start fits in an unsigned word of 32 bits. */
  lemma CountsToZeroExactly(threads: nat, start: int)
    requires threads > 0
    ensures CountsToZero(threads, start) <==> 0 <= start < WORD
  {
    if InRange(start) {
      var full := CanFinish(threads, start, []);
      assert EndsWith(threads, start, full);
      forall tids | EndsWith(threads, start, tids)
        ensures Exec(threads, start, tids).value.num == 0
      {
        ExitsAtZero(threads, start, tids);
      }
    } else if start >= WORD {
      var tids := LeavesWork(threads, start);
      assert EndsWith(threads, start, tids);
    } else {
      forall tids | EndsWith(threads, start, tids)
        ensures Exec(threads, start, tids).value.num != 0
      {
        NegativeNeverReachesZero(threads, start, tids);
      }
    }
  }
}
