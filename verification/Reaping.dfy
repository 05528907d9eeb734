/**
  Collecting exited children: the SIGCHLD handler of css_echo.cpp, whose server forks one child per
  connection, and of test_fork_and_waitpid.cpp, whose main forks a batch of children, sleeps, and then polls
  until none is left.

  A pending signal is one bit: while SIGCHLD is pending or its handler runs, further exits add nothing
  (POSIX.1-2017 System Interfaces, section 2.4.1). The handler runs with SIGCHLD blocked and interrupts main
  at any point.
 */
module Reaping {
  import opened Wrappers

  /**
    Serving is the accept loop of css_echo.cpp. The other places are main of test_fork_and_waitpid.cpp:
    left children still to fork, sleep(20), the waitpid loop, and its sleep(1).
   */
  datatype Main = Serving | Forking(left: nat) | Sleeping | Polling | Napping | Done

  /** Looping: about to call waitpid. Leaving: waitpid found nothing, the handler has not returned yet. */
  datatype Handler = Idle | Looping | Leaving

  datatype Reaper = ByHandler | ByMain | ByKernel

  /**
    Children are numbered in the order of their forks. ignored: SIGCHLD was ignored when the server started,
    so the handler was not installed and the kernel reaps. reaped lists the children in the order in which
    they were reaped, reapers by whom.
   */
  datatype State = State(
    forked: nat,
    running: set<nat>,
    zombies: set<nat>,
    pending: bool,
    ignored: bool,
    handler: Handler,
    main: Main,
    reaped: seq<nat>,
    reapers: seq<Reaper>)

  datatype Program = Server(ignored: bool) | Batch(children: nat)

  datatype Action = Fork | ChildExit(child: nat) | Deliver | HandlerStep(child: nat) | MainStep(child: nat)

  function Init(p: Program): State {
    match p
    case Server(ignored) => State(0, {}, {}, false, ignored, Idle, Serving, [], [])
    case Batch(n) => State(0, {}, {}, false, false, Idle, Forking(n), [], [])
  }

  function Reap(s: State, child: nat, reaper: Reaper): State {
    s.(zombies := s.zombies - {child}, reaped := s.reaped + [child], reapers := s.reapers + [reaper])
  }

  function Step(s: State, a: Action): Option<State> {
    match a
    case Fork =>
      if s.handler == Idle && (s.main.Serving? || (s.main.Forking? && s.main.left > 0)) then
        Some(s.(forked := s.forked + 1, running := s.running + {s.forked},
                main := if s.main.Serving? then Serving else Forking(s.main.left - 1)))
      else None
    case ChildExit(c) =>
      if c !in s.running then None
      else if s.ignored then Some(Reap(s.(running := s.running - {c}), c, ByKernel))
      else Some(s.(running := s.running - {c}, zombies := s.zombies + {c}, pending := true))
    case Deliver =>
      if s.pending && s.handler == Idle then Some(s.(pending := false, handler := Looping)) else None
    case HandlerStep(c) =>
      (match s.handler
       case Idle => None
       case Looping =>
         if s.zombies == {} then Some(s.(handler := Leaving))
         else if c in s.zombies then Some(Reap(s, c, ByHandler))
         else None
       case Leaving => Some(s.(handler := Idle)))
    case MainStep(c) =>
      if s.handler != Idle then None else
      match s.main
      case Serving => None
      case Forking(left) => if left == 0 then Some(s.(main := Sleeping)) else None
      case Sleeping => Some(s.(main := Polling))
      case Polling =>
        if s.zombies == {} then Some(s.(main := if s.running == {} then Done else Napping))
        else if c in s.zombies then Some(Reap(s, c, ByMain))
        else None
      case Napping => Some(s.(main := Polling))
      case Done => None
  }

  /**
    Steps of the process itself: those of the handler and of main, which for the batch program include its
    forks. The others are new connections of the server and children exiting.
   */
  predicate Own(p: Program, a: Action) {
    a.Deliver? || a.HandlerStep? || a.MainStep? || (a.Fork? && p.Batch?)
  }

  function ExecFrom(s: State, acts: seq<Action>): Option<State> {
    if acts == [] then Some(s) else
    match ExecFrom(s, acts[..|acts| - 1])
    case None => None
    case Some(t) => Step(t, acts[|acts| - 1])
  }

  // ---------------------------------------------------------------- what can happen

  /**
    The interleavings covered: any running child may exit at any time, the signal may be delivered whenever it
    is pending and its handler is not running, waitpid may return any zombie, and main goes on, forks
    included, whenever the handler is not running.
   */
  lemma EnabledExactly(s: State, a: Action)
    ensures Step(s, a).Some? <==>
      match a
      case Fork => s.handler.Idle? && (s.main.Serving? || (s.main.Forking? && s.main.left > 0))
      case ChildExit(c) => c in s.running
      case Deliver => s.handler.Idle? && s.pending
      case HandlerStep(c) => s.handler.Leaving? || (s.handler.Looping? && (c in s.zombies || s.zombies == {}))
      case MainStep(c) =>
        && s.handler.Idle? && !s.main.Serving? && !s.main.Done?
        && (s.main.Forking? ==> s.main.left == 0)
        && (s.main.Polling? ==> c in s.zombies || s.zombies == {})
  {
  }

  /** main forks its children, sleeps, and polls and naps by turns until there is no child. */
  lemma MainGoesOn(s: State, a: Action)
    requires Step(s, a).Some?
    ensures var m, m' := s.main, Step(s, a).value.main;
      if a.Fork? then m' == (if m.Serving? then Serving else Forking(m.left - 1))
      else if !a.MainStep? || (m.Polling? && s.zombies != {}) then m' == m
      else if m.Polling? then m' == (if s.running == {} then Done else Napping)
      else m' == (if m.Forking? then Sleeping else Polling)
  {
  }

  // ---------------------------------------------------------------- invariants

  /** A forked child is running, a zombie, or reaped, one of the three and once; nothing else was reaped. */
  ghost predicate OnePlace(s: State, c: nat) {
    (if c in s.running then 1 else 0) + (if c in s.zombies then 1 else 0) + multiset(s.reaped)[c]
    == if c < s.forked then 1 else 0
  }

  /** Whenever there are zombies a signal is pending or the handler is about to look again. */
  predicate NoZombieForgotten(s: State) {
    s.zombies != {} ==> s.pending || s.handler == Looping
  }

  ghost predicate Inv(p: Program, s: State) {
    && (forall c: nat :: OnePlace(s, c))
    && NoZombieForgotten(s)
    && |s.reapers| == |s.reaped|
    && (forall i :: 0 <= i < |s.reapers| ==> (s.reapers[i] == ByKernel <==> s.ignored))
    && (s.ignored ==> s.zombies == {} && !s.pending && s.handler == Idle)
    && match p
       case Server(ignored) => s.main == Serving && s.ignored == ignored
       case Batch(n) =>
         && !s.ignored
         && !s.main.Serving?
         && s.forked + (if s.main.Forking? then s.main.left else 0) == n
         && (s.main == Done ==> s.running == {} && s.zombies == {})
  }

  lemma ReapKeepsPlace(s: State, child: nat, reaper: Reaper, c: nat)
    requires child in s.zombies && OnePlace(s, c)
    ensures OnePlace(Reap(s, child, reaper), c)
  {
    assert multiset(s.reaped + [child])[c] == multiset(s.reaped)[c] + (if c == child then 1 else 0);
  }

  lemma ForkKeepsPlace(s: State, c: nat)
    requires Step(s, Fork).Some? && OnePlace(s, c) && OnePlace(s, s.forked)
    ensures OnePlace(Step(s, Fork).value, c)
  {
  }

  lemma ExitKeepsPlace(s: State, child: nat, c: nat)
    requires Step(s, ChildExit(child)).Some? && OnePlace(s, c)
    ensures OnePlace(Step(s, ChildExit(child)).value, c)
  {
    if s.ignored {
      assert multiset(s.reaped + [child])[c] == multiset(s.reaped)[c] + (if c == child then 1 else 0);
    }
  }

  /** A step of the handler, a delivery, or a step of main other than a fork moves children only by reaping one. */
  lemma StepReaps(s: State, a: Action)
    requires (a.Deliver? || a.HandlerStep? || a.MainStep?) && Step(s, a).Some?
    ensures var s' := Step(s, a).value;
      || (s'.running == s.running && s'.zombies == s.zombies && s'.reaped == s.reaped && s'.forked == s.forked)
      || (a.HandlerStep? && a.child in s.zombies && s' == Reap(s, a.child, ByHandler))
      || (a.MainStep? && a.child in s.zombies && s' == Reap(s, a.child, ByMain))
  {
  }

  lemma OnePlacePreserved(s: State, a: Action, c: nat)
    requires Step(s, a).Some? && OnePlace(s, c) && OnePlace(s, s.forked)
    ensures OnePlace(Step(s, a).value, c)
  {
    match a
    case Fork => ForkKeepsPlace(s, c);
    case ChildExit(child) => ExitKeepsPlace(s, child, c);
    case Deliver =>
    case HandlerStep(child) =>
      StepReaps(s, a);
      if child in s.zombies {
        ReapKeepsPlace(s, child, ByHandler, c);
      }
    case MainStep(child) =>
      StepReaps(s, a);
      if child in s.zombies {
        ReapKeepsPlace(s, child, ByMain, c);
      }
  }

  lemma InvPreserved(p: Program, s: State, a: Action)
    requires Inv(p, s) && Step(s, a).Some?
    ensures Inv(p, Step(s, a).value)
  {
    forall c: nat
      ensures OnePlace(Step(s, a).value, c)
    {
      assert OnePlace(s, c) && OnePlace(s, s.forked);
      OnePlacePreserved(s, a, c);
    }
  }

  lemma {:induction false} InvAlways(p: Program, acts: seq<Action>)
    requires ExecFrom(Init(p), acts).Some?
    ensures Inv(p, ExecFrom(Init(p), acts).value)
  {
    if acts != [] {
      var before := acts[..|acts| - 1];
      InvAlways(p, before);
      InvPreserved(p, ExecFrom(Init(p), before).value, acts[|acts| - 1]);
    }
  }

  /**
    Where children go: a fork starts one with a new number, an exit makes its child a zombie and the signal
    pending unless SIGCHLD is ignored, a call of waitpid takes the zombie it returns, and nothing else moves
    a child or makes the signal pending.
   */
  lemma ChildrenMove(p: Program, s: State, a: Action)
    requires Inv(p, s) && Step(s, a).Some?
    ensures var s' := Step(s, a).value;
      var waits := (a.HandlerStep? && s.handler.Looping?) || (a.MainStep? && s.main.Polling?);
      && s'.forked == s.forked + (if a.Fork? then 1 else 0)
      && s'.running == (if a.Fork? then s.running + {s.forked}
                        else if a.ChildExit? then s.running - {a.child} else s.running)
      && s'.zombies == (if a.ChildExit? && !s.ignored then s.zombies + {a.child}
                        else if waits then s.zombies - {a.child} else s.zombies)
      && s'.reaped == s.reaped + (if (a.ChildExit? && s.ignored) || (waits && s.zombies != {}) then [a.child] else [])
      && s'.pending == ((s.pending && !a.Deliver?) || (a.ChildExit? && !s.ignored))
  {
    if a.ChildExit? {
      assert OnePlace(s, a.child);
    }
  }

  // ---------------------------------------------------------------- quiescence

  function HandlerRank(h: Handler): nat {
    match h
    case Idle => 0
    case Looping => 2
    case Leaving => 1
  }

  function MainRank(m: Main): nat {
    match m
    case Serving => 0
    case Forking(left) => 4 + left
    case Sleeping => 3
    case Napping => 2
    case Polling => 1
    case Done => 0
  }

  /** How many own steps are left at most besides reaping. */
  function OtherWork(s: State): nat {
    (if s.pending then 3 else 0) + HandlerRank(s.handler) + MainRank(s.main)
  }

  /** How many own steps are left at most, until there is no zombie or until the process rests. */
  function Work(s: State): nat {
    |s.zombies| + OtherWork(s)
  }

  /** The process is serving, or a batch program with nothing left to fork and no running child to wait for. */
  predicate ComesToRest(s: State) {
    s.main.Serving? || (s.running == {} && !(s.main.Forking? && s.main.left > 0))
  }

  lemma OtherWorkDecreases(p: Program, s: State, a: Action)
    requires Inv(p, s) && Own(p, a) && Step(s, a).Some? && (ComesToRest(s) || s.zombies != {})
    ensures var s' := Step(s, a).value;
      || (s'.zombies == s.zombies && OtherWork(s') < OtherWork(s))
      || (exists c :: c in s.zombies && s'.zombies == s.zombies - {c} && OtherWork(s') == OtherWork(s))
  {
  }

  /** An own step makes progress as long as there is a zombie, whatever else is going on. */
  lemma WorkDecreases(p: Program, s: State, a: Action)
    requires Inv(p, s) && Own(p, a) && Step(s, a).Some? && (ComesToRest(s) || s.zombies != {})
    ensures Work(Step(s, a).value) < Work(s)
  {
    OtherWorkDecreases(p, s, a);
    SmallerWithout(s.zombies, Step(s, a).value.zombies);
  }

  lemma SmallerWithout(zombies: set<nat>, zombies': set<nat>)
    ensures forall c :: c in zombies && zombies' == zombies - {c} ==> |zombies'| == |zombies| - 1
  {
  }

  /** t follows s without exits: only new children have become running, and no child has become a zombie. */
  ghost predicate WithoutExits(s: State, t: State) {
    && s.forked <= t.forked && t.zombies <= s.zombies
    && (forall c: nat :: c in t.running <==> c in s.running || s.forked <= c < t.forked)
  }

  lemma StepWithoutExit(p: Program, s: State, a: Action)
    requires Inv(p, s) && Step(s, a).Some? && !a.ChildExit?
    ensures WithoutExits(s, Step(s, a).value)
    ensures a.Fork? && p.Server? ==> Work(Step(s, a).value) == Work(s)
  {
    if !a.Fork? {
      StepReaps(s, a);
    }
  }

  lemma RestStays(p: Program, s: State, a: Action)
    requires Inv(p, s) && Step(s, a).Some? && !a.ChildExit?
    ensures ComesToRest(Step(s, a).value) <==> ComesToRest(s)
  {
    if !a.Fork? {
      StepReaps(s, a);
    }
  }

  ghost predicate NoExits(acts: seq<Action>) {
    forall i :: 0 <= i < |acts| ==> !acts[i].ChildExit?
  }

  /** How many of the actions are steps of the process itself. */
  function OwnSteps(p: Program, acts: seq<Action>): nat {
    if acts == [] then 0 else
    OwnSteps(p, acts[..|acts| - 1]) + if Own(p, acts[|acts| - 1]) then 1 else 0
  }

  lemma {:induction false} WorkBoundsRun(p: Program, s: State, acts: seq<Action>)
    requires Inv(p, s) && ExecFrom(s, acts).Some? && NoExits(acts)
    ensures var s' := ExecFrom(s, acts).value;
      && Inv(p, s')
      && WithoutExits(s, s')
      && (ComesToRest(s') <==> ComesToRest(s))
      && (ComesToRest(s) || s'.zombies != {} ==> Work(s') + OwnSteps(p, acts) <= Work(s))
  {
    if acts != [] {
      var before, a := acts[..|acts| - 1], acts[|acts| - 1];
      WorkBoundsRun(p, s, before);
      var t := ExecFrom(s, before).value;
      StepWithoutExit(p, t, a);
      RestStays(p, t, a);
      InvPreserved(p, t, a);
      if Own(p, a) && (ComesToRest(t) || t.zombies != {}) {
        WorkDecreases(p, t, a);
      }
    }
  }

  /** The process itself has no step left to do. */
  ghost predicate Quiet(p: Program, s: State) {
    forall a :: Own(p, a) ==> Step(s, a).None?
  }

  lemma QuietMeansClean(p: Program, s: State)
    requires Inv(p, s) && Quiet(p, s)
    ensures s.zombies == {} && !s.pending && s.handler == Idle
    ensures s.main.Serving? || s.main == Done
  {
    var c: nat := 0;
    if s.zombies != {} {
      c :| c in s.zombies;
    }
    assert Step(s, Deliver).None? && Step(s, HandlerStep(c)).None? && Step(s, MainStep(c)).None?;
    if p.Batch? {
      assert Step(s, Fork).None?;
    }
  }

  /**
    However the exits so far were interleaved with signals, handler runs and polls, whatever children are
    still running, and though new ones are forked all the time: once exits stop for a while, the process
    always has a step to take while a zombie is left, and the zombies are gone after a bounded number of its
    steps. Then every child that is not running any more has been reaped, exactly once.
   */
  lemma {:induction false} NoZombieSurvivesQuiescence(p: Program, acts: seq<Action>, more: seq<Action>)
    requires ExecFrom(Init(p), acts).Some?
    requires ExecFrom(ExecFrom(Init(p), acts).value, more).Some? && NoExits(more)
    ensures var s := ExecFrom(Init(p), acts).value; var s' := ExecFrom(s, more).value;
      && (OwnSteps(p, more) >= Work(s) || Quiet(p, s') ==> s'.zombies == {})
      && (s'.zombies == {} ==>
           forall c: nat :: multiset(s'.reaped)[c] == if c < s.forked && c !in s.running then 1 else 0)
  {
    InvAlways(p, acts);
    var s := ExecFrom(Init(p), acts).value;
    WorkBoundsRun(p, s, more);
    var s' := ExecFrom(s, more).value;
    if Quiet(p, s') {
      QuietMeansClean(p, s');
    }
    if s'.zombies == {} {
      forall c: nat
        ensures multiset(s'.reaped)[c] == if c < s.forked && c !in s.running then 1 else 0
      {
        assert OnePlace(s', c) && OnePlace(s, c);
      }
    }
  }

  /**
    When the process comes to rest while exits have stopped: a server always, within a bounded number of its
    own steps, and a batch program exactly if its forks are done and no child is running. Otherwise it always
    has a step to take: it forks on, sleeps, and then polls.
   */
  lemma {:induction false} RestsExactly(p: Program, acts: seq<Action>, more: seq<Action>)
    requires ExecFrom(Init(p), acts).Some?
    requires ExecFrom(ExecFrom(Init(p), acts).value, more).Some? && NoExits(more)
    ensures var s := ExecFrom(Init(p), acts).value; var s' := ExecFrom(s, more).value;
      if ComesToRest(s) then OwnSteps(p, more) <= Work(s) && (OwnSteps(p, more) == Work(s) ==> Quiet(p, s'))
      else !Quiet(p, s')
  {
    InvAlways(p, acts);
    var s := ExecFrom(Init(p), acts).value;
    WorkBoundsRun(p, s, more);
    var s' := ExecFrom(s, more).value;
    if Quiet(p, s') {
      QuietMeansClean(p, s');
    } else if ComesToRest(s) && OwnSteps(p, more) == Work(s) {
      var a :| Own(p, a) && Step(s', a).Some?;
      WorkDecreases(p, s', a);
    }
  }

  /**
    The batch program: its waitpid loop ends only when no child is left, running or zombie, and by then each
    of the children forked has been reaped exactly once, by the handler or by the loop.
   */
  lemma DoneMeansAllReaped(n: nat, acts: seq<Action>)
    requires ExecFrom(Init(Batch(n)), acts).Some? && ExecFrom(Init(Batch(n)), acts).value.main == Done
    ensures var s := ExecFrom(Init(Batch(n)), acts).value;
      && s.running == {} && s.zombies == {}
      && |s.reapers| == |s.reaped|
      && (forall i :: 0 <= i < |s.reapers| ==> s.reapers[i] == ByHandler || s.reapers[i] == ByMain)
      && forall c: nat :: multiset(s.reaped)[c] == if c < n then 1 else 0
  {
    InvAlways(Batch(n), acts);
    var s := ExecFrom(Init(Batch(n)), acts).value;
    forall c: nat
      ensures multiset(s.reaped)[c] == if c < n then 1 else 0
    {
      assert OnePlace(s, c);
    }
  }

  /** The only place where the batch program can come to rest is its end. */
  lemma BatchFinishes(n: nat, acts: seq<Action>)
    requires ExecFrom(Init(Batch(n)), acts).Some? && Quiet(Batch(n), ExecFrom(Init(Batch(n)), acts).value)
    ensures ExecFrom(Init(Batch(n)), acts).value.main == Done
  {
    InvAlways(Batch(n), acts);
    QuietMeansClean(Batch(n), ExecFrom(Init(Batch(n)), acts).value);
  }

  /** A server started with SIGCHLD ignored never has a zombie and never runs the handler. */
  lemma IgnoredNeedsNoHandler(acts: seq<Action>)
    requires ExecFrom(Init(Server(true)), acts).Some?
    ensures var s := ExecFrom(Init(Server(true)), acts).value; s.zombies == {} && s.handler == Idle
  {
    InvAlways(Server(true), acts);
  }
}
