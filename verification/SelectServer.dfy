/**
  The select-based echo server of io/css_echo_select.cpp: a table of client descriptors with a highest used
  index, a descriptor set with an upper bound, and a counter of ready descriptors that ends a scan early.
 */
module SelectServer {
  import opened Wrappers

  const MAXFDSIZE := 500

  const FREE := -1

  /** What reading from a ready client gives, and writing it back: Fails stands for an error of either call. */
  datatype Outcome = Data(bytes: seq<byte>) | Eof | Fails

  /** The environment of one round: does select succeed, who has input, what accept returns, what reads give. */
  datatype Round = Round(selectOk: bool, ready: set<int>, accepted: int, outcome: int -> Outcome)

  datatype Event = Echoed(fd: int, bytes: seq<byte>) | Closed(fd: int)

  // ---------------------------------------------------------------- tables

  /** No descriptor is in two slots. */
  ghost predicate DistinctSlots(t: seq<int>) {
    forall i, j :: 0 <= i < j < |t| && t[i] != FREE ==> t[i] != t[j]
  }

  function Used(t: seq<int>): set<int> {
    set i | 0 <= i < |t| && t[i] != FREE :: t[i]
  }

  function FirstFree(t: seq<int>): (i: nat)
    ensures i <= |t|
    ensures i < |t| ==> t[i] == FREE
    ensures forall j :: 0 <= j < i ==> t[j] != FREE
  {
    if t == [] || t[0] == FREE then 0 else 1 + FirstFree(t[1..])
  }

  /** A new client takes the first free slot, if there is one. */
  function Insert(t: seq<int>, fd: int): seq<int> {
    var i := FirstFree(t);
    if i < |t| then t[i := fd] else t
  }

  /** The ready clients in slots from i on. */
  function ReadyFrom(t: seq<int>, i: nat, rset: set<int>): set<int> {
    set j | i <= j < |t| && t[j] in rset :: t[j]
  }

  /** The events of a full scan, slot by slot. */
  function Events(t: seq<int>, rset: set<int>, outcome: int -> Outcome): seq<Event> {
    if t == [] then [] else
    var before := Events(t[..|t| - 1], rset, outcome);
    var fd := t[|t| - 1];
    if fd !in rset then before
    else match outcome(fd)
      case Data(bytes) => before + [Echoed(fd, bytes)]
      case Eof => before + [Closed(fd)]
      case Fails => before
  }

  predicate Closes(fd: int, rset: set<int>, outcome: int -> Outcome) {
    fd in rset && outcome(fd).Eof?
  }

  function Closing(t: seq<int>, rset: set<int>, outcome: int -> Outcome): set<int> {
    set j | 0 <= j < |t| && Closes(t[j], rset, outcome) :: t[j]
  }

  function AfterClosing(t: seq<int>, rset: set<int>, outcome: int -> Outcome): seq<int> {
    seq(|t|, j requires 0 <= j < |t| => if Closes(t[j], rset, outcome) then FREE else t[j])
  }

  /** The upper bound after a scan: it goes down by one each time the descriptor closed is the bound itself. */
  function MaxfdAfter(t: seq<int>, rset: set<int>, outcome: int -> Outcome, maxfd: int): int {
    if t == [] then maxfd else
    var m := MaxfdAfter(t[..|t| - 1], rset, outcome, maxfd);
    if Closes(t[|t| - 1], rset, outcome) && t[|t| - 1] == m then m - 1 else m
  }

  // ---------------------------------------------------------------- what a scan does

  /** The event is what a round does to its descriptor if it is a ready client. */
  predicate Handles(e: Event, outcome: int -> Outcome) {
    match outcome(e.fd)
    case Data(bytes) => e == Echoed(e.fd, bytes)
    case Eof => e == Closed(e.fd)
    case Fails => false
  }

  /**
    A scan handles every ready client of the table exactly once, echoing its own bytes or closing it, and
    does nothing to any other descriptor.
   */
  lemma {:induction false} EachReadyClientOnce(t: seq<int>, rset: set<int>, outcome: int -> Outcome, e: Event)
    requires DistinctSlots(t) && FREE !in rset
    requires forall fd :: fd in t && fd in rset ==> !outcome(fd).Fails?
    ensures multiset(Events(t, rset, outcome))[e] ==
            if e.fd in t && e.fd in rset && Handles(e, outcome) then 1 else 0
  {
    if t != [] {
      var init, last := t[..|t| - 1], t[|t| - 1];
      assert t == init + [last];
      EachReadyClientOnce(init, rset, outcome, e);
      if last in rset {
        assert last !in init;
      }
    }
  }

  /** Slots without a ready client add no events, close nothing and leave the bound alone. */
  lemma {:induction false} NothingReady(t: seq<int>, i: nat, rset: set<int>, outcome: int -> Outcome, maxfd: int)
    requires i <= |t| && ReadyFrom(t, i, rset) == {}
    ensures Events(t, rset, outcome) == Events(t[..i], rset, outcome)
    ensures MaxfdAfter(t, rset, outcome, maxfd) == MaxfdAfter(t[..i], rset, outcome, maxfd)
    ensures forall j :: i <= j < |t| ==> t[j] !in rset
    decreases |t|
  {
    forall j | i <= j < |t|
      ensures t[j] !in rset
    {
      assert t[j] !in ReadyFrom(t, i, rset);
    }
    if i < |t| {
      var init := t[..|t| - 1];
      assert ReadyFrom(init, i, rset) <= ReadyFrom(t, i, rset);
      NothingReady(init, i, rset, outcome, maxfd);
      assert init[..i] == t[..i];
    } else {
      assert t[..i] == t;
    }
  }

  /** Although it goes down by one at most, the bound stays above every descriptor that is left. */
  lemma {:induction false} MaxfdStillBounds(t: seq<int>, rset: set<int>, outcome: int -> Outcome, maxfd: int, fd: int)
    requires DistinctSlots(t) && FREE !in rset
    requires fd <= maxfd && fd !in Closing(t, rset, outcome)
    requires forall j :: 0 <= j < |t| ==> t[j] <= maxfd
    ensures fd <= MaxfdAfter(t, rset, outcome, maxfd) <= maxfd
  {
    if t != [] {
      var init := t[..|t| - 1];
      forall x | x in Closing(init, rset, outcome)
        ensures x in Closing(t, rset, outcome)
      {
        var j :| 0 <= j < |init| && Closes(init[j], rset, outcome) && init[j] == x;
        assert t[j] == x;
      }
      assert Closes(t[|t| - 1], rset, outcome) ==> t[|t| - 1] in Closing(t, rset, outcome);
      MaxfdStillBounds(init, rset, outcome, maxfd, fd);
    }
  }

  /** All descriptors above the bound, up to the old one, were closed. */
  lemma {:induction false} ClosedAboveMaxfd(t: seq<int>, rset: set<int>, outcome: int -> Outcome, maxfd: int)
    requires DistinctSlots(t) && FREE !in rset
    ensures var m := MaxfdAfter(t, rset, outcome, maxfd);
      && m <= maxfd
      && (forall fd :: m < fd <= maxfd ==> fd in Closing(t, rset, outcome))
      && (m in Closing(t, rset, outcome) ==> m < maxfd)
  {
    if t != [] {
      ClosedAboveMaxfd(t[..|t| - 1], rset, outcome, maxfd);
      assert t[..|t|] == t;
      ClosingStep(t, |t| - 1, rset, outcome);
    }
  }

  /** The descriptors from the old bound down to low, as far as they were closed, were closed in that order. */
  ghost predicate ClosedDownwards(t: seq<int>, rset: set<int>, outcome: int -> Outcome, maxfd: int, low: int) {
    forall i, j ::
      && 0 <= i < |t| && 0 <= j < |t| && low <= t[j] == t[i] - 1 < maxfd
      && Closes(t[j], rset, outcome) && Closes(t[i], rset, outcome)
      ==> i < j
  }

  /**
    The exact value of the bound: every descriptor above it, up to the old bound, was closed, each in a later
    slot than the one above it; and if the one at the bound was closed too, it was in an earlier slot.
   */
  lemma {:induction false} MaxfdExactly(t: seq<int>, rset: set<int>, outcome: int -> Outcome, maxfd: int)
    requires DistinctSlots(t) && FREE !in rset
    ensures var m := MaxfdAfter(t, rset, outcome, maxfd);
      && (forall fd :: m < fd <= maxfd ==> fd in Closing(t, rset, outcome))
      && (m in Closing(t, rset, outcome) ==> m < maxfd)
      && ClosedDownwards(t, rset, outcome, maxfd, m + 1)
      && forall i, j :: 0 <= i < |t| && 0 <= j < |t| && t[i] == m && Closes(m, rset, outcome) && t[j] == m + 1 ==> i < j
  {
    ClosedAboveMaxfd(t, rset, outcome, maxfd);
    if t != [] {
      var init := t[..|t| - 1];
      MaxfdExactly(init, rset, outcome, maxfd);
      ClosedInSlot(init, rset, outcome);
      assert t[|t| - 1] !in Closing(init, rset, outcome);
      var m := MaxfdAfter(t, rset, outcome, maxfd);
      forall i, j | 0 <= i < |t| && 0 <= j < |t| && m < t[j] == t[i] - 1 < maxfd
        && Closes(t[j], rset, outcome) && Closes(t[i], rset, outcome)
        ensures i < j
      {
        assert i < |init| ==> t[i] == init[i];
        assert j < |init| ==> t[j] == init[j];
      }
    }
  }

  lemma ClosedInSlot(t: seq<int>, rset: set<int>, outcome: int -> Outcome)
    ensures forall fd :: fd in Closing(t, rset, outcome) ==> exists i :: 0 <= i < |t| && t[i] == fd
  {
  }

  /** The events of a scan are in the order of the slots. */
  lemma {:induction false} EventsInSlotOrder(t: seq<int>, rset: set<int>, outcome: int -> Outcome, a: nat, b: nat)
    returns (i: nat, j: nat)
    requires a < b < |Events(t, rset, outcome)|
    ensures i < j < |t|
    ensures Events(t, rset, outcome)[a].fd == t[i] && Events(t, rset, outcome)[b].fd == t[j]
  {
    var init := t[..|t| - 1];
    if b < |Events(init, rset, outcome)| {
      i, j := EventsInSlotOrder(init, rset, outcome, a, b);
    } else {
      j := |t| - 1;
      i := EventHasSlot(init, rset, outcome, a);
    }
  }

  lemma {:induction false} EventHasSlot(t: seq<int>, rset: set<int>, outcome: int -> Outcome, a: nat) returns (i: nat)
    requires a < |Events(t, rset, outcome)|
    ensures i < |t| && Events(t, rset, outcome)[a].fd == t[i]
  {
    var init := t[..|t| - 1];
    if a < |Events(init, rset, outcome)| {
      i := EventHasSlot(init, rset, outcome, a);
    } else {
      i := |t| - 1;
    }
  }

  // ---------------------------------------------------------------- one round, on values

  /** The variables of main. */
  datatype Table = Table(slots: seq<int>, allset: set<int>, maxfd: int, maxi: int)

  /** What a round leaves behind: the variables and what was done to clients, or an exit on an error. */
  datatype Result = Exits | Continues(x: Table, log: seq<Event>)

  function Start(svrfd: int): Table {
    Table(seq(MAXFDSIZE, _ => FREE), {svrfd}, svrfd, -1)
  }

  /** What select reports: the ready descriptors it was asked about. */
  function Selected(x: Table, ready: set<int>): set<int> {
    set fd | fd in x.allset && fd in ready && fd <= x.maxfd
  }

  /** A new connection goes into the set, and into the first free slot if there is one. */
  function Accepted(x: Table, clifd: int): Table {
    var i := FirstFree(x.slots);
    Table(Insert(x.slots, clifd),
          x.allset + {clifd},
          if clifd > x.maxfd then clifd else x.maxfd,
          if i < |x.slots| && i > x.maxi then i else x.maxi)
  }

  /** What visiting slot i does to the variables, and to the log. */
  function Visit(x: Table, i: nat, rset: set<int>, outcome: int -> Outcome): Table
    requires i < |x.slots|
  {
    var fd := x.slots[i];
    if Closes(fd, rset, outcome) then
      x.(slots := x.slots[i := FREE], allset := x.allset - {fd},
         maxfd := if fd == x.maxfd then x.maxfd - 1 else x.maxfd)
    else x
  }

  function VisitLog(log: seq<Event>, fd: int, rset: set<int>, outcome: int -> Outcome): seq<Event> {
    if fd !in rset then log else
    match outcome(fd)
    case Data(bytes) => log + [Echoed(fd, bytes)]
    case Eof => log + [Closed(fd)]
    case Fails => log
  }

  /**
    The scan from slot i on. left is the number of ready descriptors not handled yet; the scan ends as soon
    as it reaches zero, and closing a client does not lower it.
   */
  function ScanFrom(x: Table, log: seq<Event>, i: nat, left: int, rset: set<int>, outcome: int -> Outcome): (r: Result)
    requires x.maxi < |x.slots|
    ensures r.Continues? ==> r.x.maxi == x.maxi && |r.x.slots| == |x.slots|
    decreases x.maxi + 1 - i
  {
    if i > x.maxi then Continues(x, log) else
    var fd := x.slots[i];
    if fd in rset && outcome(fd).Fails? then Exits else
    var x', log' := Visit(x, i, rset, outcome), VisitLog(log, fd, rset, outcome);
    var left' := if fd in rset && outcome(fd).Data? then left - 1 else left;
    if left' < left && left' <= 0 then Continues(x', log')
    else ScanFrom(x', log', i + 1, left', rset, outcome)
  }

  /** maxi goes down to the last used slot. */
  function ShrunkFrom(slots: seq<int>, maxi: int): (r: int)
    requires maxi < |slots|
    ensures r <= maxi && (maxi >= -1 ==> r >= -1)
    ensures r >= 0 ==> slots[r] != FREE
    ensures forall j :: 0 <= j <= maxi && j > r ==> slots[j] == FREE
    decreases maxi + 1
  {
    if maxi >= 0 && slots[maxi] == FREE then ShrunkFrom(slots, maxi - 1) else maxi
  }

  /** One turn of the endless loop. */
  function RoundStep(svrfd: int, x: Table, env: Round): (r: Result)
    requires x.maxi < |x.slots|
    ensures r.Continues? ==> r.x.maxi < |r.x.slots|
  {
    var rset := Selected(x, env.ready);
    if !env.selectOk then Exits
    else if |rset| == 0 then Continues(x, [])
    else if svrfd in rset && env.accepted < 0 then Exits
    else
      var x1 := if svrfd in rset then Accepted(x, env.accepted) else x;
      var left := if svrfd in rset then |rset| - 1 else |rset|;
      if left <= 0 then Continues(x1, []) else
      match ScanFrom(x1, [], 0, left, rset, env.outcome)
      case Exits => Exits
      case Continues(x2, log) => Continues(x2.(maxi := ShrunkFrom(x2.slots, x2.maxi)), log)
  }

  // ---------------------------------------------------------------- the code

  class Server {
    const svrfd: int
    const clifds: array<int>
    var allset: set<int>
    var maxfd: int
    var maxi: int

    ghost predicate Valid()
      reads this, clifds
    {
      TableOk(svrfd, View())
    }

    ghost function View(): Table
      reads this, clifds
    {
      Table(clifds[..], allset, maxfd, maxi)
    }

    constructor (svrfd: int)
      requires svrfd >= 0
      ensures Valid() && fresh(clifds) && this.svrfd == svrfd && View() == Start(svrfd)
    {
      this.svrfd := svrfd;
      clifds := new int[MAXFDSIZE](_ => FREE);
      allset := {svrfd};
      maxfd := svrfd;
      maxi := -1;
      new;
      assert clifds[..] == Start(svrfd).slots;
    }

    method Accept(clifd: int)
      requires clifds.Length == MAXFDSIZE
      modifies this, clifds
      ensures View() == Accepted(old(View()), clifd)
    {
      ghost var t := clifds[..];
      allset := allset + {clifd};
      if clifd > maxfd {
        maxfd := clifd;
      }
      var i := 0;
      while i < MAXFDSIZE && clifds[i] != FREE
        invariant 0 <= i <= MAXFDSIZE
        invariant forall j :: 0 <= j < i ==> t[j] != FREE
      {
        i := i + 1;
      }
      assert i == FirstFree(t);
      if i < MAXFDSIZE {
        clifds[i] := clifd;
        if i > maxi {
          maxi := i;
        }
      }
    }

    /** The loop over the table, up to the early exit. */
    method Scan(fdnum: int, rset: set<int>, outcome: int -> Outcome) returns (alive: bool, log: seq<Event>)
      requires maxi < clifds.Length
      modifies `allset, `maxfd, clifds
      ensures ScanFrom(old(View()), [], 0, fdnum, rset, outcome) == if alive then Continues(View(), log) else Exits
    {
      log := [];
      var left, i := fdnum, 0;
      while i <= maxi
        invariant 0 <= i
        invariant ScanFrom(View(), log, i, left, rset, outcome)
               == ScanFrom(old(View()), [], 0, fdnum, rset, outcome)
      {
        var fd := clifds[i];
        if fd in rset {
          match outcome(fd)
          case Fails =>
            return false, log;
          case Eof =>
            log := log + [Closed(fd)];
            allset := allset - {fd};
            if fd == maxfd {
              maxfd := maxfd - 1;
            }
            clifds[i] := FREE;
          case Data(bytes) =>
            log := log + [Echoed(fd, bytes)];
            left := left - 1;
            if left <= 0 {
              return true, log;
            }
        }
        i := i + 1;
      }
      return true, log;
    }

    method Shrink()
      requires maxi < clifds.Length
      modifies `maxi
      ensures View() == old(View()).(maxi := ShrunkFrom(clifds[..], old(maxi)))
    {
      var i := maxi;
      while i >= 0 && clifds[i] == FREE
        invariant i == maxi < clifds.Length
        invariant ShrunkFrom(clifds[..], maxi) == ShrunkFrom(clifds[..], old(maxi))
      {
        maxi := maxi - 1;
        i := i - 1;
      }
    }

    /** One round; alive is false when an error makes the server exit. */
    method RunRound(env: Round) returns (alive: bool, log: seq<Event>)
      requires Valid() && KernelOk(svrfd, View(), env)
      modifies this, clifds
      ensures RoundStep(svrfd, old(View()), env) == if alive then Continues(View(), log) else Exits
      ensures alive ==> Valid()
    {
      RoundKeepsTable(svrfd, View(), env);
      if !env.selectOk {
        return false, [];
      }
      var rset := set fd | fd in allset && fd in env.ready && fd <= maxfd;
      assert rset == Selected(View(), env.ready);
      var fdnum := |rset|;
      if fdnum == 0 {
        return true, [];
      }
      if svrfd in rset {
        if env.accepted < 0 {
          return false, [];
        }
        Accept(env.accepted);
        fdnum := fdnum - 1;
        if fdnum <= 0 {
          return true, [];
        }
      }
      alive, log := Scan(fdnum, rset, env.outcome);
      if alive {
        Shrink();
      }
    }
  }

  // ---------------------------------------------------------------- the invariant

  /** Connections that are open but in no slot, because the table was full when they came. */
  function Stranded(svrfd: int, x: Table): set<int> {
    x.allset - {svrfd} - Used(x.slots)
  }

  /** Table, set and bounds agree, except that the slot at maxi may be free in the middle of a round. */
  ghost predicate InRound(svrfd: int, x: Table) {
    && |x.slots| == MAXFDSIZE
    && DistinctSlots(x.slots)
    && svrfd in x.allset
    && Used(x.slots) <= x.allset - {svrfd}
    && (forall fd :: fd in x.allset ==> 0 <= fd <= x.maxfd)
    && -1 <= x.maxi < MAXFDSIZE
    && (forall i :: x.maxi < i < MAXFDSIZE ==> x.slots[i] == FREE)
  }

  /** At the start of every round maxi is -1 or the last used slot. */
  ghost predicate TableOk(svrfd: int, x: Table) {
    InRound(svrfd, x) && (x.maxi >= 0 ==> x.slots[x.maxi] != FREE)
  }

  /** accept returns a descriptor that is not open. */
  predicate KernelOk(svrfd: int, x: Table, env: Round) {
    svrfd in Selected(x, env.ready) && env.accepted >= 0 ==> env.accepted !in x.allset
  }

  lemma UsedInsert(t: seq<int>, i: nat, fd: int)
    requires i < |t| && t[i] == FREE && fd != FREE && fd !in Used(t) && DistinctSlots(t)
    ensures Used(t[i := fd]) == Used(t) + {fd} && DistinctSlots(t[i := fd])
  {
    var t' := t[i := fd];
    forall x
      ensures x in Used(t') <==> x in Used(t) + {fd}
    {
      if x == fd {
        assert t'[i] == fd;
      } else if x in Used(t) {
        var j :| 0 <= j < |t| && t[j] != FREE && t[j] == x;
        assert t'[j] == x;
      }
    }
    forall j | 0 <= j < |t| && t[j] != FREE
      ensures t[j] != fd
    {
      assert t[j] in Used(t);
    }
  }

  lemma ClosingUsed(t: seq<int>, rset: set<int>, outcome: int -> Outcome)
    requires DistinctSlots(t) && FREE !in rset
    ensures Used(AfterClosing(t, rset, outcome)) == Used(t) - Closing(t, rset, outcome)
    ensures DistinctSlots(AfterClosing(t, rset, outcome)) && Closing(t, rset, outcome) <= Used(t)
  {
    var t' := AfterClosing(t, rset, outcome);
    forall x | x in Used(t) - Closing(t, rset, outcome)
      ensures x in Used(t')
    {
      var j :| 0 <= j < |t| && t[j] != FREE && t[j] == x;
      assert !Closes(t[j], rset, outcome);
      assert t'[j] == x;
    }
  }

  /** One more slot scanned: what closes. */
  lemma ClosingStep(t: seq<int>, i: nat, rset: set<int>, outcome: int -> Outcome)
    requires i < |t|
    ensures Closing(t[..i + 1], rset, outcome)
         == Closing(t[..i], rset, outcome) + (if Closes(t[i], rset, outcome) then {t[i]} else {})
    ensures AfterClosing(t[..i + 1], rset, outcome)
         == AfterClosing(t[..i], rset, outcome) + [if Closes(t[i], rset, outcome) then FREE else t[i]]
  {
  }

  /** One more slot scanned: its client, if ready, is not ready in a later slot. */
  lemma ReadyStep(t: seq<int>, i: nat, rset: set<int>)
    requires i < |t| && DistinctSlots(t) && FREE !in rset
    ensures ReadyFrom(t, i + 1, rset) == ReadyFrom(t, i, rset) - {t[i]}
    ensures t[i] in rset ==> |ReadyFrom(t, i, rset)| == |ReadyFrom(t, i + 1, rset)| + 1
    ensures t[i] !in rset ==> ReadyFrom(t, i + 1, rset) == ReadyFrom(t, i, rset)
  {
  }

  /** The number of ready clients in slots from i on, slot by slot. */
  function ReadyCount(t: seq<int>, i: nat, rset: set<int>): nat
    decreases |t| - i
  {
    if i >= |t| then 0 else (if t[i] in rset then 1 else 0) + ReadyCount(t, i + 1, rset)
  }

  predicate SomeFails(t: seq<int>, i: nat, rset: set<int>, outcome: int -> Outcome)
    decreases |t| - i
  {
    i < |t| && ((t[i] in rset && outcome(t[i]).Fails?) || SomeFails(t, i + 1, rset, outcome))
  }

  lemma NoneFailsWith(fds: set<int>, fd: int, outcome: int -> Outcome)
    ensures NoneFails(fds + {fd}, outcome) <==> NoneFails(fds, outcome) && !outcome(fd).Fails?
  {
    assert fd in fds + {fd};
  }

  /** No client is in two slots, so counting slots counts clients. */
  lemma {:induction false} ReadyCountIsSize(t: seq<int>, i: nat, rset: set<int>, outcome: int -> Outcome)
    requires i <= |t| && DistinctSlots(t) && FREE !in rset
    ensures ReadyCount(t, i, rset) == |ReadyFrom(t, i, rset)|
    ensures SomeFails(t, i, rset, outcome) <==> !NoneFails(ReadyFrom(t, i, rset), outcome)
    decreases |t| - i
  {
    if i < |t| {
      ReadyStep(t, i, rset);
      ReadyCountIsSize(t, i + 1, rset, outcome);
      var here, rest := ReadyFrom(t, i, rset), ReadyFrom(t, i + 1, rset);
      if t[i] in rset {
        assert here == rest + {t[i]};
        NoneFailsWith(rest, t[i], outcome);
      } else {
        assert here == rest;
      }
    }
  }

  /** Slots above the highest used one hold nothing that is ready. */
  lemma {:induction false} FreeIsNotReady(t: seq<int>, i: nat, rset: set<int>, outcome: int -> Outcome)
    requires FREE !in rset && forall j :: i <= j < |t| ==> t[j] == FREE
    ensures ReadyCount(t, i, rset) == 0 && !SomeFails(t, i, rset, outcome)
    decreases |t| - i
  {
    if i < |t| {
      FreeIsNotReady(t, i + 1, rset, outcome);
    }
  }

  lemma SameClosing(t: seq<int>, i: nat, rset: set<int>, outcome: int -> Outcome)
    requires i <= |t| && forall j :: i <= j < |t| ==> t[j] !in rset
    ensures Closing(t, rset, outcome) == Closing(t[..i], rset, outcome)
    ensures AfterClosing(t, rset, outcome) == AfterClosing(t[..i], rset, outcome) + t[i..]
  {
  }

  ghost predicate NoneFails(fds: set<int>, outcome: int -> Outcome) {
    forall fd :: fd in fds ==> !outcome(fd).Fails?
  }

  /** The state of a scan of x0 that has dealt with the first i slots. */
  ghost predicate ScannedTo(i: nat, x0: Table, rset: set<int>, outcome: int -> Outcome, x: Table, log: seq<Event>) {
    var t := x0.slots;
    && i <= |t|
    && log == Events(t[..i], rset, outcome)
    && x == Table(AfterClosing(t[..i], rset, outcome) + t[i..], x0.allset - Closing(t[..i], rset, outcome),
                  MaxfdAfter(t[..i], rset, outcome, x0.maxfd), x0.maxi)
  }

  /** One more slot: what the scan does to it. */
  lemma ScanSlot(i: nat, x0: Table, rset: set<int>, outcome: int -> Outcome, x: Table, log: seq<Event>)
    requires i < |x0.slots| && ScannedTo(i, x0, rset, outcome, x, log)
    ensures |x.slots| == |x0.slots| && x.slots[i] == x0.slots[i]
    ensures ScannedTo(i + 1, x0, rset, outcome, Visit(x, i, rset, outcome), VisitLog(log, x.slots[i], rset, outcome))
  {
    var t := x0.slots;
    ClosingStep(t, i, rset, outcome);
    assert t[..i + 1][..i] == t[..i] && t[..i + 1][i] == t[i];
    assert t[i..] == [t[i]] + t[i + 1..];
  }

  /** A scan that stops with nothing ready left has done all that a full scan does. */
  lemma ScanStops(i: nat, x0: Table, rset: set<int>, outcome: int -> Outcome, x: Table, log: seq<Event>)
    requires DistinctSlots(x0.slots) && FREE !in rset
    requires ScannedTo(i, x0, rset, outcome, x, log) && ReadyCount(x0.slots, i, rset) == 0
    ensures !SomeFails(x0.slots, i, rset, outcome)
    ensures x == FullyScanned(x0, rset, outcome) && log == Events(x0.slots, rset, outcome)
  {
    ReadyCountIsSize(x0.slots, i, rset, outcome);
    NothingReady(x0.slots, i, rset, outcome, x0.maxfd);
    SameClosing(x0.slots, i, rset, outcome);
  }

  /** From any point of a scan: it exits exactly if a client still to visit fails, and otherwise completes. */
  lemma {:induction false} ScanCompletes(i: nat, x0: Table, left: int, rset: set<int>, outcome: int -> Outcome,
                                         x: Table, log: seq<Event>)
    requires DistinctSlots(x0.slots) && FREE !in rset && -1 <= x0.maxi < |x0.slots|
    requires forall j :: x0.maxi < j < |x0.slots| ==> x0.slots[j] == FREE
    requires ScannedTo(i, x0, rset, outcome, x, log)
    requires ReadyCount(x0.slots, i, rset) <= left
    ensures x.maxi == x0.maxi < |x.slots|
    ensures ScanFrom(x, log, i, left, rset, outcome) ==
      if SomeFails(x0.slots, i, rset, outcome) then Exits
      else Continues(FullyScanned(x0, rset, outcome), Events(x0.slots, rset, outcome))
    decreases |x0.slots| - i
  {
    if i > x.maxi {
      FreeIsNotReady(x0.slots, i, rset, outcome);
      ScanStops(i, x0, rset, outcome, x, log);
    } else {
      var fd := x0.slots[i];
      ScanSlot(i, x0, rset, outcome, x, log);
      if !(fd in rset && outcome(fd).Fails?) {
        var x', log' := Visit(x, i, rset, outcome), VisitLog(log, fd, rset, outcome);
        var left' := if fd in rset && outcome(fd).Data? then left - 1 else left;
        if left' < left && left' <= 0 {
          ScanStops(i + 1, x0, rset, outcome, x', log');
        } else {
          ScanCompletes(i + 1, x0, left', rset, outcome, x', log');
        }
      }
    }
  }

  /** The variables after a scan that visited every slot. */
  function FullyScanned(x: Table, rset: set<int>, outcome: int -> Outcome): Table {
    Table(AfterClosing(x.slots, rset, outcome), x.allset - Closing(x.slots, rset, outcome),
          MaxfdAfter(x.slots, rset, outcome, x.maxfd), x.maxi)
  }

  lemma FullScanKeepsInRound(svrfd: int, x: Table, rset: set<int>, outcome: int -> Outcome)
    requires InRound(svrfd, x) && FREE !in rset
    ensures InRound(svrfd, FullyScanned(x, rset, outcome))
    ensures Stranded(svrfd, FullyScanned(x, rset, outcome)) == Stranded(svrfd, x)
  {
    ClosingUsed(x.slots, rset, outcome);
    forall j | 0 <= j < |x.slots|
      ensures x.slots[j] <= x.maxfd
    {
      assert x.slots[j] != FREE ==> x.slots[j] in Used(x.slots);
    }
    forall fd | fd in x.allset - Closing(x.slots, rset, outcome)
      ensures 0 <= fd <= MaxfdAfter(x.slots, rset, outcome, x.maxfd)
    {
      MaxfdStillBounds(x.slots, rset, outcome, x.maxfd, fd);
    }
  }

  lemma AcceptedKeepsInRound(svrfd: int, x: Table, fd: int)
    requires TableOk(svrfd, x) && fd >= 0 && fd !in x.allset
    ensures TableOk(svrfd, Accepted(x, fd))
    ensures Stranded(svrfd, Accepted(x, fd))
         == Stranded(svrfd, x) + (if FirstFree(x.slots) == MAXFDSIZE then {fd} else {})
  {
    var i := FirstFree(x.slots);
    if i < |x.slots| {
      UsedInsert(x.slots, i, fd);
    }
  }

  /**
    What accepting does, in terms of the descriptors: the new one joins the set, and the first free slot if
    there is one; no other slot changes.
   */
  lemma AcceptedExactly(svrfd: int, x: Table, fd: int)
    requires TableOk(svrfd, x) && fd >= 0 && fd !in x.allset
    ensures var x' := Accepted(x, fd);
      && x'.allset == x.allset + {fd}
      && x'.maxfd == (if fd > x.maxfd then fd else x.maxfd)
      && |x'.slots| == |x.slots|
      && (forall i :: 0 <= i < |x.slots| ==>
           x'.slots[i] == if TakenSlot(x.slots, i) then fd else x.slots[i])
      && Used(x'.slots) == Used(x.slots) + (if FREE in x.slots then {fd} else {})
  {
    var i := FirstFree(x.slots);
    if i < |x.slots| {
      UsedInsert(x.slots, i, fd);
    }
  }

  lemma ShrunkKeepsTable(svrfd: int, x: Table)
    requires InRound(svrfd, x)
    ensures TableOk(svrfd, x.(maxi := ShrunkFrom(x.slots, x.maxi)))
  {
  }

  /** Because of the bound, select misses no ready descriptor of the set. */
  lemma SelectMissesNone(svrfd: int, x: Table, ready: set<int>)
    requires InRound(svrfd, x)
    ensures Selected(x, ready) == x.allset * ready && FREE !in Selected(x, ready)
    ensures svrfd !in x.slots
  {
  }

  /** The table that a round scans: with the new connection, if there is one. */
  function RoundTable(svrfd: int, x: Table, env: Round): Table {
    if svrfd in Selected(x, env.ready) then Accepted(x, env.accepted) else x
  }

  /**
    One round from a consistent state: it ends in an exit only if select, accept or a ready client of the
    table fails; otherwise the scan was as good as a full one, in spite of its early exit, and the state is
    consistent again, with the connections outside the table just those that found it full.
   */
  lemma RoundIsComplete(svrfd: int, x: Table, env: Round)
    requires TableOk(svrfd, x) && KernelOk(svrfd, x, env)
    ensures var rset := Selected(x, env.ready); var r := RoundStep(svrfd, x, env);
      && rset == x.allset * env.ready
      && (r.Exits? <==> !env.selectOk
                        || (svrfd in rset && env.accepted < 0)
                        || !NoneFails(ReadyFrom(x.slots, 0, rset), env.outcome))
      && (r.Continues? ==>
           && r.log == Events(RoundTable(svrfd, x, env).slots, rset, env.outcome)
           && r.x == FullyScanned(RoundTable(svrfd, x, env), rset, env.outcome).(maxi := r.x.maxi)
           && TableOk(svrfd, r.x)
           && Stranded(svrfd, r.x) == Stranded(svrfd, RoundTable(svrfd, x, env)))
  {
    SelectMissesNone(svrfd, x, env.ready);
    var rset := Selected(x, env.ready);
    if !(svrfd in rset && env.accepted < 0) {
      var left := if svrfd in rset then |rset| - 1 else |rset|;
      ReadyToScan(svrfd, x, env);
      ScanOfRound(svrfd, RoundTable(svrfd, x, env), left, rset, env.outcome);
    }
  }

  /** The clients a round finds at end of file. */
  function Ended(clients: set<int>, env: Round): set<int> {
    set fd | fd in clients && fd in env.ready && env.outcome(fd).Eof?
  }

  /** The connection a round accepts. */
  function Joined(svrfd: int, env: Round): set<int> {
    if svrfd in env.ready then {env.accepted} else {}
  }

  /** The slot a new connection takes: the first free one. */
  ghost predicate TakenSlot(t: seq<int>, i: nat) {
    i < |t| && t[i] == FREE && forall j :: 0 <= j < i ==> t[j] != FREE
  }

  /**
    What a round does to the table and the set, slot by slot: a ready client at end of file is dropped, a new
    connection takes the first slot that was free when the round began, and every other slot is as before.
    The set gains the new connection and loses the clients at end of file.
   */
  lemma RoundExactly(svrfd: int, x: Table, env: Round)
    requires TableOk(svrfd, x) && KernelOk(svrfd, x, env) && RoundStep(svrfd, x, env).Continues?
    ensures var x' := RoundStep(svrfd, x, env).x;
      && x'.allset == x.allset + Joined(svrfd, env) - Ended(Used(x.slots), env)
      && |x'.slots| == |x.slots|
      && forall i :: 0 <= i < |x.slots| ==>
           x'.slots[i] ==
             if x.slots[i] in Ended(Used(x.slots), env) then FREE
             else if svrfd in env.ready && TakenSlot(x.slots, i) then env.accepted
             else x.slots[i]
  {
    DropsEnded(svrfd, x, env);
    SelectMissesNone(svrfd, x, env.ready);
    if svrfd in env.ready {
      AcceptedExactly(svrfd, x, env.accepted);
    }
  }

  lemma DropsEnded(svrfd: int, x: Table, env: Round)
    requires TableOk(svrfd, x) && KernelOk(svrfd, x, env) && RoundStep(svrfd, x, env).Continues?
    ensures var x', x1 := RoundStep(svrfd, x, env).x, RoundTable(svrfd, x, env);
      && (svrfd in Selected(x, env.ready) ==> env.accepted >= 0)
      && x'.allset == x1.allset - Ended(Used(x.slots), env)
      && |x'.slots| == |x1.slots| == |x.slots|
      && forall i :: 0 <= i < |x.slots| ==>
           x'.slots[i] == if x.slots[i] in Ended(Used(x.slots), env) then FREE else x1.slots[i]
  {
    RoundIsComplete(svrfd, x, env);
    ClosingIsEnded(svrfd, x, env);
    forall i | 0 <= i < |x.slots|
      ensures var x1 := RoundTable(svrfd, x, env);
        && |x1.slots| == |x.slots|
        && (Closes(x1.slots[i], Selected(x, env.ready), env.outcome) <==> x.slots[i] in Ended(Used(x.slots), env))
    {
      ClosesIsEnded(svrfd, x, env, i);
    }
  }

  lemma ClosesIsEnded(svrfd: int, x: Table, env: Round, i: nat)
    requires TableOk(svrfd, x) && KernelOk(svrfd, x, env) && i < |x.slots|
    requires svrfd in Selected(x, env.ready) ==> env.accepted >= 0
    ensures var x1 := RoundTable(svrfd, x, env);
      && |x1.slots| == |x.slots|
      && (Closes(x1.slots[i], Selected(x, env.ready), env.outcome) <==> x.slots[i] in Ended(Used(x.slots), env))
  {
    SelectMissesNone(svrfd, x, env.ready);
    if svrfd in Selected(x, env.ready) {
      AcceptedExactly(svrfd, x, env.accepted);
    }
    assert x.slots[i] != FREE ==> x.slots[i] in Used(x.slots);
  }

  lemma ClosingIsEnded(svrfd: int, x: Table, env: Round)
    requires TableOk(svrfd, x) && KernelOk(svrfd, x, env)
    requires svrfd in Selected(x, env.ready) ==> env.accepted >= 0
    ensures Closing(RoundTable(svrfd, x, env).slots, Selected(x, env.ready), env.outcome) == Ended(Used(x.slots), env)
  {
    var x1 := RoundTable(svrfd, x, env);
    var closing := Closing(x1.slots, Selected(x, env.ready), env.outcome);
    if x != x1 {
      AcceptedExactly(svrfd, x, env.accepted);
    }
    SelectMissesNone(svrfd, x, env.ready);
    forall i | 0 <= i < |x.slots|
      ensures |x1.slots| == |x.slots|
      ensures x1.slots[i] in closing ==> x.slots[i] == x1.slots[i]
      ensures Closes(x1.slots[i], Selected(x, env.ready), env.outcome) <==> x.slots[i] in Ended(Used(x.slots), env)
    {
      ClosesIsEnded(svrfd, x, env, i);
    }
    forall fd | fd in Ended(Used(x.slots), env)
      ensures fd in closing
    {
      var i :| 0 <= i < |x.slots| && x.slots[i] != FREE && x.slots[i] == fd;
      assert Closes(x1.slots[i], Selected(x, env.ready), env.outcome);
    }
  }

  lemma RoundKeepsTable(svrfd: int, x: Table, env: Round)
    requires TableOk(svrfd, x) && KernelOk(svrfd, x, env)
    ensures RoundStep(svrfd, x, env).Continues? ==> TableOk(svrfd, RoundStep(svrfd, x, env).x)
  {
    RoundIsComplete(svrfd, x, env);
  }

  /** After accepting, the counter of ready descriptors is not below the number of ready clients. */
  lemma ReadyToScan(svrfd: int, x: Table, env: Round)
    requires TableOk(svrfd, x) && KernelOk(svrfd, x, env)
    requires svrfd in Selected(x, env.ready) ==> env.accepted >= 0
    ensures var rset, x1 := Selected(x, env.ready), RoundTable(svrfd, x, env);
      && TableOk(svrfd, x1)
      && ReadyFrom(x1.slots, 0, rset) == ReadyFrom(x.slots, 0, rset)
      && |ReadyFrom(x1.slots, 0, rset)| <= (if svrfd in rset then |rset| - 1 else |rset|)
  {
    var rset := Selected(x, env.ready);
    SelectMissesNone(svrfd, x, env.ready);
    TableIsSelected(x.slots, svrfd, rset);
    if svrfd in rset {
      AcceptedKeepsInRound(svrfd, x, env.accepted);
      InsertedIsNotReady(x.slots, env.accepted, rset);
    }
  }

  /** The scan of a round, from the number of ready descriptors left after accepting. */
  lemma ScanOfRound(svrfd: int, x: Table, left: int, rset: set<int>, outcome: int -> Outcome)
    requires TableOk(svrfd, x) && FREE !in rset && |ReadyFrom(x.slots, 0, rset)| <= left
    ensures left <= 0 ==>
      && NoneFails(ReadyFrom(x.slots, 0, rset), outcome)
      && Events(x.slots, rset, outcome) == [] && FullyScanned(x, rset, outcome) == x
    ensures ScanFrom(x, [], 0, left, rset, outcome) ==
      if NoneFails(ReadyFrom(x.slots, 0, rset), outcome)
      then Continues(FullyScanned(x, rset, outcome), Events(x.slots, rset, outcome))
      else Exits
    ensures var x' := FullyScanned(x, rset, outcome);
      && x'.maxi < |x'.slots|
      && TableOk(svrfd, x'.(maxi := ShrunkFrom(x'.slots, x'.maxi)))
      && Stranded(svrfd, x') == Stranded(svrfd, x)
  {
    if left <= 0 {
      NothingHappens(svrfd, x, rset, outcome);
    }
    assert x.slots[..0] == [] && AfterClosing([], rset, outcome) + x.slots[0..] == x.slots;
    ReadyCountIsSize(x.slots, 0, rset, outcome);
    ScanCompletes(0, x, left, rset, outcome, x, []);
    FullScanKeepsInRound(svrfd, x, rset, outcome);
    ShrunkKeepsTable(svrfd, FullyScanned(x, rset, outcome));
  }

  /** The ready clients of the table are among the selected descriptors, besides the listening one. */
  lemma TableIsSelected(t: seq<int>, svrfd: int, rset: set<int>)
    requires svrfd !in t
    ensures |ReadyFrom(t, 0, rset)| <= |rset - {svrfd}|
    ensures |rset - {svrfd}| == |rset| - (if svrfd in rset then 1 else 0)
  {
    var clients := ReadyFrom(t, 0, rset);
    assert clients <= rset - {svrfd};
    assert rset - {svrfd} == clients + (rset - {svrfd} - clients);
  }

  /** A new connection is not among the descriptors selected before it was accepted. */
  lemma InsertedIsNotReady(t: seq<int>, fd: int, rset: set<int>)
    requires fd !in rset && FREE !in rset
    ensures ReadyFrom(Insert(t, fd), 0, rset) == ReadyFrom(t, 0, rset)
  {
  }

  lemma NothingHappens(svrfd: int, x: Table, rset: set<int>, outcome: int -> Outcome)
    requires InRound(svrfd, x) && ReadyFrom(x.slots, 0, rset) == {}
    ensures Events(x.slots, rset, outcome) == [] && FullyScanned(x, rset, outcome) == x
    ensures NoneFails(ReadyFrom(x.slots, 0, rset), outcome)
  {
    NothingReady(x.slots, 0, rset, outcome, x.maxfd);
    SameClosing(x.slots, 0, rset, outcome);
    assert x.slots[..0] == [] && AfterClosing([], rset, outcome) + x.slots[0..] == x.slots;
  }

  // ---------------------------------------------------------------- over whole runs

  /** The state after a list of rounds, or an exit. */
  function Serve(svrfd: int, envs: seq<Round>): (r: Result)
    ensures r.Continues? ==> r.x.maxi < |r.x.slots|
  {
    if envs == [] then Continues(Start(svrfd), []) else
    match Serve(svrfd, envs[..|envs| - 1])
    case Exits => Exits
    case Continues(x, _) => RoundStep(svrfd, x, envs[|envs| - 1])
  }

  /** In every round of the run accept returned a descriptor that was not open. */
  ghost predicate KernelOkThroughout(svrfd: int, envs: seq<Round>) {
    envs != [] ==>
      && KernelOkThroughout(svrfd, envs[..|envs| - 1])
      && match Serve(svrfd, envs[..|envs| - 1])
         case Exits => true
         case Continues(x, _) => KernelOk(svrfd, x, envs[|envs| - 1])
  }

  /** The table invariant holds after every round of every run. */
  lemma {:induction false} TableOkAlways(svrfd: int, envs: seq<Round>)
    requires svrfd >= 0 && KernelOkThroughout(svrfd, envs) && Serve(svrfd, envs).Continues?
    ensures TableOk(svrfd, Serve(svrfd, envs).x)
  {
    if envs != [] {
      var before := envs[..|envs| - 1];
      TableOkAlways(svrfd, before);
      RoundIsComplete(svrfd, Serve(svrfd, before).x, envs[|envs| - 1]);
    }
  }

  /** The connection accepted in a round that found every slot of the table taken, if it was such a round. */
  function RoundFoundFull(svrfd: int, x: Table, env: Round): set<int> {
    if svrfd in Selected(x, env.ready) && FirstFree(x.slots) == MAXFDSIZE then {env.accepted} else {}
  }

  lemma RoundStranded(svrfd: int, x: Table, env: Round)
    requires TableOk(svrfd, x) && KernelOk(svrfd, x, env) && RoundStep(svrfd, x, env).Continues?
    ensures Stranded(svrfd, RoundStep(svrfd, x, env).x) == Stranded(svrfd, x) + RoundFoundFull(svrfd, x, env)
  {
    RoundIsComplete(svrfd, x, env);
    if svrfd in Selected(x, env.ready) {
      AcceptedKeepsInRound(svrfd, x, env.accepted);
    }
  }

  /** All the connections accepted during the run while the table was full. */
  function FoundFull(svrfd: int, envs: seq<Round>): set<int> {
    if envs == [] then {} else
    var before := envs[..|envs| - 1];
    match Serve(svrfd, before)
    case Exits => {}
    case Continues(x, _) => FoundFull(svrfd, before) + RoundFoundFull(svrfd, x, envs[|envs| - 1])
  }

  lemma {:induction false} StrandedFoundFull(svrfd: int, envs: seq<Round>)
    requires svrfd >= 0 && KernelOkThroughout(svrfd, envs) && Serve(svrfd, envs).Continues?
    ensures Stranded(svrfd, Serve(svrfd, envs).x) == FoundFull(svrfd, envs)
  {
    if envs != [] {
      var before := envs[..|envs| - 1];
      StrandedFoundFull(svrfd, before);
      TableOkAlways(svrfd, before);
      RoundStranded(svrfd, Serve(svrfd, before).x, envs[|envs| - 1]);
    }
  }

  /**
    After every run the set is exactly the listening descriptor, the clients in the table, and the
    connections that were accepted while the table was full; the three do not overlap.
   */
  lemma {:induction false} SetIsAccountedFor(svrfd: int, envs: seq<Round>)
    requires svrfd >= 0 && KernelOkThroughout(svrfd, envs) && Serve(svrfd, envs).Continues?
    ensures var x := Serve(svrfd, envs).x;
      && x.allset == {svrfd} + Used(x.slots) + FoundFull(svrfd, envs)
      && svrfd !in Used(x.slots) && svrfd !in FoundFull(svrfd, envs)
      && Used(x.slots) !! FoundFull(svrfd, envs)
  {
    TableOkAlways(svrfd, envs);
    StrandedFoundFull(svrfd, envs);
  }

  /** The service without its table: the clients served, and the connections that came when it was full. */
  datatype Service = Service(clients: set<int>, turnedAway: set<int>)

  /** What a round should do, in terms of what its environment did. */
  function ExpectedRound(svrfd: int, e: Service, env: Round): Service {
    var joined, ended := Joined(svrfd, env), Ended(e.clients, env);
    if |e.clients| < 500 then Service(e.clients + joined - ended, e.turnedAway)
    else Service(e.clients - ended, e.turnedAway + joined)
  }

  function Expected(svrfd: int, envs: seq<Round>): Service {
    if envs == [] then Service({}, {})
    else ExpectedRound(svrfd, Expected(svrfd, envs[..|envs| - 1]), envs[|envs| - 1])
  }

  ghost predicate Represents(svrfd: int, used: set<int>, allset: set<int>, e: Service) {
    && used == e.clients
    && allset == {svrfd} + e.clients + e.turnedAway
    && e.clients !! e.turnedAway && {svrfd} !! e.clients && {svrfd} !! e.turnedAway
  }

  lemma UsedLast(t: seq<int>, last: int)
    ensures Used(t + [last]) == Used(t) + (if last == FREE then {} else {last})
    ensures DistinctSlots(t + [last]) ==> DistinctSlots(t) && (last == FREE || last !in Used(t))
  {
    var t' := t + [last];
    assert t'[|t|] == last;
    forall i | 0 <= i < |t|
      ensures t'[i] == t[i]
    {
    }
    forall fd | fd in Used(t)
      ensures fd in Used(t')
    {
      var i :| 0 <= i < |t| && t[i] != FREE && t[i] == fd;
      assert t'[i] == fd;
    }
  }

  /** No client is in two slots, so counting clients tells whether a slot is free. */
  lemma {:induction false} FullByCount(t: seq<int>)
    requires DistinctSlots(t)
    ensures |Used(t)| <= |t| && (|Used(t)| == |t| <==> FREE !in t)
  {
    if t != [] {
      var init, last := t[..|t| - 1], t[|t| - 1];
      FullByCount(init);
      assert t == init + [last];
      UsedLast(init, last);
    }
  }

  lemma RoundTableClients(svrfd: int, x: Table, env: Round)
    requires TableOk(svrfd, x) && KernelOk(svrfd, x, env)
    requires svrfd in Selected(x, env.ready) ==> env.accepted >= 0
    ensures Used(RoundTable(svrfd, x, env).slots) ==
      if |Used(x.slots)| < 500 then Used(x.slots) + Joined(svrfd, env) else Used(x.slots)
    ensures DistinctSlots(RoundTable(svrfd, x, env).slots)
  {
    SelectMissesNone(svrfd, x, env.ready);
    FullByCount(x.slots);
    if svrfd in env.ready {
      AcceptedExactly(svrfd, x, env.accepted);
      AcceptedKeepsInRound(svrfd, x, env.accepted);
    } else {
      assert Used(x.slots) + Joined(svrfd, env) == Used(x.slots);
    }
  }

  lemma RoundClients(svrfd: int, x: Table, env: Round)
    requires TableOk(svrfd, x) && KernelOk(svrfd, x, env) && RoundStep(svrfd, x, env).Continues?
    ensures var used := Used(x.slots);
      Used(RoundStep(svrfd, x, env).x.slots) ==
        (if |used| < 500 then used + Joined(svrfd, env) else used) - Ended(used, env)
  {
    RoundIsComplete(svrfd, x, env);
    SelectMissesNone(svrfd, x, env.ready);
    RoundTableClients(svrfd, x, env);
    ClosingIsEnded(svrfd, x, env);
    ClosingUsed(RoundTable(svrfd, x, env).slots, Selected(x, env.ready), env.outcome);
  }

  lemma SetsAsExpected(svrfd: int, used: set<int>, allset: set<int>, e: Service, env: Round,
                       used': set<int>, allset': set<int>)
    requires Represents(svrfd, used, allset, e)
    requires Joined(svrfd, env) !! allset
    requires used' == (if |used| < 500 then used + Joined(svrfd, env) else used) - Ended(used, env)
    requires allset' == allset + Joined(svrfd, env) - Ended(used, env)
    ensures Represents(svrfd, used', allset', ExpectedRound(svrfd, e, env))
  {
    assert Ended(used, env) <= used;
    MoveOut({svrfd}, used, e.turnedAway, Joined(svrfd, env), Ended(used, env));
  }

  /** Members of b leave, and new ones join b or c: the union changes accordingly and stays disjoint. */
  lemma MoveOut(a: set<int>, b: set<int>, c: set<int>, joined: set<int>, gone: set<int>)
    requires a !! b && a !! c && b !! c && joined !! a && joined !! b && joined !! c
    requires gone <= b
    ensures a + b + c + joined - gone == a + (b + joined - gone) + c == a + (b - gone) + (c + joined)
    ensures a !! (b + joined - gone) && (b + joined - gone) !! c
    ensures a !! (b - gone) && a !! (c + joined) && (b - gone) !! (c + joined)
  {
    forall fd | fd in gone
      ensures fd !in a && fd !in c && fd !in joined
    {
      assert fd in b;
    }
  }

  lemma RoundAsExpected(svrfd: int, x: Table, e: Service, env: Round)
    requires TableOk(svrfd, x) && KernelOk(svrfd, x, env) && RoundStep(svrfd, x, env).Continues?
    requires Represents(svrfd, Used(x.slots), x.allset, e)
    ensures var x' := RoundStep(svrfd, x, env).x;
      Represents(svrfd, Used(x'.slots), x'.allset, ExpectedRound(svrfd, e, env))
  {
    RoundClients(svrfd, x, env);
    RoundSet(svrfd, x, env);
    var x' := RoundStep(svrfd, x, env).x;
    SetsAsExpected(svrfd, Used(x.slots), x.allset, e, env, Used(x'.slots), x'.allset);
  }

  lemma RoundSet(svrfd: int, x: Table, env: Round)
    requires TableOk(svrfd, x) && KernelOk(svrfd, x, env) && RoundStep(svrfd, x, env).Continues?
    ensures RoundStep(svrfd, x, env).x.allset ==
      x.allset + Joined(svrfd, env) - Ended(Used(x.slots), env)
    ensures Joined(svrfd, env) !! x.allset
  {
    RoundExactly(svrfd, x, env);
    SelectMissesNone(svrfd, x, env.ready);
    RoundIsComplete(svrfd, x, env);
  }

  /**
    The table is only a representation: over every run the clients in it are the ones expected, and the set
    is the listening descriptor, those clients, and the connections that came when 500 were being served.
   */
  lemma {:induction false} ServesAsExpected(svrfd: int, envs: seq<Round>)
    requires svrfd >= 0 && KernelOkThroughout(svrfd, envs) && Serve(svrfd, envs).Continues?
    ensures var x := Serve(svrfd, envs).x; Represents(svrfd, Used(x.slots), x.allset, Expected(svrfd, envs))
  {
    if envs != [] {
      var before := envs[..|envs| - 1];
      ServesAsExpected(svrfd, before);
      TableOkAlways(svrfd, before);
      RoundAsExpected(svrfd, Serve(svrfd, before).x, Expected(svrfd, before), envs[|envs| - 1]);
    }
  }

  /**
    In every round of every run each ready client of the table is handled exactly once, by echoing the bytes
    read from it or by closing it at end of file; nothing is done to any other descriptor, in particular not
    to one that was accepted in the same round.
   */
  lemma EachRoundServesReadyClientsOnce(svrfd: int, envs: seq<Round>, env: Round, e: Event)
    requires svrfd >= 0 && KernelOkThroughout(svrfd, envs + [env])
    requires Serve(svrfd, envs).Continues? && Serve(svrfd, envs + [env]).Continues?
    ensures multiset(Serve(svrfd, envs + [env]).log)[e] ==
      if e.fd in Used(Serve(svrfd, envs).x.slots) && e.fd in env.ready && Handles(e, env.outcome) then 1 else 0
  {
    assert (envs + [env])[..|envs + [env]| - 1] == envs;
    TableOkAlways(svrfd, envs);
    RoundServesReadyClientsOnce(svrfd, Serve(svrfd, envs).x, env, e);
  }

  lemma RoundServesReadyClientsOnce(svrfd: int, x: Table, env: Round, e: Event)
    requires TableOk(svrfd, x) && KernelOk(svrfd, x, env) && RoundStep(svrfd, x, env).Continues?
    ensures multiset(RoundStep(svrfd, x, env).log)[e] ==
      if e.fd in Used(x.slots) && e.fd in env.ready && Handles(e, env.outcome) then 1 else 0
  {
    RoundIsComplete(svrfd, x, env);
    SelectMissesNone(svrfd, x, env.ready);
    var rset := Selected(x, env.ready);
    var x1 := RoundTable(svrfd, x, env);
    if svrfd in rset {
      AcceptedKeepsInRound(svrfd, x, env.accepted);
      InsertedIsNotReady(x.slots, env.accepted, rset);
    }
    forall fd | fd in rset
      ensures fd in x1.slots <==> fd in ReadyFrom(x.slots, 0, rset)
      ensures fd in x.slots <==> fd in Used(x.slots)
    {
      assert fd in x1.slots <==> fd in ReadyFrom(x1.slots, 0, rset);
    }
    EachReadyClientOnce(x1.slots, rset, env.outcome, e);
  }
}
