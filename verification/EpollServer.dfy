/**
  The epoll-based echo server: full_write of lib/lhf.cpp, the functions of io/socketio.cpp and the event
  loop of io/css_echo_epoll.cpp. Every result of a system call is part of the event that leads to it, so the
  theorems hold for all of them: short writes, errors, and any order of events.
 */
module EpollServer {
  import opened Wrappers

  /** What write returns for len bytes, from a raw choice: an error, or at most len bytes taken. */
  function WriteReturns(choice: int, len: nat): (re: int)
    ensures -1 <= re <= len
  {
    if choice < 0 then -1 else if choice > len then len else choice
  }

  datatype WriteOutcome = AllWritten | WriteFailed | LengthAssertFailed

  /**
    The bytes full_write delivers and how it ends. choices are the results of its calls of write; once they
    run out a write takes everything.
   */
  function Deliver(buff: seq<byte>, choices: seq<int>): (seq<byte>, WriteOutcome)
    decreases |buff|
  {
    var re := if choices == [] then |buff| else WriteReturns(choices[0], |buff|);
    var later := if choices == [] then [] else choices[1..];
    if re > 0 then
      if |buff| - re > 0 then
        var (rest, o) := Deliver(buff[re..], later);
        (buff[..re] + rest, o)
      else (buff, AllWritten)
    else if re < 0 then ([], WriteFailed)
    else if |buff| == 0 then ([], AllWritten)
    else ([], LengthAssertFailed)
  }

  /** Whatever the writes do, a prefix goes out, in order; success means all of it, and only then. */
  lemma {:induction false} DeliversPrefix(buff: seq<byte>, choices: seq<int>)
    ensures var (out, o) := Deliver(buff, choices);
      && out <= buff
      && (o.AllWritten? ==> out == buff)
      && (out == buff && buff != [] ==> o.AllWritten?)
    decreases |buff|
  {
    var re := if choices == [] then |buff| else WriteReturns(choices[0], |buff|);
    if 0 < re < |buff| {
      DeliversPrefix(buff[re..], if choices == [] then [] else choices[1..]);
      assert buff == buff[..re] + buff[re..];
    }
  }

  /** The bytes that the writes before the first failing one can take. */
  function Accepting(choices: seq<int>): nat {
    if choices == [] || choices[0] <= 0 then 0 else choices[0] + Accepting(choices[1..])
  }

  /** The first result of a write that is an error or takes nothing. */
  function FirstFailure(choices: seq<int>): Option<int> {
    if choices == [] then None else if choices[0] <= 0 then Some(choices[0]) else FirstFailure(choices[1..])
  }

  /** Whether full_write succeeds: the writes take everything before one of them fails. */
  predicate TakesAll(buff: seq<byte>, choices: seq<int>) {
    if buff == [] then choices == [] || choices[0] >= 0
    else Accepting(choices) >= |buff| || FirstFailure(choices) == None
  }

  /** What full_write sends and how it ends, in terms of the results of its writes. */
  lemma {:induction false} DeliversExactly(buff: seq<byte>, choices: seq<int>)
    ensures var (out, o) := Deliver(buff, choices);
      && out == (if TakesAll(buff, choices) || buff == [] then buff else buff[..Accepting(choices)])
      && (o.AllWritten? <==> TakesAll(buff, choices))
      && (buff != [] && !o.AllWritten? ==> (o.WriteFailed? <==> FirstFailure(choices).value < 0))
    decreases |buff|
  {
    if buff != [] && choices != [] && 0 < choices[0] < |buff| {
      DeliversExactly(buff[choices[0]..], choices[1..]);
      assert buff == buff[..choices[0]] + buff[choices[0]..];
    }
  }

  // ---------------------------------------------------------------- the server on values

  /** A connection: its number, the bytes read from it and the bytes written to it. */
  datatype Conn = Conn(id: nat, input: seq<byte>, output: seq<byte>)

  /** The epoll interest set, the open connections by descriptor, and the ones closed, in order. */
  datatype State = State(interest: set<int>, conns: map<int, Conn>, finished: seq<Conn>, accepted: nat)

  datatype ReadResult = ReadError | EndOfFile | Bytes(data: seq<byte>)

  /** What epoll_wait reports about a descriptor. */
  datatype Flags = Flags(epollin: bool, epollout: bool, rdhup: bool, err: bool)

  /**
    An entry of the events array with the results of the calls it leads to: the descriptor from accept and
    whether epoll_ctl succeeds, or what read, write and close return.
   */
  datatype Event = Event(
    fd: int,
    flags: Flags,
    clifd: int,
    ctlOk: bool,
    input: ReadResult,
    writes: seq<int>,
    closeOk: bool)

  /** The return value for an assert that fails instead of returning. */
  const ABORTED := -1

  function Start(srvfd: int): State {
    State({srvfd}, map[], [], 0)
  }

  function WriteCode(o: WriteOutcome): int {
    match o
    case AllWritten => 0
    case WriteFailed => 2
    case LengthAssertFailed => ABORTED
  }

  /** read_write: the new state, the return value, and eof. */
  function ReadWriteSpec(s: State, fromfd: int, tofd: int, input: ReadResult, writes: seq<int>): (r: (State, int, bool))
    requires fromfd in s.conns && tofd in s.conns
    ensures r.0.conns.Keys == s.conns.Keys
  {
    match input
    case ReadError => (s, 1, false)
    case EndOfFile => (s, 0, true)
    case Bytes(data) =>
      var c := s.conns[fromfd];
      var conns1 := s.conns[fromfd := c.(input := c.input + data)];
      var (out, o) := Deliver(data, writes);
      var t := conns1[tofd];
      (s.(conns := conns1[tofd := t.(output := t.output + out)]), WriteCode(o), false)
  }

  /** close: the connection is finished, and its descriptor leaves the interest set with it. */
  function CloseSpec(s: State, fd: int): State
    requires fd in s.conns
  {
    s.(interest := s.interest - {fd}, conns := s.conns - {fd}, finished := s.finished + [s.conns[fd]])
  }

  function ShutdownSpec(s: State, fromfd: int, tofd: int, e: Event): (State, int)
    requires fromfd in s.conns && tofd in s.conns
  {
    var (s1, re, eof) := ReadWriteSpec(s, fromfd, tofd, e.input, e.writes);
    if re == ABORTED then (s1, ABORTED)
    else if re != 0 then (s1, 1)
    else if !eof then (s1, 0)
    else if !e.closeOk then (s1, 2)
    else
      var s2 := CloseSpec(s1, fromfd);
      (if fromfd != tofd then CloseSpec(s2, tofd) else s2, 0)
  }

  /** deal_epoll_event with data_echo as its input function and no output function. */
  function DealSpec(s: State, e: Event): (State, int)
    requires e.fd in s.conns
  {
    if e.flags.epollin then
      var (s1, re) := ShutdownSpec(s, e.fd, e.fd, e);
      (s1, if re == ABORTED then ABORTED else if re != 0 then 1 else 0)
    else if e.flags.epollout then (s, 0)
    else if e.flags.rdhup then
      if e.ctlOk then (s.(interest := s.interest - {e.fd}), 0) else (s, 3)
    else if e.flags.err then (s, 4)
    else (s, 5)
  }

  function AcceptSpec(s: State, e: Event): (State, int) {
    if e.clifd < 0 then (s, 1)
    else
      var s1 := s.(conns := s.conns[e.clifd := Conn(s.accepted, [], [])], accepted := s.accepted + 1);
      if e.ctlOk then (s1.(interest := s1.interest + {e.clifd}), 0) else (s1, 2)
  }

  /** One entry of the events array; a nonzero code makes the server exit. Reading a closed descriptor fails. */
  function EventSpec(srvfd: int, s: State, e: Event): (State, int) {
    if e.fd == srvfd then AcceptSpec(s, e)
    else if e.fd in s.conns then DealSpec(s, e)
    else (s, 1)
  }

  /** The entries of one epoll_wait in order, up to the first that makes the server exit. */
  function BatchSpec(srvfd: int, s: State, events: seq<Event>): (State, int)
    decreases |events|
  {
    if events == [] then (s, 0) else
    var (t, re) := EventSpec(srvfd, s, events[0]);
    if re != 0 then (t, re) else BatchSpec(srvfd, t, events[1..])
  }

  /** What epoll_wait gives: an error, or events. */
  datatype Wait = WaitFails | Reports(events: seq<Event>)

  /** One turn of the endless loop. */
  function TurnSpec(srvfd: int, s: State, w: Wait): (State, int) {
    if w.WaitFails? then (s, 2) else BatchSpec(srvfd, s, w.events)
  }

  // ---------------------------------------------------------------- the code

  class Server {
    const srvfd: int
    var interest: set<int>
    var conns: map<int, Conn>
    ghost var finished: seq<Conn>
    var accepted: nat

    ghost function View(): State
      reads this
    {
      State(interest, conns, finished, accepted)
    }

    constructor (srvfd: int)
      ensures View() == Start(srvfd) && this.srvfd == srvfd
    {
      this.srvfd := srvfd;
      interest, conns, finished, accepted := {srvfd}, map[], [], 0;
    }

    /** full_write, to the connection with descriptor fd. */
    method FullWrite(fd: int, buff: seq<byte>, choices: seq<int>) returns (o: WriteOutcome)
      requires fd in conns
      modifies `conns
      ensures var (out, o') := Deliver(buff, choices); var c := old(conns)[fd];
        o == o' && conns == old(conns)[fd := c.(output := c.output + out)]
    {
      var pbuff, later := buff, choices;
      ghost var c0, gone: seq<byte> := conns[fd], [];
      ghost var total := Deliver(buff, choices);
      assert c0 == c0.(output := c0.output + gone) && total.0 == gone + total.0;
      while true
        invariant conns == old(conns)[fd := c0.(output := c0.output + gone)]
        invariant var (rest, o') := Deliver(pbuff, later); total.0 == gone + rest && total.1 == o'
        decreases |pbuff|
      {
        var re := if later == [] then |pbuff| else WriteReturns(later[0], |pbuff|);
        later := if later == [] then [] else later[1..];
        if re > 0 {
          var c := conns[fd];
          conns := conns[fd := c.(output := c.output + pbuff[..re])];
          assert c.output + pbuff[..re] == c0.output + (gone + pbuff[..re]);
          gone := gone + pbuff[..re];
          pbuff := pbuff[re..];
          if |pbuff| == 0 {
            assert total.0 == gone;
            return AllWritten;
          }
        } else if re < 0 {
          assert total.0 == gone;
          return WriteFailed;
        } else {
          assert total.0 == gone;
          return if |pbuff| == 0 then AllWritten else LengthAssertFailed;
        }
      }
    }

    method ReadWrite(fromfd: int, tofd: int, input: ReadResult, writes: seq<int>) returns (re: int, eof: bool)
      requires fromfd in conns && tofd in conns
      modifies this
      ensures (View(), re, eof) == ReadWriteSpec(old(View()), fromfd, tofd, input, writes)
      ensures re == 0 ==>
        && eof == input.EndOfFile?
        && conns[fromfd].input == old(conns)[fromfd].input + DataOf(input)
        && conns[tofd].output == old(conns)[tofd].output + DataOf(input)
      ensures LeavesOthers(old(conns), conns, {fromfd, tofd}) && conns.Keys == old(conns).Keys
    {
      eof := false;
      match input
      case ReadError => re := 1;
      case EndOfFile => re, eof := 0, true;
      case Bytes(data) =>
        var c := conns[fromfd];
        conns := conns[fromfd := c.(input := c.input + data)];
        var o := FullWrite(tofd, data, writes);
        re := WriteCode(o);
        DeliversPrefix(data, writes);
    }

    method Close(fd: int)
      requires fd in conns
      modifies this
      ensures View() == CloseSpec(old(View()), fd)
    {
      finished := finished + [conns[fd]];
      interest, conns := interest - {fd}, conns - {fd};
    }

    method ReadWriteShutdownIfReadEof(fromfd: int, tofd: int, e: Event) returns (re: int)
      requires fromfd in conns && tofd in conns
      modifies this
      ensures (View(), re) == ShutdownSpec(old(View()), fromfd, tofd, e)
      ensures re == 0 <==> ReadsAndWrites(e)
      ensures re == 0 && e.input.EndOfFile? ==>
        && conns == old(conns) - {fromfd, tofd} && interest == old(interest) - {fromfd, tofd}
        && finished == old(finished) + [old(conns)[fromfd]] + (if fromfd == tofd then [] else [old(conns)[tofd]])
      ensures e.input.Bytes? ==>
        && interest == old(interest) && finished == old(finished) && conns.Keys == old(conns).Keys
        && conns[fromfd].input == old(conns)[fromfd].input + e.input.data
        && conns[tofd].output == old(conns)[tofd].output + Deliver(e.input.data, e.writes).0
      ensures re == 0 && fromfd == tofd && Inv(srvfd, old(View())) ==> Inv(srvfd, View())
      ensures LeavesOthers(old(conns), conns, {fromfd, tofd})
    {
      ghost var was := View();
      if fromfd == tofd && Inv(srvfd, was) {
        ShutdownKeepsInv(srvfd, was, fromfd, e);
      }
      if e.input.Bytes? {
        DeliversExactly(e.input.data, e.writes);
      }
      var eof;
      re, eof := ReadWrite(fromfd, tofd, e.input, e.writes);
      if re != 0 {
        return if re == ABORTED then ABORTED else 1;
      }
      if eof {
        if !e.closeOk {
          return 2;
        }
        Close(fromfd);
        if fromfd != tofd {
          Close(tofd);
        }
      }
    }

    method DealEpollEvent(e: Event) returns (re: int)
      requires e.fd in conns
      modifies this
      ensures (View(), re) == DealSpec(old(View()), e)
      ensures e.flags.epollin ==> (re == 0 <==> ReadsAndWrites(e))
      ensures e.flags.epollin && e.input.Bytes? && re == 0 ==>
        var c := old(conns)[e.fd];
        conns == old(conns)[e.fd := c.(input := c.input + e.input.data, output := c.output + e.input.data)]
      ensures e.flags.epollin && e.input.EndOfFile? && re == 0 ==> conns == old(conns) - {e.fd}
      ensures !e.flags.epollin ==>
        && conns == old(conns) && finished == old(finished)
        && (re == 0 <==> e.flags.epollout || (e.flags.rdhup && e.ctlOk))
        && interest == old(interest) - (if re == 0 && !e.flags.epollout then {e.fd} else {})
      ensures re == 0 && InterestStays(e.flags) && Inv(srvfd, old(View())) ==> Inv(srvfd, View())
      ensures LeavesOthers(old(conns), conns, {e.fd})
    {
      if e.flags.epollin {
        if e.input.Bytes? {
          DeliversExactly(e.input.data, e.writes);
        }
        re := ReadWriteShutdownIfReadEof(e.fd, e.fd, e);
        return if re == ABORTED then ABORTED else if re != 0 then 1 else 0;
      } else if e.flags.epollout {
        return 0;
      } else if e.flags.rdhup {
        if !e.ctlOk {
          return 3;
        }
        interest := interest - {e.fd};
        return 0;
      } else if e.flags.err {
        return 4;
      } else {
        return 5;
      }
    }

    method AcceptEpollCtl(e: Event) returns (re: int)
      modifies this
      ensures (View(), re) == AcceptSpec(old(View()), e)
      ensures re == 0 <==> e.clifd >= 0 && e.ctlOk
      ensures re == 0 ==>
        && conns == old(conns)[e.clifd := Conn(old(accepted), [], [])] && accepted == old(accepted) + 1
        && interest == old(interest) + {e.clifd} && finished == old(finished)
      ensures re == 0 && e.clifd !in old(interest) && Inv(srvfd, old(View())) ==> Inv(srvfd, View())
      ensures LeavesOthers(old(conns), conns, {e.clifd})
    {
      if e.clifd < 0 {
        return 1;
      }
      conns := conns[e.clifd := Conn(accepted, [], [])];
      accepted := accepted + 1;
      if !e.ctlOk {
        return 2;
      }
      interest := interest + {e.clifd};
      return 0;
    }

    /** The loop over the events of one epoll_wait; re is the code of the event that made the server exit. */
    method RunBatch(events: seq<Event>) returns (re: int)
      requires Inv(srvfd, View()) && BatchOk(srvfd, View(), events)
      modifies this
      ensures (View(), re) == BatchSpec(srvfd, old(View()), events)
      ensures re == 0 ==> Inv(srvfd, View())
    {
      var i := 0;
      while i < |events|
        invariant 0 <= i <= |events|
        invariant Inv(srvfd, View()) && BatchOk(srvfd, View(), events[i..])
        invariant BatchSpec(srvfd, View(), events[i..]) == BatchSpec(srvfd, old(View()), events)
      {
        BatchStep(srvfd, View(), events[i..]);
        if events[i].fd == srvfd {
          re := AcceptEpollCtl(events[i]);
        } else {
          re := DealEpollEvent(events[i]);
        }
        if re != 0 {
          return;
        }
        i := i + 1;
      }
      return 0;
    }

    method RunTurn(w: Wait) returns (re: int)
      requires Inv(srvfd, View()) && WaitOk(srvfd, View(), w)
      modifies this
      ensures (View(), re) == TurnSpec(srvfd, old(View()), w)
      ensures re == 0 ==> w.Reports? && Inv(srvfd, View())
    {
      if w.WaitFails? {
        return 2;
      }
      re := RunBatch(w.events);
    }
  }

  // ---------------------------------------------------------------- invariants

  /** Everything read from a connection has been written back to it. */
  predicate Echoed(c: Conn) {
    c.output == c.input
  }

  ghost predicate Inv(srvfd: int, s: State) {
    && srvfd !in s.conns
    && s.interest == {srvfd} + s.conns.Keys
    && (forall fd :: fd in s.conns ==> Echoed(s.conns[fd]) && s.conns[fd].id < s.accepted)
    && (forall i :: 0 <= i < |s.finished| ==> Echoed(s.finished[i]) && s.finished[i].id < s.accepted)
    && (forall fd, fd' :: fd in s.conns && fd' in s.conns && fd != fd' ==> s.conns[fd].id != s.conns[fd'].id)
    && (forall i, j :: 0 <= i < j < |s.finished| ==> s.finished[i].id != s.finished[j].id)
    && (forall fd, i :: fd in s.conns && 0 <= i < |s.finished| ==> s.conns[fd].id != s.finished[i].id)
  }

  /** The connections on all other descriptors are as they were. */
  ghost predicate LeavesOthers(before: map<int, Conn>, after: map<int, Conn>, fds: set<int>) {
    forall fd :: fd in before && fd !in fds ==> fd in after && after[fd] == before[fd]
  }

  /** The bytes a read returned. */
  function DataOf(input: ReadResult): seq<byte> {
    if input.Bytes? then input.data else []
  }

  /** The calls for an input event all succeed: read, then full_write of what was read, or close at end of file. */
  predicate ReadsAndWrites(e: Event) {
    match e.input
    case ReadError => false
    case EndOfFile => e.closeOk
    case Bytes(data) => TakesAll(data, e.writes)
  }

  /** The event is not handled as a hang-up of the reading side, which would drop its descriptor. */
  predicate InterestStays(f: Flags) {
    f.rdhup ==> f.epollin || f.epollout
  }

  /** Only input was asked for, so output and hang-up of the reading side are not reported. */
  predicate FlagsOk(f: Flags) {
    !f.epollout && !f.rdhup
  }

  /** What epoll_wait reports: descriptors of the interest set, each at most once. */
  predicate Reported(srvfd: int, s: State, events: seq<Event>) {
    && (forall i :: 0 <= i < |events| ==>
        events[i].fd in s.interest && (events[i].fd != srvfd ==> FlagsOk(events[i].flags)))
    && (forall i, j :: 0 <= i < j < |events| ==> events[i].fd != events[j].fd)
  }

  /** Whenever accept is called it returns a descriptor that is not open at that time. */
  predicate AcceptsFresh(srvfd: int, s: State, events: seq<Event>)
    decreases |events|
  {
    events != [] ==>
      && (events[0].fd == srvfd ==> events[0].clifd != srvfd && events[0].clifd !in s.conns)
      && AcceptsFresh(srvfd, EventSpec(srvfd, s, events[0]).0, events[1..])
  }

  predicate BatchOk(srvfd: int, s: State, events: seq<Event>) {
    Reported(srvfd, s, events) && AcceptsFresh(srvfd, s, events)
  }

  predicate WaitOk(srvfd: int, s: State, w: Wait) {
    w.Reports? ==> BatchOk(srvfd, s, w.events)
  }

  /** Replacing a connection by one of the same number that has echoed what it read keeps the invariant. */
  lemma UpdateKeepsInv(srvfd: int, s: State, fd: int, c: Conn)
    requires Inv(srvfd, s) && fd in s.conns && c.id == s.conns[fd].id && Echoed(c)
    ensures Inv(srvfd, s.(conns := s.conns[fd := c]))
  {
  }

  lemma CloseKeepsInv(srvfd: int, s: State, fd: int)
    requires Inv(srvfd, s) && fd in s.conns
    ensures Inv(srvfd, CloseSpec(s, fd))
  {
  }

  /** Echoing what was read, or closing at end of file. */
  lemma ShutdownKeepsInv(srvfd: int, s: State, fd: int, e: Event)
    requires Inv(srvfd, s) && fd in s.conns
    ensures var (s', re) := ShutdownSpec(s, fd, fd, e); re == 0 ==> Inv(srvfd, s')
  {
    match e.input
    case ReadError =>
    case EndOfFile => CloseKeepsInv(srvfd, s, fd);
    case Bytes(data) =>
      DeliversPrefix(data, e.writes);
      var c := s.conns[fd];
      var c' := c.(input := c.input + data, output := c.output + Deliver(data, e.writes).0);
      if Deliver(data, e.writes).1.AllWritten? {
        UpdateKeepsInv(srvfd, s, fd, c');
        assert s.conns[fd := c.(input := c.input + data)][fd := c'] == s.conns[fd := c'];
      }
  }

  /** An accept or a read, a write back, a close: one event keeps the invariant unless it ends the server. */
  lemma EventKeepsInv(srvfd: int, s: State, e: Event)
    requires Inv(srvfd, s) && BatchOk(srvfd, s, [e])
    ensures var (s', re) := EventSpec(srvfd, s, e); re == 0 ==> Inv(srvfd, s')
  {
    assert [e][0] == e;
    if e.fd != srvfd {
      ShutdownKeepsInv(srvfd, s, e.fd, e);
    }
  }

  /** An event does not touch any other connection, and leaves its descriptor in the interest set. */
  lemma EventLeavesOthers(srvfd: int, s: State, e: Event, fd: int)
    requires Inv(srvfd, s) && BatchOk(srvfd, s, [e]) && fd != e.fd && fd in s.interest
    ensures var s' := EventSpec(srvfd, s, e).0;
      fd in s'.interest && (fd != srvfd ==> fd in s'.conns && s'.conns[fd] == s.conns[fd])
  {
  }

  /** After the first event of a batch the rest is still a batch. */
  lemma BatchStep(srvfd: int, s: State, events: seq<Event>)
    requires Inv(srvfd, s) && BatchOk(srvfd, s, events) && events != []
    ensures events[0].fd != srvfd ==> events[0].fd in s.conns
    ensures var (t, re) := EventSpec(srvfd, s, events[0]);
      re == 0 ==> Inv(srvfd, t) && BatchOk(srvfd, t, events[1..])
  {
    var e := events[0];
    assert BatchOk(srvfd, s, [e]) by {
      assert [e][0] == e;
    }
    EventKeepsInv(srvfd, s, e);
    forall i | 0 <= i < |events[1..]|
      ensures events[1..][i].fd in EventSpec(srvfd, s, e).0.interest
    {
      EventLeavesOthers(srvfd, s, e, events[i + 1].fd);
    }
  }

  lemma {:induction false} BatchKeepsInv(srvfd: int, s: State, events: seq<Event>)
    requires Inv(srvfd, s) && BatchOk(srvfd, s, events)
    ensures var (t, re) := BatchSpec(srvfd, s, events); re == 0 ==> Inv(srvfd, t)
    decreases |events|
  {
    if events != [] {
      BatchStep(srvfd, s, events);
      var (t, re) := EventSpec(srvfd, s, events[0]);
      if re == 0 {
        BatchKeepsInv(srvfd, t, events[1..]);
      }
    }
  }

  /**
    No event of a batch is stale: although earlier events of the same batch may close connections and accept
    new ones, when the k-th event is handled its descriptor is open and belongs to the connection it was
    reported for.
   */
  lemma {:induction false} NoStaleEvent(srvfd: int, s: State, events: seq<Event>, k: nat)
    requires Inv(srvfd, s) && BatchOk(srvfd, s, events) && k < |events| && events[k].fd != srvfd
    requires BatchSpec(srvfd, s, events[..k]).1 == 0
    ensures events[k].fd in s.conns
    ensures var t := BatchSpec(srvfd, s, events[..k]).0;
      events[k].fd in t.conns && t.conns[events[k].fd] == s.conns[events[k].fd]
    decreases k
  {
    if k > 0 {
      var e := events[0];
      assert events[..k][0] == e && events[..k][1..] == events[1..][..k - 1];
      assert BatchOk(srvfd, s, [e]) by {
        assert [e][0] == e;
      }
      BatchStep(srvfd, s, events);
      EventLeavesOthers(srvfd, s, e, events[k].fd);
      NoStaleEvent(srvfd, EventSpec(srvfd, s, e).0, events[1..], k - 1);
    }
  }

  // ---------------------------------------------------------------- over whole runs

  /** The state and the code after a list of epoll_wait calls. */
  function Run(srvfd: int, waits: seq<Wait>): (State, int) {
    if waits == [] then (Start(srvfd), 0) else
    var (s, re) := Run(srvfd, waits[..|waits| - 1]);
    if re != 0 then (s, re) else TurnSpec(srvfd, s, waits[|waits| - 1])
  }

  predicate KernelOk(srvfd: int, waits: seq<Wait>) {
    waits != [] ==>
      && KernelOk(srvfd, waits[..|waits| - 1])
      && var (s, re) := Run(srvfd, waits[..|waits| - 1]);
         re == 0 ==> WaitOk(srvfd, s, waits[|waits| - 1])
  }

  /**
    While the server runs, whatever the sizes of its reads and writes, each connection, open or closed, has
    been sent exactly the bytes read from it; the interest set is the listening descriptor and the open
    connections; and no connection has been closed twice, or closed and left open.
   */
  lemma {:induction false} EchoesWhileRunning(srvfd: int, waits: seq<Wait>)
    requires KernelOk(srvfd, waits) && Run(srvfd, waits).1 == 0
    ensures Inv(srvfd, Run(srvfd, waits).0)
  {
    if waits != [] {
      var before := waits[..|waits| - 1];
      EchoesWhileRunning(srvfd, before);
      if waits[|waits| - 1].Reports? {
        BatchKeepsInv(srvfd, Run(srvfd, before).0, waits[|waits| - 1].events);
      }
    }
  }

  // ---------------------------------------------------------------- the server in terms of its events

  /** All events reported in a list of epoll_wait calls. */
  function Trace(waits: seq<Wait>): seq<Event> {
    if waits == [] then [] else
    var w := waits[|waits| - 1];
    Trace(waits[..|waits| - 1]) + if w.Reports? then w.events else []
  }

  /** Whether the calls an event leads to all succeed. */
  predicate Succeeds(srvfd: int, e: Event) {
    if e.fd == srvfd then e.clifd >= 0 && e.ctlOk else e.flags.epollin && ReadsAndWrites(e)
  }

  predicate AllSucceed(srvfd: int, events: seq<Event>) {
    forall e :: e in events ==> Succeeds(srvfd, e)
  }

  lemma AllSucceedFirst(srvfd: int, events: seq<Event>)
    requires events != []
    ensures AllSucceed(srvfd, events) <==> Succeeds(srvfd, events[0]) && AllSucceed(srvfd, events[1..])
  {
    assert events == [events[0]] + events[1..];
  }

  predicate Ends(srvfd: int, e: Event) {
    e.fd != srvfd && e.input.EndOfFile?
  }

  /** The descriptors of the clients that have come and not ended. */
  function Clients(srvfd: int, tr: seq<Event>): set<int> {
    if tr == [] then {} else
    var before, e := Clients(srvfd, tr[..|tr| - 1]), tr[|tr| - 1];
    if e.fd == srvfd then before + {e.clifd} else if Ends(srvfd, e) then before - {e.fd} else before
  }

  /** What has been read from descriptor fd since it was last accepted. */
  function Received(srvfd: int, tr: seq<Event>, fd: int): seq<byte> {
    if tr == [] then [] else
    var before, e := Received(srvfd, tr[..|tr| - 1], fd), tr[|tr| - 1];
    if e.fd == srvfd then (if e.clifd == fd then [] else before)
    else if e.fd == fd && e.input.Bytes? then before + e.input.data
    else before
  }

  /** What each client that ended had sent, in the order in which they ended. */
  function Completed(srvfd: int, tr: seq<Event>): seq<seq<byte>> {
    if tr == [] then [] else
    var before, e := tr[..|tr| - 1], tr[|tr| - 1];
    Completed(srvfd, before) + if Ends(srvfd, e) then [Received(srvfd, before, e.fd)] else []
  }

  function Inputs(finished: seq<Conn>): seq<seq<byte>> {
    seq(|finished|, i requires 0 <= i < |finished| => finished[i].input)
  }

  /** The state holds what the events say. */
  ghost predicate Reflects(srvfd: int, s: State, tr: seq<Event>) {
    && s.conns.Keys == Clients(srvfd, tr)
    && (forall fd :: fd in s.conns ==> s.conns[fd].input == Received(srvfd, tr, fd))
    && Inputs(s.finished) == Completed(srvfd, tr)
  }

  /** An event is survived exactly if its calls succeed. */
  lemma SurvivesExactly(srvfd: int, s: State, e: Event)
    requires Inv(srvfd, s) && BatchOk(srvfd, s, [e])
    ensures EventSpec(srvfd, s, e).1 == 0 <==> Succeeds(srvfd, e)
  {
    assert [e][0] == e;
    if e.fd != srvfd && e.input.Bytes? {
      DeliversExactly(e.input.data, e.writes);
    }
  }

  lemma EventReflects(srvfd: int, s: State, tr: seq<Event>, e: Event)
    requires Inv(srvfd, s) && BatchOk(srvfd, s, [e]) && Succeeds(srvfd, e) && Reflects(srvfd, s, tr)
    ensures Reflects(srvfd, EventSpec(srvfd, s, e).0, tr + [e])
  {
    assert [e][0] == e && (tr + [e])[..|tr|] == tr;
    var s' := EventSpec(srvfd, s, e).0;
    if e.fd != srvfd && e.input.Bytes? {
      DeliversExactly(e.input.data, e.writes);
    }
    assert s'.conns.Keys == Clients(srvfd, tr + [e]);
    if Ends(srvfd, e) {
      assert Inputs(s'.finished) == Inputs(s.finished) + [s.conns[e.fd].input];
    } else {
      assert s'.finished == s.finished;
    }
  }

  /** A batch is survived exactly if each of its events is. */
  lemma {:induction false} BatchSurvivesExactly(srvfd: int, s: State, events: seq<Event>)
    requires Inv(srvfd, s) && BatchOk(srvfd, s, events)
    ensures BatchSpec(srvfd, s, events).1 == 0 <==> AllSucceed(srvfd, events)
    decreases |events|
  {
    if events != [] {
      assert BatchOk(srvfd, s, [events[0]]) by {
        assert [events[0]][0] == events[0];
      }
      SurvivesExactly(srvfd, s, events[0]);
      BatchStep(srvfd, s, events);
      AllSucceedFirst(srvfd, events);
      var (t, re) := EventSpec(srvfd, s, events[0]);
      if re == 0 {
        BatchSurvivesExactly(srvfd, t, events[1..]);
      }
    }
  }

  lemma FirstReflects(srvfd: int, s: State, tr: seq<Event>, events: seq<Event>)
    requires Inv(srvfd, s) && BatchOk(srvfd, s, events) && Reflects(srvfd, s, tr)
    requires events != [] && Succeeds(srvfd, events[0])
    ensures var t := EventSpec(srvfd, s, events[0]).0;
      Reflects(srvfd, t, tr + [events[0]]) && Inv(srvfd, t) && BatchOk(srvfd, t, events[1..])
    ensures tr + [events[0]] + events[1..] == tr + events
  {
    var e := events[0];
    assert BatchOk(srvfd, s, [e]) by {
      assert [e][0] == e;
    }
    SurvivesExactly(srvfd, s, e);
    BatchStep(srvfd, s, events);
    EventReflects(srvfd, s, tr, e);
  }

  /** After a batch that was survived the state reflects all of its events. */
  lemma {:induction false} BatchReflects(srvfd: int, s: State, tr: seq<Event>, events: seq<Event>)
    requires Inv(srvfd, s) && BatchOk(srvfd, s, events) && Reflects(srvfd, s, tr) && AllSucceed(srvfd, events)
    ensures Reflects(srvfd, BatchSpec(srvfd, s, events).0, tr + events)
    decreases |events|
  {
    if events == [] {
      assert tr + events == tr;
    } else {
      AllSucceedFirst(srvfd, events);
      FirstReflects(srvfd, s, tr, events);
      BatchSurvivesExactly(srvfd, s, events);
      BatchReflects(srvfd, EventSpec(srvfd, s, events[0]).0, tr + [events[0]], events[1..]);
    }
  }

  /**
    A run is decided by its events alone. The server is alive exactly if every call of epoll_wait and every
    call for an event succeeded; then its connections are the clients that came and have not ended, and each
    of them, and each one that ended, has had read from it exactly the bytes its events brought.
   */
  lemma {:induction false} EventsDecide(srvfd: int, waits: seq<Wait>)
    requires KernelOk(srvfd, waits)
    ensures Run(srvfd, waits).1 == 0 <==>
      && (forall i :: 0 <= i < |waits| ==> waits[i].Reports?)
      && AllSucceed(srvfd, Trace(waits))
    ensures Run(srvfd, waits).1 == 0 ==> Reflects(srvfd, Run(srvfd, waits).0, Trace(waits))
  {
    if waits != [] {
      var before, w := waits[..|waits| - 1], waits[|waits| - 1];
      EventsDecide(srvfd, before);
      assert waits == before + [w];
      if Run(srvfd, before).1 == 0 {
        EchoesWhileRunning(srvfd, before);
        if w.Reports? {
          BatchSurvivesExactly(srvfd, Run(srvfd, before).0, w.events);
          if AllSucceed(srvfd, w.events) {
            BatchReflects(srvfd, Run(srvfd, before).0, Trace(before), w.events);
          }
        }
      }
    }
  }

  /** Output that is a prefix of the input: nothing invented, nothing out of order. */
  ghost predicate PrefixEchoed(s: State) {
    && (forall fd :: fd in s.conns ==> s.conns[fd].output <= s.conns[fd].input)
    && (forall i :: 0 <= i < |s.finished| ==> Echoed(s.finished[i]))
  }

  lemma ShutdownKeepsPrefix(srvfd: int, s: State, fd: int, e: Event)
    requires Inv(srvfd, s) && fd in s.conns
    ensures PrefixEchoed(ShutdownSpec(s, fd, fd, e).0)
  {
    if e.input.Bytes? {
      DeliversPrefix(e.input.data, e.writes);
    }
  }

  lemma EventKeepsPrefix(srvfd: int, s: State, e: Event)
    requires Inv(srvfd, s) && BatchOk(srvfd, s, [e])
    ensures PrefixEchoed(EventSpec(srvfd, s, e).0)
  {
    assert [e][0] == e;
    if e.fd != srvfd {
      ShutdownKeepsPrefix(srvfd, s, e.fd, e);
    }
  }

  lemma {:induction false} BatchKeepsPrefix(srvfd: int, s: State, events: seq<Event>)
    requires Inv(srvfd, s) && BatchOk(srvfd, s, events)
    ensures PrefixEchoed(BatchSpec(srvfd, s, events).0)
    decreases |events|
  {
    if events != [] {
      BatchStep(srvfd, s, events);
      var e := events[0];
      assert BatchOk(srvfd, s, [e]) by {
        assert [e][0] == e;
      }
      EventKeepsPrefix(srvfd, s, e);
      var (t, re) := EventSpec(srvfd, s, e);
      if re == 0 {
        BatchKeepsPrefix(srvfd, t, events[1..]);
      }
    }
  }

  /** Even when an error ends the server, what a client got back is a prefix of what was read from it. */
  lemma {:induction false} PrefixEvenOnExit(srvfd: int, waits: seq<Wait>)
    requires KernelOk(srvfd, waits)
    ensures PrefixEchoed(Run(srvfd, waits).0)
  {
    if waits != [] {
      var before := waits[..|waits| - 1];
      if Run(srvfd, before).1 == 0 {
        EchoesWhileRunning(srvfd, before);
      }
      if Run(srvfd, before).1 == 0 && waits[|waits| - 1].Reports? {
        BatchKeepsPrefix(srvfd, Run(srvfd, before).0, waits[|waits| - 1].events);
      } else {
        PrefixEvenOnExit(srvfd, before);
      }
    }
  }
}
