/**
  The line echo between csc_echo.cpp and the per-connection loop of css_echo.cpp, joined by two byte
  channels. A read takes any nonempty prefix of what is in its channel, up to the size of its buffer, and a
  write is taken whole. Lines are what fgets leaves in the client's buffer: the client sends them up to
  their first NUL, as strlen measures them.
 */
module EchoPair {
  import opened Wrappers

  /** sizeof(buff)-1 in both programs. */
  const CHUNK := 1023

  /** strlen: the number of bytes before the first NUL. */
  function StrLen(line: seq<byte>): (n: nat)
    ensures n <= |line|
    ensures forall i :: 0 <= i < n ==> line[i] != 0
    ensures n < |line| ==> line[n] == 0
  {
    if line == [] || line[0] == 0 then 0 else 1 + StrLen(line[1..])
  }

  /** The bytes of a line that the client sends. */
  function Text(line: seq<byte>): seq<byte> {
    line[..StrLen(line)]
  }

  function Texts(lines: seq<seq<byte>>): seq<byte> {
    if lines == [] then [] else Text(lines[0]) + Texts(lines[1..])
  }

  /**
    Getting: about to call fgets. Reading: len bytes of the line were sent and cnt of them came back.
    TooMany is the exit on cnt>len, Gone the exit at the end of the input.
   */
  datatype Client = Getting | Writing(msg: seq<byte>) | Reading(len: nat, cnt: nat) | TooMany | Gone

  datatype Server = Receiving | Sending(buff: seq<byte>) | Closed

  /** output is what the client prints; sent and received list the bytes it has written and read. */
  datatype State = State(
    lines: seq<seq<byte>>,
    client: Client,
    toServer: seq<byte>,
    server: Server,
    toClient: seq<byte>,
    sent: seq<byte>,
    received: seq<byte>,
    output: seq<byte>)

  /** One step of a program; n is the number of bytes a read takes. */
  datatype Action = ClientStep(n: nat) | ServerStep(n: nat)

  function Init(lines: seq<seq<byte>>): State {
    State(lines, Getting, [], Receiving, [], [], [], [])
  }

  predicate ReadTakes(channel: seq<byte>, n: nat) {
    1 <= n <= CHUNK && n <= |channel|
  }

  /** The client's loop body after read returned these bytes; fputs prints them up to the first NUL. */
  function AfterRead(s: State, chunk: seq<byte>): State
    requires s.client.Reading?
  {
    var cnt := s.client.cnt + |chunk|;
    s.(received := s.received + chunk,
       output := s.output + Text(chunk),
       client := if cnt == s.client.len then Getting
                 else if cnt > s.client.len then TooMany
                 else Reading(s.client.len, cnt))
  }

  function Step(s: State, a: Action): Option<State> {
    match a
    case ClientStep(n) =>
      (match s.client
       case Getting =>
         if s.lines == [] then Some(s.(client := Gone))
         else Some(s.(lines := s.lines[1..], client := Writing(Text(s.lines[0]))))
       case Writing(msg) =>
         Some(s.(client := Reading(|msg|, 0), toServer := s.toServer + msg, sent := s.sent + msg))
       case Reading(_, _) =>
         if ReadTakes(s.toClient, n) then Some(AfterRead(s.(toClient := s.toClient[n..]), s.toClient[..n]))
         else if s.toClient == [] && s.server == Closed then Some(AfterRead(s, []))
         else None
       case TooMany => None
       case Gone => None)
    case ServerStep(n) =>
      match s.server
      case Receiving =>
        if ReadTakes(s.toServer, n)
        then Some(s.(server := Sending(s.toServer[..n]), toServer := s.toServer[n..]))
        else if s.toServer == [] && (s.client == Gone || s.client == TooMany) then Some(s.(server := Closed))
        else None
      case Sending(buff) => Some(s.(server := Receiving, toClient := s.toClient + buff))
      case Closed => None
  }

  function Exec(lines: seq<seq<byte>>, acts: seq<Action>): Option<State> {
    if acts == [] then Some(Init(lines)) else
    match Exec(lines, acts[..|acts| - 1])
    case None => None
    case Some(s) => Step(s, acts[|acts| - 1])
  }

  /**
    A read takes any number of bytes from one up to 1023, as far as there are any, and exactly the first ones
    in its channel; with none it waits, unless the other program has closed its end. The client goes on reading
    until it has as many bytes as it sent, and would exit if it got more.
   */
  lemma ClientReadsAnyAmount(s: State, n: nat)
    requires s.client.Reading?
    ensures Step(s, ClientStep(n)).Some? <==>
      (1 <= n <= 1023 && n <= |s.toClient|) || (s.toClient == [] && s.server == Closed)
    ensures 1 <= n <= 1023 && n <= |s.toClient| ==>
      var s' := Step(s, ClientStep(n)).value;
      && s'.received + s'.toClient == s.received + s.toClient && |s'.received| == |s.received| + n
      && s'.sent == s.sent && s'.toServer == s.toServer && s'.server == s.server && s'.lines == s.lines
      && var cnt := s.client.cnt + n;
         s'.client == if cnt < s.client.len then Reading(s.client.len, cnt)
                      else if cnt == s.client.len then Getting else TooMany
  {
    if 1 <= n <= 1023 && n <= |s.toClient| {
      assert s.toClient == s.toClient[..n] + s.toClient[n..];
    }
  }

  lemma ServerReadsAnyAmount(s: State, n: nat)
    requires s.server.Receiving?
    ensures Step(s, ServerStep(n)).Some? <==>
      (1 <= n <= 1023 && n <= |s.toServer|) || (s.toServer == [] && (s.client == Gone || s.client == TooMany))
    ensures 1 <= n <= 1023 && n <= |s.toServer| ==>
      var s' := Step(s, ServerStep(n)).value;
      && s' == s.(server := s'.server, toServer := s'.toServer)
      && s'.server.Sending? && |s'.server.buff| == n && s'.server.buff + s'.toServer == s.toServer
  {
  }

  /** Everything but a read can happen at any time until the program has ended. */
  lemma OthersNeverWait(s: State, n: nat)
    ensures s.client.Getting? || s.client.Writing? ==> Step(s, ClientStep(n)).Some?
    ensures s.client.Gone? || s.client.TooMany? ==> Step(s, ClientStep(n)).None?
    ensures s.server.Sending? ==> Step(s, ServerStep(n)).Some?
    ensures s.server.Closed? ==> Step(s, ServerStep(n)).None?
  {
  }

  // ---------------------------------------------------------------- conservation

  function InServer(s: State): seq<byte> {
    if s.server.Sending? then s.server.buff else []
  }

  /** What is on its way: the channel to the client, the server's buffer, the channel to the server. */
  function InFlight(s: State): seq<byte> {
    s.toClient + InServer(s) + s.toServer
  }

  /** Bytes the client is about to send. */
  function Unsent(s: State): seq<byte> {
    if s.client.Writing? then s.client.msg else []
  }

  predicate NoNul(bytes: seq<byte>) {
    forall i :: 0 <= i < |bytes| ==> bytes[i] != 0
  }

  ghost predicate Inv(lines: seq<seq<byte>>, s: State) {
    && s.sent == s.received + InFlight(s)
    && s.sent + Unsent(s) + Texts(s.lines) == Texts(lines)
    && s.output == s.received
    && NoNul(Texts(lines))
    && (s.server.Sending? ==> s.server.buff != [])
    && match s.client
       case Reading(len, cnt) => cnt <= len && len - cnt == |InFlight(s)| && (len > 0 ==> cnt < len) && s.server != Closed
       case TooMany => false
       case _ => InFlight(s) == [] && (s.server == Closed ==> s.client == Gone) && (s.client == Gone ==> s.lines == [])
  }

  lemma {:induction false} TextsHaveNoNul(lines: seq<seq<byte>>)
    ensures NoNul(Texts(lines))
  {
    if lines != [] {
      TextsHaveNoNul(lines[1..]);
    }
  }

  lemma {:induction false} TextOfNoNul(bytes: seq<byte>)
    requires NoNul(bytes)
    ensures Text(bytes) == bytes
  {
  }

  /** What the client reads next is the next part of the lines. */
  lemma ChunkIsNext(lines: seq<seq<byte>>, s: State, n: nat)
    requires Inv(lines, s) && n <= |s.toClient|
    ensures NoNul(s.toClient[..n]) && Text(s.toClient[..n]) == s.toClient[..n]
  {
    forall i | 0 <= i < n
      ensures s.toClient[i] != 0
    {
      assert s.toClient[i] == s.sent[|s.received| + i] == Texts(lines)[|s.received| + i];
    }
    TextOfNoNul(s.toClient[..n]);
  }

  lemma ReadKeepsInv(lines: seq<seq<byte>>, s: State, n: nat)
    requires Inv(lines, s) && s.client.Reading? && ReadTakes(s.toClient, n)
    ensures Inv(lines, Step(s, ClientStep(n)).value)
  {
    var s' := Step(s, ClientStep(n)).value;
    var chunk := s.toClient[..n];
    ChunkIsNext(lines, s, n);
    assert s.toClient == chunk + s'.toClient;
    MoveFront(s.received, chunk, s'.toClient, InServer(s), s.toServer);
    assert Unsent(s') == Unsent(s) == [];
  }

  lemma MoveFront(a: seq<byte>, b: seq<byte>, c: seq<byte>, d: seq<byte>, e: seq<byte>)
    ensures a + (b + c + d + e) == a + b + (c + d + e)
    ensures |b + c + d + e| == |b| + |c + d + e|
  {
  }

  lemma WriteKeepsInv(lines: seq<seq<byte>>, s: State)
    requires Inv(lines, s) && s.client.Writing?
    ensures Inv(lines, Step(s, ClientStep(0)).value)
  {
    var s' := Step(s, ClientStep(0)).value;
    assert s.toClient == [] && InServer(s) == [] && s.toServer == [];
    assert InFlight(s') == s.client.msg && s'.sent + [] == s.sent + s.client.msg;
  }

  lemma Append(a: seq<byte>, b: seq<byte>, c: seq<byte>)
    ensures a + [] + (b + c) == a + b + c
    ensures a + [] + b == a + b
  {
  }

  lemma GetKeepsInv(lines: seq<seq<byte>>, s: State)
    requires Inv(lines, s) && s.client.Getting?
    ensures Inv(lines, Step(s, ClientStep(0)).value)
  {
    var s' := Step(s, ClientStep(0)).value;
    assert InFlight(s') == InFlight(s) && s'.sent == s.sent;
    if s.lines != [] {
      Append(s.sent, Text(s.lines[0]), Texts(s.lines[1..]));
      assert Texts(s.lines) == Text(s.lines[0]) + Texts(s.lines[1..]);
      assert Unsent(s) == [] && Unsent(s') == Text(s.lines[0]) && s'.lines == s.lines[1..];
    }
  }

  lemma ServerKeepsInv(lines: seq<seq<byte>>, s: State, n: nat)
    requires Inv(lines, s) && Step(s, ServerStep(n)).Some?
    ensures Inv(lines, Step(s, ServerStep(n)).value)
  {
  }

  lemma InvPreserved(lines: seq<seq<byte>>, s: State, a: Action)
    requires Inv(lines, s) && Step(s, a).Some?
    ensures Inv(lines, Step(s, a).value)
  {
    if a.ServerStep? {
      ServerKeepsInv(lines, s, a.n);
    } else if s.client.Reading? {
      ReadKeepsInv(lines, s, a.n);
    } else if s.client.Writing? {
      WriteKeepsInv(lines, s);
    } else {
      GetKeepsInv(lines, s);
    }
  }

  lemma InvInit(lines: seq<seq<byte>>)
    ensures Inv(lines, Init(lines))
  {
    TextsHaveNoNul(lines);
  }

  lemma {:induction false} InvAlways(lines: seq<seq<byte>>, acts: seq<Action>)
    requires Exec(lines, acts).Some?
    ensures Inv(lines, Exec(lines, acts).value)
  {
    if acts == [] {
      InvInit(lines);
    } else {
      var before := acts[..|acts| - 1];
      InvAlways(lines, before);
      InvPreserved(lines, Exec(lines, before).value, acts[|acts| - 1]);
    }
  }

  /** At any moment the bytes sent are the bytes received back followed by the ones in flight, in order. */
  lemma BytesAreConserved(lines: seq<seq<byte>>, acts: seq<Action>)
    requires Exec(lines, acts).Some?
    ensures var s := Exec(lines, acts).value;
      && s.sent == s.received + s.toClient + InServer(s) + s.toServer
      && s.output == s.received
      && s.output <= Texts(lines)
  {
    InvAlways(lines, acts);
    var s := Exec(lines, acts).value;
    Regroup(s.received, s.toClient, InServer(s), s.toServer);
    Regroup(s.output, InFlight(s), Unsent(s), Texts(s.lines));
  }

  lemma Regroup(a: seq<byte>, b: seq<byte>, c: seq<byte>, d: seq<byte>)
    ensures a + b + c + d == a + (b + c + d)
  {
  }

  /** The exit for receiving more than was sent is unreachable. */
  lemma NeverTooMany(lines: seq<seq<byte>>, acts: seq<Action>)
    requires Exec(lines, acts).Some?
    ensures !Exec(lines, acts).value.client.TooMany?
  {
    InvAlways(lines, acts);
  }

  /** Whenever the client is back at fgets it has printed exactly the lines it has taken from its input. */
  lemma EachLineEchoedExactly(lines: seq<seq<byte>>, acts: seq<Action>)
    requires Exec(lines, acts).Some? && Exec(lines, acts).value.client.Getting?
    ensures var s := Exec(lines, acts).value;
      s.output + Texts(s.lines) == Texts(lines) && InFlight(s) == []
  {
    InvAlways(lines, acts);
    var s := Exec(lines, acts).value;
    assert s.received + [] == s.received;
  }

  // ---------------------------------------------------------------- progress

  /** Three moves per byte and two per line. */
  function LinesCost(lines: seq<seq<byte>>): nat {
    if lines == [] then 0 else 3 * StrLen(lines[0]) + 2 + LinesCost(lines[1..])
  }

  function Measure(s: State): nat {
    LinesCost(s.lines)
    + (if s.client.Writing? then 3 * |s.client.msg| + 1 else 0)
    + (if s.client.Gone? || s.client.TooMany? then 0 else 1)
    + 3 * |s.toServer| + 2 * |InServer(s)| + |s.toClient|
    + (if s.server == Closed then 0 else 1)
  }

  /** A line moves from the input to the client, and from there to the channel. */
  lemma SendLowersMeasure(s: State, n: nat)
    requires (s.client.Getting? || s.client.Writing?) && Step(s, ClientStep(n)).Some?
    ensures Measure(Step(s, ClientStep(n)).value) < Measure(s)
  {
    var s' := Step(s, ClientStep(n)).value;
    if s.client.Writing? {
      assert |s'.toServer| == |s.toServer| + |s.client.msg|;
    }
  }

  lemma ReadLowersMeasure(s: State, n: nat)
    requires s.client.Reading? && ReadTakes(s.toClient, n)
    ensures Measure(Step(s, ClientStep(n)).value) < Measure(s)
  {
    var s' := Step(s, ClientStep(n)).value;
    assert |s'.toClient| == |s.toClient| - n && s'.lines == s.lines && !s'.client.Writing?;
    assert s'.toServer == s.toServer && s'.server == s.server;
  }

  lemma ServerLowersMeasure(s: State, n: nat)
    requires Step(s, ServerStep(n)).Some? && (s.server.Sending? ==> s.server.buff != [])
    ensures Measure(Step(s, ServerStep(n)).value) < Measure(s)
  {
    var s' := Step(s, ServerStep(n)).value;
    assert s'.lines == s.lines && s'.client == s.client;
  }

  lemma MeasureDecreases(lines: seq<seq<byte>>, s: State, a: Action)
    requires Inv(lines, s) && Step(s, a).Some?
    ensures Measure(Step(s, a).value) < Measure(s)
  {
    if a.ServerStep? {
      ServerLowersMeasure(s, a.n);
    } else if s.client.Reading? {
      ReadLowersMeasure(s, a.n);
    } else {
      SendLowersMeasure(s, a.n);
    }
  }

  lemma {:induction false} MeasureBoundsRun(lines: seq<seq<byte>>, acts: seq<Action>)
    requires Exec(lines, acts).Some?
    ensures Measure(Exec(lines, acts).value) + |acts| <= LinesCost(lines) + 2
  {
    if acts != [] {
      var before := acts[..|acts| - 1];
      MeasureBoundsRun(lines, before);
      InvAlways(lines, before);
      MeasureDecreases(lines, Exec(lines, before).value, acts[|acts| - 1]);
    }
  }

  /** Every run is finite, whatever the sizes of the reads. */
  lemma RunsAreBounded(lines: seq<seq<byte>>, acts: seq<Action>)
    requires Exec(lines, acts).Some?
    ensures |acts| <= LinesCost(lines) + 2
  {
    MeasureBoundsRun(lines, acts);
  }

  ghost predicate Stuck(s: State) {
    forall a :: Step(s, a).None?
  }

  /** The only way to be stuck before the end is to wait for the echo of a line whose text is empty. */
  lemma StuckExactly(lines: seq<seq<byte>>, s: State)
    requires Inv(lines, s) && Stuck(s)
    ensures if s.client == Gone then s.server == Closed && s.output == Texts(lines)
            else s.client == Reading(0, 0)
  {
    var n := if |s.toClient| > CHUNK then CHUNK else |s.toClient|;
    var m := if |s.toServer| > CHUNK then CHUNK else |s.toServer|;
    assert Step(s, ClientStep(n)).None? && Step(s, ServerStep(m)).None?;
    if s.client == Gone {
      assert s.output + [] + [] + [] == Texts(lines);
    }
  }

  ghost predicate HasEmptyText(lines: seq<seq<byte>>) {
    exists i :: 0 <= i < |lines| && StrLen(lines[i]) == 0
  }

  /** Whether the client has taken, or will take, a line with an empty text. */
  ghost predicate EmptyTextAhead(s: State) {
    HasEmptyText(s.lines) || s.client == Writing([]) || s.client == Reading(0, 0)
  }

  lemma HasEmptyTextSplit(lines: seq<seq<byte>>)
    requires lines != []
    ensures HasEmptyText(lines) <==> StrLen(lines[0]) == 0 || HasEmptyText(lines[1..])
  {
  }

  lemma EmptyTextPreserved(lines: seq<seq<byte>>, s: State, a: Action)
    requires Inv(lines, s) && Step(s, a).Some?
    ensures EmptyTextAhead(s) <==> EmptyTextAhead(Step(s, a).value)
  {
    if s.client.Getting? && s.lines != [] {
      HasEmptyTextSplit(s.lines);
    }
  }

  lemma {:induction false} EmptyTextAlways(lines: seq<seq<byte>>, acts: seq<Action>)
    requires Exec(lines, acts).Some?
    ensures EmptyTextAhead(Exec(lines, acts).value) <==> HasEmptyText(lines)
  {
    if acts != [] {
      var before := acts[..|acts| - 1];
      EmptyTextAlways(lines, before);
      InvAlways(lines, before);
      EmptyTextPreserved(lines, Exec(lines, before).value, acts[|acts| - 1]);
    }
  }

  /**
    The exact condition for a complete conversation: a run that cannot go on has both programs finished and
    every line echoed if and only if no line starts with a NUL; otherwise the client waits forever.
   */
  lemma FinishesExactly(lines: seq<seq<byte>>, acts: seq<Action>)
    requires Exec(lines, acts).Some? && Stuck(Exec(lines, acts).value)
    ensures var s := Exec(lines, acts).value;
      (s.client == Gone && s.server == Closed && s.output == Texts(lines)) <==> !HasEmptyText(lines)
  {
    InvAlways(lines, acts);
    EmptyTextAlways(lines, acts);
    StuckExactly(lines, Exec(lines, acts).value);
  }
}
