/**
  The write queue and the close machine of TCPConnection in src/net4cxx/core/network/tcp.{h,cpp}, as a
  function from a connection and an event to the next connection. The outcomes of socket calls are part of
  the event. No producer is registered. With iocp, doWrite merges the queue into its front packet, as
  SSLConnection in src/net4cxx/core/network/ssl.cpp does too.
*/
module TcpMachine {
  import opened Basics

  /** What write_some did: nothing yet, an error, or some bytes taken. */
  datatype Outcome = WouldBlock | Failed | Sent(n: nat)

  datatype ReadResult = ReadData(data: bytes) | ReadEof | ReadAborted | ReadError

  datatype WriteResult = Wrote(n: nat) | WriteAborted | WriteError

  /** What has happened so far. */
  datatype Log = Log(
    zero: bool, // a write took no byte while no close had been asked for
    writeOps: nat, readOps: nat, // asynchronous operations in flight
    inflight: bytes, // the buffer of the last asynchronous write
    accepted: bytes, // what write was given while the connection was up
    sent: bytes) // what the socket took

  datatype Conn = Conn(
    queue: seq<bytes>, // the active bytes of each packet
    connected: bool, disconnected: bool, disconnecting: bool, aborting: bool, reading: bool, writing: bool,
    open: bool, // the socket
    error: bool, // _error is set
    closes: nat, // calls of closeSocket posted to the reactor
    delivered: seq<bytes>, // the calls of dataReceived
    lost: nat, // the calls of connectionLost
    log: Log)

  function DoClose(c: Conn): Conn {
    if !c.writing && !c.reading then c.(closes := c.closes + 1)
    else if !c.writing then c.(open := false)
    else c
  }

  function DoAbort(c: Conn): Conn {
    if !c.writing && !c.reading then c.(closes := c.closes + 1) else c.(open := false)
  }

  function CloseSocket(c: Conn): Conn {
    c.(connected := false, disconnected := true, disconnecting := false, aborting := false, open := false,
       lost := c.lost + 1)
  }

  function StartRead(c: Conn): Conn { c.(reading := true, log := c.log.(readOps := c.log.readOps + 1)) }

  /** The reading side and what was accepted are the same, and a close asked for stays asked for. */
  predicate Untouched(d: Conn, c: Conn) {
    && d.reading == c.reading && d.delivered == c.delivered && d.log.accepted == c.log.accepted
    && d.disconnected == c.disconnected && (c.disconnecting ==> d.disconnecting)
  }

  function StartAsync(c: Conn): (d: Conn)
    requires c.queue != []
    ensures Untouched(d, c)
  {
    c.(writing := true, log := c.log.(writeOps := c.log.writeOps + 1, inflight := c.queue[0]))
  }

  /** The queue without the first n bytes of its front packet. */
  function Shorter(queue: seq<bytes>, n: nat): seq<bytes>
    requires queue != [] && n <= |queue[0]|
  {
    if n == |queue[0]| then queue[1..] else [queue[0][n..]] + queue[1..]
  }

  /** Takes n bytes off the front packet. */
  function Take(c: Conn, n: nat): (d: Conn)
    requires c.queue != [] && n <= |c.queue[0]|
    ensures Untouched(d, c)
    ensures n < |c.queue[0]| ==> d.queue != []
  {
    c.(log := c.log.(sent := c.log.sent + c.queue[0][..n]), queue := Shorter(c.queue, n))
  }

  function GiveUp(c: Conn): (d: Conn)
    ensures Untouched(d, c)
  {
    DoClose(c.(disconnecting := true))
  }

  function NoteError(c: Conn): (d: Conn)
    ensures Untouched(d, c)
  {
    c.(error := true)
  }

  function NoteZero(c: Conn): (d: Conn)
    ensures Untouched(d, c)
  {
    c.(log := c.log.(zero := c.log.zero || !c.disconnecting))
  }

  /** The loop of synchronous writes. When the outcomes run out the socket would block. */
  function WriteLoop(c: Conn, env: seq<Outcome>): Conn
    requires c.queue != []
    decreases |env|
  {
    if env == [] then StartAsync(c)
    else
      match env[0]
      case WouldBlock => StartAsync(c)
      case Failed => GiveUp(NoteError(c))
      case Sent(k) =>
        var n := Min(k, |c.queue[0]|);
        if n == 0 then GiveUp(NoteZero(c))
        else
          var d := Take(c, n);
          if n < |c.queue[0]| then StartAsync(d) else if d.queue == [] then d else WriteLoop(d, env[1..])
  }

  lemma {:induction false} WriteLoopUntouched(c: Conn, env: seq<Outcome>)
    requires c.queue != []
    ensures Untouched(WriteLoop(c, env), c)
    decreases |env|
  {
    hide Take, GiveUp, StartAsync, NoteError, NoteZero, Min;
    if env != [] && env[0].Sent? {
      var n := Min(env[0].n, |c.queue[0]|);
      if n == |c.queue[0]| && n > 0 && Take(c, n).queue != [] { WriteLoopUntouched(Take(c, n), env[1..]); }
    }
  }

  function DoWrite(iocp: bool, c: Conn, env: seq<Outcome>): (d: Conn)
    requires c.queue != []
    ensures Untouched(d, c)
  {
    WriteLoopUntouched(c, env);
    if iocp then StartAsync(c.(queue := [Flatten(c.queue)])) else WriteLoop(c, env)
  }

  // ----- the calls of the protocol -----

  datatype Call = CallWrite(data: bytes, env: seq<Outcome>) | CallLose | CallAbort

  predicate Refuses(c: Conn) { c.disconnecting || c.disconnected || !c.connected }

  function Write(iocp: bool, c: Conn, data: bytes, env: seq<Outcome>): (d: Conn)
    ensures d.reading == c.reading
  {
    if Refuses(c) || data == [] then c
    else
      var d := c.(queue := c.queue + [data], log := c.log.(accepted := c.log.accepted + data));
      if d.writing then d else DoWrite(iocp, d, env)
  }

  function LoseConnection(c: Conn): Conn {
    if Refuses(c) then c else DoClose(c.(error := true, disconnecting := true))
  }

  function AbortConnection(c: Conn): Conn {
    if Refuses(c) then c else DoAbort(c.(error := true, disconnecting := true, aborting := true))
  }

  function Do(iocp: bool, c: Conn, call: Call): (d: Conn)
    ensures d.reading == c.reading
  {
    match call
    case CallWrite(data, env) => Write(iocp, c, data, env)
    case CallLose => LoseConnection(c)
    case CallAbort => AbortConnection(c)
  }

  /** What a handler of the protocol does. */
  function Calls(iocp: bool, c: Conn, calls: seq<Call>): (d: Conn)
    ensures d.reading == c.reading
    decreases |calls|
  {
    if calls == [] then c else Calls(iocp, Do(iocp, c, calls[0]), calls[1..])
  }

  // ----- completions -----

  function HandleRead(iocp: bool, c: Conn, r: ReadResult, calls: seq<Call>): Conn {
    match r
    case ReadData(data) =>
      if c.disconnecting then c else Calls(iocp, c.(delivered := c.delivered + [data]), calls)
    case ReadAborted => if c.disconnected then c else CloseSocket(c)
    case _ => if c.disconnected then c else CloseSocket(c.(error := true))
  }

  function EndRead(c: Conn): Conn
    requires c.log.readOps > 0
  {
    c.(reading := false, log := c.log.(readOps := c.log.readOps - 1))
  }

  function EndWrite(c: Conn): (d: Conn)
    requires c.log.writeOps > 0
    ensures d.queue == c.queue
  {
    c.(writing := false, log := c.log.(writeOps := c.log.writeOps - 1))
  }

  function CbRead(iocp: bool, c: Conn, r: ReadResult, calls: seq<Call>): Conn
    requires c.log.readOps > 0
  {
    var d := HandleRead(iocp, EndRead(c), r, calls);
    if !d.disconnecting && !d.disconnected then StartRead(d) else d
  }

  function HandleWrite(c: Conn, r: WriteResult): Conn
    requires c.queue != [] && (r.Wrote? ==> r.n <= |c.queue[0]|)
  {
    match r
    case Wrote(n) =>
      var d := if n > 0 then Take(c, n) else c;
      if (d.disconnecting && d.queue == []) || d.aborting then CloseSocket(d) else d
    case WriteAborted => if c.disconnected then c else CloseSocket(c)
    case WriteError => if c.disconnected then c else CloseSocket(c.(error := true))
  }

  function CbWrite(iocp: bool, c: Conn, r: WriteResult, env: seq<Outcome>): Conn
    requires c.log.writeOps > 0 && c.queue != [] && (r.Wrote? ==> r.n <= |c.queue[0]|)
  {
    var d := HandleWrite(EndWrite(c), r);
    if !d.aborting && !d.disconnected && d.queue != [] then DoWrite(iocp, d, env) else d
  }

  /** A call of closeSocket posted by doClose or doAbort. */
  function RunPosted(c: Conn): Conn
    requires c.closes > 0
  {
    var d := c.(closes := c.closes - 1);
    if !d.disconnected then CloseSocket(d) else d
  }

  // ----- runs -----

  datatype Event =
    | Api(call: Call)
    | ReadDone(r: ReadResult, calls: seq<Call>)
    | WriteDone(w: WriteResult, env: seq<Outcome>)
    | Posted

  /** A completion reports an operation in flight, and an aborted one a socket that was closed. */
  predicate Enabled(c: Conn, e: Event) {
    match e
    case Api(_) => true
    case ReadDone(r, _) => c.log.readOps > 0 && (r.ReadAborted? ==> !c.open)
    case WriteDone(w, _) =>
      && c.log.writeOps > 0 && (w.WriteAborted? ==> !c.open)
      && (w.Wrote? ==> w.n <= |c.log.inflight|)
    case Posted => c.closes > 0
  }

  const FRESH: Conn :=
    Conn([], true, false, false, false, false, false, true, false, 0, [], 0, Log(false, 0, 0, [], [], []))

  /** cbAccept and cbConnect: the protocol's connectionMade, then the first read. */
  function Start(iocp: bool, calls: seq<Call>): Conn {
    var c := Calls(iocp, FRESH, calls);
    if !c.disconnecting then StartRead(c) else c
  }

  function Next(iocp: bool, c: Conn, e: Event): Conn
    requires Inv(c) && Enabled(c, e)
  {
    match e
    case Api(call) => Do(iocp, c, call)
    case ReadDone(r, calls) => CbRead(iocp, c, r, calls)
    case WriteDone(w, env) => CbWrite(iocp, c, w, env)
    case Posted => RunPosted(c)
  }

  /** No packet is empty. */
  predicate Packed(queue: seq<bytes>) { forall i :: 0 <= i < |queue| ==> queue[i] != [] }

  /** Every step keeps this. */
  ghost predicate Inv(c: Conn) {
    // the bytes the socket took, then those in the queue, are the bytes accepted
    && c.log.accepted == c.log.sent + Flatten(c.queue)
    && Packed(c.queue)
    // at most one asynchronous write and one read; the buffer being written is the front packet, untouched
    && c.log.writeOps == (if c.writing then 1 else 0) && c.log.readOps == (if c.reading then 1 else 0)
    && (c.writing ==> c.queue != [] && c.log.inflight == c.queue[0])
    // unless the connection is closing, bytes in the queue are being written
    && (c.queue != [] && !c.writing ==> c.disconnecting || c.disconnected)
    // connectionLost comes once, with the end of the connection
    && c.lost == (if c.disconnected then 1 else 0) && c.connected == !c.disconnected
    && (c.disconnected ==> !c.disconnecting && !c.aborting && !c.open)
    && (c.aborting ==> c.disconnecting) && (!c.open ==> c.disconnecting || c.disconnected)
    && (c.closes > 0 ==> (c.disconnecting && !c.reading && !c.writing) || c.disconnected) && c.closes <= 1
    && (c.aborting ==> !c.open || c.closes > 0)
    // a connection knows why it is closing, unless that is because a write took no byte
    && (!c.disconnected ==>
      && c.error == (c.disconnecting && !c.log.zero)
      && (c.log.zero ==> c.disconnecting && !c.writing))
    && (c.disconnected ==> c.error || c.log.zero)
  }

  /** Taking bytes off the front packet moves them to the socket. */
  lemma {:induction false} TakeConserves(c: Conn, n: nat)
    requires c.queue != [] && n <= |c.queue[0]|
    ensures Take(c, n).log.sent + Flatten(Take(c, n).queue) == c.log.sent + Flatten(c.queue)
    ensures Take(c, n) == c.(log := c.log.(sent := Take(c, n).log.sent), queue := Take(c, n).queue)
    ensures Packed(c.queue) ==> Packed(Take(c, n).queue)
  {
    var front, rest := c.queue[0], c.queue[1..];
    assert front == front[..n] + front[n..];
    Assoc(c.log.sent, front[..n], Flatten(Take(c, n).queue));
    if n == |front| {
      assert front[..n] == front;
    } else {
      assert ([front[n..]] + rest)[1..] == rest;
      Assoc(front[..n], front[n..], Flatten(rest));
    }
  }

  lemma {:induction false} MergeKeeps(queue: seq<bytes>)
    requires queue != [] && queue[0] != []
    ensures Flatten([Flatten(queue)]) == Flatten(queue) != []
  {
    FlattenOne(Flatten(queue));
  }

  /** The invariant of a connection about to write: as Inv, but the queue may be waiting. */
  ghost predicate Ready(c: Conn) {
    && !c.writing && c.queue != [] && !c.disconnected && !c.aborting
    && c.log.accepted == c.log.sent + Flatten(c.queue)
    && Packed(c.queue)
    && c.log.writeOps == 0 && c.log.readOps == (if c.reading then 1 else 0)
    && c.lost == 0 && c.connected
    && (!c.open ==> c.disconnecting) && c.closes == 0
    && c.error == c.disconnecting && !c.log.zero
  }

  lemma {:induction false} WriteLoopKeeps(c: Conn, env: seq<Outcome>)
    requires Ready(c)
    ensures Inv(WriteLoop(c, env))
    decreases |env|
  {
    hide Flatten, Take;
    if env != [] && env[0].Sent? {
      var n := Min(env[0].n, |c.queue[0]|);
      if n > 0 {
        TakeConserves(c, n);
        var d := Take(c, n);
        if n == |c.queue[0]| && d.queue != [] { WriteLoopKeeps(d, env[1..]); }
      }
    }
  }

  lemma {:induction false} DoWriteKeeps(iocp: bool, c: Conn, env: seq<Outcome>)
    requires Ready(c)
    ensures Inv(DoWrite(iocp, c, env))
  {
    hide Flatten, WriteLoop;
    if iocp { MergeKeeps(c.queue); } else { WriteLoopKeeps(c, env); }
  }

  lemma {:induction false} DoKeeps(iocp: bool, c: Conn, call: Call)
    requires Inv(c)
    ensures Inv(Do(iocp, c, call))
  {
    hide Flatten, DoWrite;
    if call.CallWrite? && !Refuses(c) && call.data != [] {
      FlattenLast(c.queue, call.data);
      Assoc(c.log.sent, Flatten(c.queue), call.data);
      var d := c.(queue := c.queue + [call.data], log := c.log.(accepted := c.log.accepted + call.data));
      if !d.writing { DoWriteKeeps(iocp, d, call.env); }
    }
  }

  lemma {:induction false} CallsKeep(iocp: bool, c: Conn, calls: seq<Call>)
    requires Inv(c)
    ensures Inv(Calls(iocp, c, calls))
    decreases |calls|
  {
    hide Do, Inv;
    if calls != [] {
      DoKeeps(iocp, c, calls[0]);
      CallsKeep(iocp, Do(iocp, c, calls[0]), calls[1..]);
    }
  }

  lemma {:induction false} CbReadKeeps(iocp: bool, c: Conn, r: ReadResult, calls: seq<Call>)
    requires Inv(c) && c.log.readOps > 0 && (r.ReadAborted? ==> !c.open)
    ensures Inv(CbRead(iocp, c, r, calls))
  {
    hide Flatten, Calls;
    var c1 := EndRead(c);
    if r.ReadData? && !c.disconnecting {
      var d := c1.(delivered := c1.delivered + [r.data]);
      CallsKeep(iocp, d, calls);
    }
  }

  lemma {:induction false} CbWriteKeeps(iocp: bool, c: Conn, w: WriteResult, env: seq<Outcome>)
    requires Inv(c) && c.log.writeOps > 0 && (w.Wrote? ==> w.n <= |c.log.inflight|) && (w.WriteAborted? ==> !c.open)
    ensures Inv(CbWrite(iocp, c, w, env))
  {
    hide Flatten, DoWrite, Take;
    var c1 := EndWrite(c);
    if w.Wrote? && w.n > 0 { TakeConserves(c1, w.n); }
    var d := HandleWrite(c1, w);
    if !d.aborting && !d.disconnected && d.queue != [] { DoWriteKeeps(iocp, d, env); }
  }

  lemma {:induction false} NextKeeps(iocp: bool, c: Conn, e: Event)
    requires Inv(c) && Enabled(c, e)
    ensures Inv(Next(iocp, c, e))
  {
    hide Do, CbRead, CbWrite, Flatten;
    match e
    case Api(call) => DoKeeps(iocp, c, call);
    case ReadDone(r, calls) => CbReadKeeps(iocp, c, r, calls);
    case WriteDone(w, env) => CbWriteKeeps(iocp, c, w, env);
    case Posted =>
  }

  lemma {:induction false} StartKeeps(iocp: bool, calls: seq<Call>)
    ensures Inv(Start(iocp, calls))
  {
    hide Calls;
    CallsKeep(iocp, FRESH, calls);
  }

  /** Events that can happen one after the other. */
  ghost predicate Feasible(iocp: bool, c: Conn, events: seq<Event>)
    requires Inv(c)
    decreases |events|
  {
    events == []
    || (Enabled(c, events[0])
        && (NextKeeps(iocp, c, events[0]); Feasible(iocp, Next(iocp, c, events[0]), events[1..])))
  }

  /** The connection after them. */
  ghost function From(iocp: bool, c: Conn, events: seq<Event>): (d: Conn)
    requires Inv(c) && Feasible(iocp, c, events)
    ensures Inv(d)
    decreases |events|
  {
    if events == [] then c
    else
      NextKeeps(iocp, c, events[0]);
      From(iocp, Next(iocp, c, events[0]), events[1..])
  }

  /** The whole life of a connection. */
  ghost predicate Possible(iocp: bool, calls: seq<Call>, events: seq<Event>) {
    StartKeeps(iocp, calls);
    Feasible(iocp, Start(iocp, calls), events)
  }

  ghost function After(iocp: bool, calls: seq<Call>, events: seq<Event>): (c: Conn)
    requires Possible(iocp, calls, events)
    ensures Inv(c)
  {
    StartKeeps(iocp, calls);
    From(iocp, Start(iocp, calls), events)
  }

  // ----- what was given, sent and received -----

  /** What a call gives to a connection: the data of a write, while the connection is up and not closing. */
  function GivenBy(c: Conn, call: Call): bytes {
    if call.CallWrite? && c.connected && !c.disconnecting && !c.disconnected then call.data else []
  }

  function GivenByCalls(iocp: bool, c: Conn, calls: seq<Call>): bytes
    decreases |calls|
  {
    if calls == [] then [] else GivenBy(c, calls[0]) + GivenByCalls(iocp, Do(iocp, c, calls[0]), calls[1..])
  }

  /** What a read has brought, if it is handed to the protocol. */
  function ReadBy(c: Conn, e: Event): seq<bytes> {
    if e.ReadDone? && e.r.ReadData? && !c.disconnecting then [e.r.data] else []
  }

  function GivenByEvent(iocp: bool, c: Conn, e: Event): bytes
    requires Enabled(c, e)
  {
    match e
    case Api(call) => GivenBy(c, call)
    case ReadDone(_, calls) =>
      if ReadBy(c, e) == [] then []
      else GivenByCalls(iocp, EndRead(c).(delivered := c.delivered + ReadBy(c, e)), calls)
    case _ => []
  }

  ghost function GivenFrom(iocp: bool, c: Conn, events: seq<Event>): bytes
    requires Inv(c) && Feasible(iocp, c, events)
    decreases |events|
  {
    if events == [] then []
    else
      NextKeeps(iocp, c, events[0]);
      GivenByEvent(iocp, c, events[0]) + GivenFrom(iocp, Next(iocp, c, events[0]), events[1..])
  }

  ghost function ReadFrom(iocp: bool, c: Conn, events: seq<Event>): seq<bytes>
    requires Inv(c) && Feasible(iocp, c, events)
    decreases |events|
  {
    if events == [] then []
    else
      NextKeeps(iocp, c, events[0]);
      ReadBy(c, events[0]) + ReadFrom(iocp, Next(iocp, c, events[0]), events[1..])
  }

  /** The data of all the writes of a run, in order. */
  ghost function Given(iocp: bool, calls: seq<Call>, events: seq<Event>): bytes
    requires Possible(iocp, calls, events)
  {
    StartKeeps(iocp, calls);
    GivenByCalls(iocp, FRESH, calls) + GivenFrom(iocp, Start(iocp, calls), events)
  }

  /** The data of all the reads of a run that the protocol had to get. */
  ghost function Received(iocp: bool, calls: seq<Call>, events: seq<Event>): seq<bytes>
    requires Possible(iocp, calls, events)
  {
    StartKeeps(iocp, calls);
    ReadFrom(iocp, Start(iocp, calls), events)
  }

  /** After a call, what was sent and what waits are what was sent and what waited before, then the data given. */
  lemma {:induction false} DoGives(iocp: bool, c: Conn, call: Call)
    requires Inv(c)
    ensures var d := Do(iocp, c, call);
      && d.log.sent + Flatten(d.queue) == c.log.sent + Flatten(c.queue) + GivenBy(c, call)
      && d.delivered == c.delivered
  {
    hide Flatten, DoWrite, Packed;
    DoKeeps(iocp, c, call);
    assert c.log.accepted + [] == c.log.accepted;
  }

  lemma {:induction false} CallsGive(iocp: bool, c: Conn, calls: seq<Call>)
    requires Inv(c)
    ensures var d := Calls(iocp, c, calls);
      && d.log.sent + Flatten(d.queue) == c.log.sent + Flatten(c.queue) + GivenByCalls(iocp, c, calls)
      && d.delivered == c.delivered
    decreases |calls|
  {
    hide Do, Inv, Flatten, GivenBy;
    if calls == [] {
      assert c.log.sent + Flatten(c.queue) + [] == c.log.sent + Flatten(c.queue);
    } else {
      DoKeeps(iocp, c, calls[0]);
      DoGives(iocp, c, calls[0]);
      CallsGive(iocp, Do(iocp, c, calls[0]), calls[1..]);
      Assoc(c.log.sent + Flatten(c.queue), GivenBy(c, calls[0]), GivenByCalls(iocp, Do(iocp, c, calls[0]), calls[1..]));
    }
  }

  lemma {:induction false} CbReadGives(iocp: bool, c: Conn, r: ReadResult, calls: seq<Call>)
    requires Inv(c) && Enabled(c, ReadDone(r, calls))
    ensures var d, e := CbRead(iocp, c, r, calls), ReadDone(r, calls);
      && d.log.sent + Flatten(d.queue) == c.log.sent + Flatten(c.queue) + GivenByEvent(iocp, c, e)
      && d.delivered == c.delivered + ReadBy(c, e)
  {
    hide Flatten, Calls, GivenByCalls;
    assert c.log.sent + Flatten(c.queue) + [] == c.log.sent + Flatten(c.queue) && c.delivered + [] == c.delivered;
    if r.ReadData? && !c.disconnecting {
      CallsGive(iocp, EndRead(c).(delivered := c.delivered + [r.data]), calls);
    }
  }

  lemma {:induction false} CbWriteGives(iocp: bool, c: Conn, w: WriteResult, env: seq<Outcome>)
    requires Inv(c) && Enabled(c, WriteDone(w, env))
    ensures var d := CbWrite(iocp, c, w, env);
      d.log.sent + Flatten(d.queue) == c.log.sent + Flatten(c.queue) && d.delivered == c.delivered
  {
    hide Flatten, DoWrite, Shorter, Packed;
    CbWriteKeeps(iocp, c, w, env);
  }

  /** One event: nothing is lost, repeated or reordered in either direction. */
  lemma {:induction false} NextGives(iocp: bool, c: Conn, e: Event)
    requires Inv(c) && Enabled(c, e)
    ensures var d := Next(iocp, c, e);
      && d.log.sent + Flatten(d.queue) == c.log.sent + Flatten(c.queue) + GivenByEvent(iocp, c, e)
      && d.delivered == c.delivered + ReadBy(c, e)
  {
    hide Do, CbRead, CbWrite, Flatten, Inv, GivenBy;
    assert c.log.sent + Flatten(c.queue) + [] == c.log.sent + Flatten(c.queue) && c.delivered + [] == c.delivered;
    match e
    case Api(call) => DoGives(iocp, c, call);
    case ReadDone(r, calls) => CbReadGives(iocp, c, r, calls);
    case WriteDone(w, env) => CbWriteGives(iocp, c, w, env);
    case Posted =>
  }

  lemma {:induction false} FromGives(iocp: bool, c: Conn, events: seq<Event>)
    requires Inv(c) && Feasible(iocp, c, events)
    ensures var d := From(iocp, c, events);
      && d.log.sent + Flatten(d.queue) == c.log.sent + Flatten(c.queue) + GivenFrom(iocp, c, events)
      && d.delivered == c.delivered + ReadFrom(iocp, c, events)
    decreases |events|
  {
    hide Inv, Enabled, Next, Flatten, GivenByEvent, ReadBy;
    if events == [] {
      assert c.log.sent + Flatten(c.queue) + [] == c.log.sent + Flatten(c.queue) && c.delivered + [] == c.delivered;
    } else {
      var d := Next(iocp, c, events[0]);
      NextKeeps(iocp, c, events[0]);
      NextGives(iocp, c, events[0]);
      FromGives(iocp, d, events[1..]);
      Assoc(c.log.sent + Flatten(c.queue), GivenByEvent(iocp, c, events[0]), GivenFrom(iocp, d, events[1..]));
      Assoc(c.delivered, ReadBy(c, events[0]), ReadFrom(iocp, d, events[1..]));
    }
  }

  /** Reading goes on until a close is asked for or the connection ends. */
  predicate Reads(c: Conn) { !c.disconnecting && !c.disconnected ==> c.reading }

  lemma {:induction false} FromReads(iocp: bool, c: Conn, events: seq<Event>)
    requires Inv(c) && Feasible(iocp, c, events) && Reads(c)
    ensures Reads(From(iocp, c, events))
    decreases |events|
  {
    hide Inv, Enabled, Next, Reads;
    if events != [] {
      NextKeeps(iocp, c, events[0]);
      NextReads(iocp, c, events[0]);
      FromReads(iocp, Next(iocp, c, events[0]), events[1..]);
    }
  }

  lemma {:induction false} NextReads(iocp: bool, c: Conn, e: Event)
    requires Inv(c) && Enabled(c, e) && Reads(c)
    ensures Reads(Next(iocp, c, e))
  {
    hide Flatten, DoWrite, Calls, Shorter, Packed;
  }

  /** Whatever the socket does and whenever the protocol writes or closes: what the socket took, then what waits, is
      exactly what the protocol gave, in order; the protocol got exactly what was read while no close was asked
      for; no two writes overlap; a connection that is not closing is reading; and connectionLost is delivered
      once, when the connection has ended, with a reason unless a write took no byte. */
  lemma {:induction false} EveryRun(iocp: bool, calls: seq<Call>, events: seq<Event>)
    requires Possible(iocp, calls, events)
    ensures var c := After(iocp, calls, events);
      && c.log.sent + Flatten(c.queue) == Given(iocp, calls, events)
      && c.delivered == Received(iocp, calls, events)
      && c.log.writeOps <= 1 && c.log.readOps <= 1
      && (!c.disconnecting && !c.disconnected ==> c.reading)
      && c.lost == (if c.disconnected then 1 else 0) && (c.disconnected ==> c.error || c.log.zero)
  {
    hide Flatten, Calls, Feasible, From, GivenFrom, ReadFrom, GivenByCalls;
    StartKeeps(iocp, calls);
    NoBytes();
    CallsGive(iocp, FRESH, calls);
    var c, given := Start(iocp, calls), GivenByCalls(iocp, FRESH, calls);
    assert [] + given == given;
    FromGives(iocp, c, events);
    FromReads(iocp, c, events);
    assert [] + ReadFrom(iocp, c, events) == ReadFrom(iocp, c, events);
  }

  lemma {:induction false} NoBytes()
    ensures Inv(FRESH) && [] + Flatten([]) == []
  {
  }

  // ----- a close that was asked for politely -----

  /** No write fails or takes no byte. */
  predicate SmoothWrites(env: seq<Outcome>) { forall i :: 0 <= i < |env| ==> !env[i].Failed? && env[i] != Sent(0) }

  predicate SmoothCall(call: Call) { !call.CallAbort? && (call.CallWrite? ==> SmoothWrites(call.env)) }

  predicate SmoothCalls(calls: seq<Call>) { forall i :: 0 <= i < |calls| ==> SmoothCall(calls[i]) }

  /** Nothing goes wrong on the network, and the protocol does not abort. */
  predicate Smooth(e: Event) {
    match e
    case Api(call) => SmoothCall(call)
    case ReadDone(r, calls) => r.ReadData? && SmoothCalls(calls)
    case WriteDone(w, env) => w.Wrote? && SmoothWrites(env)
    case Posted => true
  }

  /** What waits is being written. */
  predicate Flowing(c: Conn) {
    !c.aborting && (c.queue != [] ==> c.writing && !c.disconnected) && (c.writing ==> c.open)
  }

  lemma {:induction false} WriteLoopFlows(c: Conn, env: seq<Outcome>)
    requires c.queue != [] && Packed(c.queue) && SmoothWrites(env) && !c.aborting && !c.disconnected && c.open
    ensures Flowing(WriteLoop(c, env))
    decreases |env|
  {
    hide Flatten, Shorter, GiveUp, NoteError, NoteZero;
    if env != [] && env[0].Sent? {
      var n := Min(env[0].n, |c.queue[0]|);
      assert n > 0 by { PacketNotEmpty(c.queue); }
      TakeConserves(c, n);
      if n == |c.queue[0]| && Take(c, n).queue != [] { WriteLoopFlows(Take(c, n), env[1..]); }
    }
  }

  lemma {:induction false} DoWriteFlows(iocp: bool, c: Conn, env: seq<Outcome>)
    requires c.queue != [] && Packed(c.queue) && SmoothWrites(env) && !c.aborting && !c.disconnected && c.open
    ensures Flowing(DoWrite(iocp, c, env))
  {
    hide Flatten, WriteLoop;
    if !iocp { WriteLoopFlows(c, env); }
  }

  lemma {:induction false} DoFlows(iocp: bool, c: Conn, call: Call)
    requires Inv(c) && Flowing(c) && SmoothCall(call)
    ensures Flowing(Do(iocp, c, call))
  {
    hide Flatten, DoWrite;
    if call.CallWrite? && !Refuses(c) && call.data != [] && !c.writing {
      DoWriteFlows(iocp, c.(queue := c.queue + [call.data], log := c.log.(accepted := c.log.accepted + call.data)),
        call.env);
    }
  }

  lemma {:induction false} CallsFlow(iocp: bool, c: Conn, calls: seq<Call>)
    requires Inv(c) && Flowing(c) && SmoothCalls(calls)
    ensures Flowing(Calls(iocp, c, calls))
    decreases |calls|
  {
    hide Do, Inv, Flowing, SmoothCall;
    if calls != [] {
      DoKeeps(iocp, c, calls[0]);
      DoFlows(iocp, c, calls[0]);
      CallsFlow(iocp, Do(iocp, c, calls[0]), calls[1..]);
    }
  }

  lemma {:induction false} NextFlows(iocp: bool, c: Conn, e: Event)
    requires Inv(c) && Enabled(c, e) && Flowing(c) && Smooth(e)
    ensures Flowing(Next(iocp, c, e))
  {
    hide Do, Flatten, DoWrite, Calls, Shorter;
    match e
    case Api(call) => DoFlows(iocp, c, call);
    case ReadDone(r, calls) =>
      if !c.disconnecting { CallsFlow(iocp, EndRead(c).(delivered := c.delivered + [r.data]), calls); }
    case WriteDone(w, env) =>
      TakeConserves(EndWrite(c), w.n);
      var d := HandleWrite(EndWrite(c), w);
      if !d.disconnected && d.queue != [] { DoWriteFlows(iocp, d, env); }
    case Posted =>
  }

  lemma {:induction false} FromFlows(iocp: bool, c: Conn, events: seq<Event>)
    requires Inv(c) && Feasible(iocp, c, events) && Flowing(c)
    requires forall i :: 0 <= i < |events| ==> Smooth(events[i])
    ensures Flowing(From(iocp, c, events))
    decreases |events|
  {
    hide Inv, Enabled, Next, Flowing, Smooth;
    if events != [] {
      NextKeeps(iocp, c, events[0]);
      NextFlows(iocp, c, events[0]);
      FromFlows(iocp, Next(iocp, c, events[0]), events[1..]);
    }
  }

  /** When nothing goes wrong on the network and the protocol closes, if at all, with loseConnection: the socket stays
      open while a write is in flight, and once the connection is closed, it has taken every byte that was given. */
  lemma {:induction false} PoliteCloseLosesNothing(iocp: bool, calls: seq<Call>, events: seq<Event>)
    requires Possible(iocp, calls, events)
    requires SmoothCalls(calls) && forall i :: 0 <= i < |events| ==> Smooth(events[i])
    ensures var c := After(iocp, calls, events);
      (c.writing ==> c.open) && (c.disconnected ==> c.log.sent == Given(iocp, calls, events))
  {
    hide Calls, Given, Smooth, SmoothCall, Feasible, From, Flatten;
    StartKeeps(iocp, calls);
    NoBytes();
    CallsFlow(iocp, FRESH, calls);
    FromFlows(iocp, Start(iocp, calls), events);
    EveryRun(iocp, calls, events);
    var c := After(iocp, calls, events);
    if c.disconnected { NothingWaits(c); }
  }

  lemma {:induction false} Nothing(iocp: bool, c: Conn)
    requires Inv(c)
    ensures Feasible(iocp, c, []) && From(iocp, c, []) == c
  {
  }

  lemma {:induction false} Then(iocp: bool, c: Conn, e: Event, events: seq<Event>)
    requires Inv(c) && Enabled(c, e) && Inv(Next(iocp, c, e)) && Feasible(iocp, Next(iocp, c, e), events)
    ensures Feasible(iocp, c, [e] + events) && From(iocp, c, [e] + events) == From(iocp, Next(iocp, c, e), events)
  {
    hide Inv, Enabled, Next;
    assert ([e] + events)[1..] == events;
  }

  /** The connection ends with a posted call of closeSocket, with a read that brings no data, with a write that fails,
      with any completed write once it was aborted, and with the write that empties the queue once a close was asked
      for; the protocol is told. */
  lemma {:induction false} CompletionsThatClose(iocp: bool, c: Conn, e: Event)
    requires Inv(c) && Enabled(c, e) && !c.disconnected
    requires
      || e.Posted?
      || (e.ReadDone? && !e.r.ReadData?)
      || (e.WriteDone? && (!e.w.Wrote? || c.aborting || (c.disconnecting && |c.queue| == 1 && e.w.n == |c.queue[0]|)))
    ensures var d := Next(iocp, c, e);
      && d.disconnected && !d.connected && !d.open && d.lost == c.lost + 1
      && d.closes == c.closes - if e.Posted? then 1 else 0
  {
    hide Flatten, DoWrite, Packed;
    if e.WriteDone? { PacketNotEmpty(c.queue); }
  }

  // ----- after the loss -----

  /** Once connectionLost was delivered, data can still be delivered if and only if a read is in flight. */
  lemma {:induction false} DataAfterLoss(iocp: bool, c: Conn)
    requires Inv(c) && c.disconnected
    ensures (exists e :: Enabled(c, e) && Next(iocp, c, e).delivered != c.delivered) <==> c.reading
    ensures c.reading ==> forall data: bytes ::
      var e := ReadDone(ReadData(data), []); Enabled(c, e) && Next(iocp, c, e).delivered == c.delivered + [data]
  {
    hide Flatten, WriteLoop, Packed, Shorter;
    if c.reading {
      var e := ReadDone(ReadData([]), []);
      assert Enabled(c, e) && Next(iocp, c, e).delivered == c.delivered + [[]];
      assert (c.delivered + [[]])[|c.delivered|..] == [[]];
    }
  }

  /** And that happens: a write fails while a read is in flight. */
  lemma {:induction false} LossWithReadInFlight(iocp: bool, b: bytes)
    requires b != []
    ensures exists events ::
      Possible(iocp, [], events) && var c := After(iocp, [], events); c.lost == 1 && c.reading
  {
    hide Feasible, From, Inv;
    StartKeeps(iocp, []);
    var c0 := Start(iocp, []);
    assert c0.queue + [b] == [b];
    var e1, e2 := Api(CallWrite(b, [])), WriteDone(WriteError, []);
    NextKeeps(iocp, c0, e1);
    var c1 := Next(iocp, c0, e1);
    NextKeeps(iocp, c1, e2);
    var c2 := Next(iocp, c1, e2);
    assert Feasible(iocp, c2, []) && From(iocp, c2, []) == c2 by { Nothing(iocp, c2); }
    Then(iocp, c1, e2, []);
    Then(iocp, c0, e1, [e2] + []);
    assert c2.lost == 1 && c2.reading;
    assert Possible(iocp, [], [e1] + ([e2] + []));
  }

  // ----- the reason of a close -----

  predicate Aborted(e: Event) { (e.ReadDone? && e.r.ReadAborted?) || (e.WriteDone? && e.w.WriteAborted?) }

  /** handleRead and handleWrite assert that an aborted operation has a reason. */
  predicate Asserts(c: Conn, e: Event) { Aborted(e) && !c.disconnected ==> c.error }

  /** The assertion holds if and only if no write took no byte before a close was asked for. */
  lemma {:induction false} AssertionHolds(iocp: bool, calls: seq<Call>, events: seq<Event>, e: Event)
    requires Possible(iocp, calls, events)
    requires var c := After(iocp, calls, events); Enabled(c, e) && Aborted(e) && !c.disconnected
    ensures var c := After(iocp, calls, events); Asserts(c, e) <==> !c.log.zero
  {
    hide Possible, After;
    assert Inv(After(iocp, calls, events));
  }

  /** Any write on an idle connection that is reading makes it fail if the socket takes no byte. */
  lemma {:induction false} ZeroWriteHasNoReason(c: Conn, data: bytes, env: seq<Outcome>)
    requires Inv(c) && !Refuses(c) && c.reading && !c.writing && data != []
    requires env != [] && env[0] == Sent(0)
    ensures var d := Do(false, c, CallWrite(data, env)); var e := ReadDone(ReadAborted, []);
      Enabled(d, e) && !Asserts(d, e)
  {
    hide Flatten, Packed;
  }

  // ----- when a close can hang -----

  /** Closing, with nothing left that could end it. */
  predicate Stuck(c: Conn) {
    c.disconnecting && !c.disconnected && !c.reading && !c.writing && c.closes == 0
  }

  /** A closing connection can still be closed by some event if and only if it is not stuck, and a stuck one
      stays as it is for ever. */
  lemma {:induction false} ClosesUnlessStuck(iocp: bool, c: Conn)
    requires Inv(c) && c.disconnecting
    ensures (exists e :: Enabled(c, e) && Next(iocp, c, e).disconnected) <==> !Stuck(c)
    ensures Stuck(c) ==> forall e :: Enabled(c, e) ==> Next(iocp, c, e) == c
  {
    if c.closes > 0 {
      assert Enabled(c, Posted) && Next(iocp, c, Posted).disconnected;
    } else if c.reading {
      var e := ReadDone(ReadEof, []);
      assert Enabled(c, e) && Next(iocp, c, e).disconnected;
    } else if c.writing {
      var e := WriteDone(WriteError, []);
      assert Enabled(c, e) && Next(iocp, c, e).disconnected;
    }
  }

  /** Some run from here ends stuck. */
  ghost predicate CanHang(iocp: bool, c: Conn) {
    Inv(c) && exists events :: Feasible(iocp, c, events) && Stuck(From(iocp, c, events))
  }

  lemma {:induction false} HangsAfter(iocp: bool, c: Conn, e: Event)
    requires Inv(c) && Enabled(c, e) && Inv(Next(iocp, c, e)) && CanHang(iocp, Next(iocp, c, e))
    ensures CanHang(iocp, c)
  {
    hide Inv, Enabled, Next, Feasible, From, Stuck;
    var events :| Feasible(iocp, Next(iocp, c, e), events) && Stuck(From(iocp, Next(iocp, c, e), events));
    Then(iocp, c, e, events);
  }

  lemma {:induction false} StuckHangs(iocp: bool, c: Conn)
    requires Inv(c) && Stuck(c)
    ensures CanHang(iocp, c)
  {
    hide Inv, Stuck;
    assert Feasible(iocp, c, []) && From(iocp, c, []) == c;
  }

  /** Closed, or closing with an event to come that will close it. */
  predicate Safe(iocp: bool, c: Conn) {
    c.disconnected || (c.disconnecting && (c.closes > 0 || (c.writing && (iocp || c.aborting))))
  }

  lemma {:induction false} CallsRefused(iocp: bool, c: Conn, calls: seq<Call>)
    requires Refuses(c)
    ensures Calls(iocp, c, calls) == c
    decreases |calls|
  {
    if calls != [] { CallsRefused(iocp, c, calls[1..]); }
  }

  lemma {:induction false} SafeStays(iocp: bool, c: Conn, e: Event)
    requires Inv(c) && Enabled(c, e) && Safe(iocp, c)
    ensures Safe(iocp, Next(iocp, c, e))
  {
    hide Flatten, Shorter, Calls, WriteLoop, Packed;
    match e
    case Api(_) =>
    case ReadDone(r, calls) =>
      if r.ReadData? && !c.disconnecting {
        CallsRefused(iocp, EndRead(c).(delivered := c.delivered + [r.data]), calls);
      }
    case WriteDone(w, env) =>
    case Posted =>
  }

  lemma {:induction false} SafeNeverHangs(iocp: bool, c: Conn, events: seq<Event>)
    requires Inv(c) && Safe(iocp, c) && Feasible(iocp, c, events)
    ensures !Stuck(From(iocp, c, events))
    decreases |events|
  {
    hide Inv, Next, Enabled;
    if events != [] {
      NextKeeps(iocp, c, events[0]);
      SafeStays(iocp, c, events[0]);
      SafeNeverHangs(iocp, Next(iocp, c, events[0]), events[1..]);
    } else {
      assert Inv(c);
    }
  }

  /** The socket takes each packet whole. */
  function Whole(queue: seq<bytes>): (env: seq<Outcome>)
    ensures |env| == |queue|
  {
    if queue == [] then [] else [Sent(|queue[0]|)] + Whole(queue[1..])
  }

  lemma {:induction false} WriteLoopDrains(c: Conn)
    requires c.queue != [] && Packed(c.queue)
    ensures var d := WriteLoop(c, Whole(c.queue)); d == c.(queue := [], log := d.log)
    decreases |c.queue|
  {
    hide Flatten, StartAsync, GiveUp, Packed;
    var n := |c.queue[0]|;
    TakeConserves(c, n);
    assert n > 0 by { PacketNotEmpty(c.queue); }
    var d := Take(c, n);
    assert Whole(c.queue)[1..] == Whole(d.queue);
    if d.queue != [] { WriteLoopDrains(d); }
  }

  lemma {:induction false} PacketNotEmpty(queue: seq<bytes>)
    requires Packed(queue) && queue != []
    ensures queue[0] != []
  {
  }

  /** Synchronous writes that drain the queue of a closing connection return without closing it. */
  lemma {:induction false} DrainForgetsToClose(c: Conn)
    requires Inv(c) && c.disconnecting && !c.aborting && c.writing
    ensures var e := WriteDone(Wrote(0), Whole(c.queue));
      && Enabled(c, e)
      && var d := Next(false, c, e);
      Inv(d) && d.log.sent == d.log.accepted && d == c.(queue := [], writing := false, log := d.log)
  {
    hide Flatten, WriteLoop, Packed;
    var e := WriteDone(Wrote(0), Whole(c.queue));
    NextKeeps(false, c, e);
    WriteLoopDrains(EndWrite(c));
    assert c.log.sent + [] == c.log.sent;
    NothingWaits(Next(false, c, e));
  }

  lemma {:induction false} NothingWaits(c: Conn)
    requires Inv(c) && c.queue == []
    ensures c.log.sent == c.log.accepted
  {
    assert c.log.sent + [] == c.log.sent;
  }

  lemma {:induction false} UnsafeIdleHangs(iocp: bool, c: Conn)
    requires Inv(c) && c.disconnecting && !Safe(iocp, c) && !c.reading
    ensures CanHang(iocp, c)
  {
    hide Flatten, WriteLoop, Packed, CanHang;
    if c.writing {
      var e := WriteDone(Wrote(0), Whole(c.queue));
      DrainForgetsToClose(c);
      StuckHangs(iocp, Next(iocp, c, e));
      HangsAfter(iocp, c, e);
    } else {
      StuckHangs(iocp, c);
    }
  }

  lemma {:induction false} UnsafeHangs(iocp: bool, c: Conn)
    requires Inv(c) && c.disconnecting && !Safe(iocp, c)
    ensures CanHang(iocp, c)
  {
    hide Flatten, WriteLoop, Packed, CanHang;
    if c.reading {
      var e := ReadDone(ReadData([]), []);
      assert Enabled(c, e) && Next(iocp, c, e) == EndRead(c);
      UnsafeIdleHangs(iocp, EndRead(c));
      HangsAfter(iocp, c, e);
    } else {
      UnsafeIdleHangs(iocp, c);
    }
  }

  /** A closing connection can hang unless a call of closeSocket is posted, or the write in flight is one
      whose completion will not be followed by synchronous writes. */
  lemma {:induction false} HangsExactly(iocp: bool, c: Conn)
    requires Inv(c) && c.disconnecting
    ensures CanHang(iocp, c) <==> c.closes == 0 && !(c.writing && (iocp || c.aborting))
  {
    hide Feasible, From;
    if Safe(iocp, c) {
      forall events | Feasible(iocp, c, events) ensures !Stuck(From(iocp, c, events)) {
        SafeNeverHangs(iocp, c, events);
      }
    } else {
      UnsafeHangs(iocp, c);
    }
  }

  /** After loseConnection some run hangs if and only if, at the call, only a read was in flight, or a write
      that is followed by synchronous ones. */
  lemma {:induction false} LoseCanHang(iocp: bool, c: Conn)
    requires Inv(c) && !Refuses(c)
    ensures Inv(LoseConnection(c)) && (LoseConnection(c).open <==> c.writing || !c.reading)
    ensures CanHang(iocp, LoseConnection(c)) <==> (c.reading && !c.writing) || (c.writing && !iocp)
  {
    hide CanHang, Flatten, Packed;
    HangsExactly(iocp, LoseConnection(c));
  }

  /** After abortConnection, if and only if only a read was in flight. */
  lemma {:induction false} AbortCanHang(iocp: bool, c: Conn)
    requires Inv(c) && !Refuses(c)
    ensures Inv(AbortConnection(c)) && (AbortConnection(c).open <==> !c.writing && !c.reading)
    ensures CanHang(iocp, AbortConnection(c)) <==> c.reading && !c.writing
  {
    hide CanHang, Flatten, Packed;
    HangsExactly(iocp, AbortConnection(c));
  }

  /** Such runs exist: a fresh connection can hang when it is closed. */
  lemma {:induction false} CloseCanHang(iocp: bool)
    ensures exists events :: Possible(iocp, [], events) && Stuck(After(iocp, [], events))
  {
    hide Feasible, From, Stuck, Inv;
    StartKeeps(iocp, []);
    var c := Start(iocp, []);
    LoseCanHang(iocp, c);
    HangsAfter(iocp, c, Api(CallLose));
    var events :| Feasible(iocp, c, events) && Stuck(From(iocp, c, events));
    assert Possible(iocp, [], events) && Stuck(After(iocp, [], events));
  }
}
