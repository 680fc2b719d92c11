/**
  TCPConnection of src/net4cxx/core/network/tcp.{h,cpp} with its fields: each method does what the machine of
  TcpMachine says. And the merging of the write queue in src/net4cxx/core/network/ssl.cpp, on the buffers.
*/
module TcpConnections {
  import opened Basics
  import opened TcpMachine
  import M = TcpMachine
  import opened MessageBuffers

  class TCPConnection {
    const iocp: bool
    var writeQueue: seq<bytes>
    var connected: bool
    var disconnected: bool
    var disconnecting: bool
    var aborting: bool
    var reading: bool
    var writing: bool
    var open: bool
    var error: bool
    var closes: nat
    var delivered: seq<bytes>
    var lost: nat
    ghost var log: Log

    ghost function View(): Conn
      reads this
    {
      Conn(writeQueue, connected, disconnected, disconnecting, aborting, reading, writing, open, error,
           closes, delivered, lost, log)
    }

    constructor (iocp: bool)
      ensures this.iocp == iocp && View() == FRESH
    {
      this.iocp := iocp;
      writeQueue, connected, disconnected, disconnecting, aborting := [], true, false, false, false;
      reading, writing, open, error := false, false, true, false;
      closes, delivered, lost, log := 0, [], 0, FRESH.log;
    }

    method PostClose()
      modifies `closes
      ensures closes == old(closes) + 1
    {
      closes := closes + 1;
    }

    method DoClose()
      modifies `closes, `open
      ensures View() == M.DoClose(old(View()))
    {
      if !writing && !reading {
        PostClose();
      } else if !writing {
        open := false;
      }
    }

    method DoAbort()
      modifies `closes, `open
      ensures View() == M.DoAbort(old(View()))
    {
      if !writing && !reading {
        PostClose();
      } else {
        open := false;
      }
    }

    method CloseSocket()
      modifies `connected, `disconnected, `disconnecting, `aborting, `open, `lost
      ensures View() == M.CloseSocket(old(View()))
    {
      connected := false;
      disconnected := true;
      disconnecting := false;
      aborting := false;
      open := false;
      lost := lost + 1;
    }

    method DoRead()
      modifies `reading, `log
      ensures View() == M.StartRead(old(View()))
    {
      reading := true;
      log := log.(readOps := log.readOps + 1);
    }

    method StartAsync()
      requires writeQueue != []
      modifies `writing, `log
      ensures View() == M.StartAsync(old(View()))
    {
      writing := true;
      log := log.(writeOps := log.writeOps + 1, inflight := writeQueue[0]);
    }

    /** The socket has taken n bytes of the front packet. */
    method ReadCompleted(n: nat)
      requires writeQueue != [] && n <= |writeQueue[0]|
      modifies `log, `writeQueue
      ensures View() == M.Take(old(View()), n)
    {
      log := log.(sent := log.sent + writeQueue[0][..n]);
      if n == |writeQueue[0]| {
        writeQueue := writeQueue[1..];
      } else {
        writeQueue := [writeQueue[0][n..]] + writeQueue[1..];
      }
    }

    method DoWrite(env: seq<Outcome>)
      requires writeQueue != []
      modifies this
      ensures View() == M.DoWrite(iocp, old(View()), env)
    {
      if iocp {
        writeQueue := [Flatten(writeQueue)];
        StartAsync();
      } else {
        SyncWrite(env);
      }
    }

    /** The loop of synchronous writes. */
    method SyncWrite(env: seq<Outcome>)
      requires writeQueue != []
      modifies this
      ensures View() == M.WriteLoop(old(View()), env)
    {
      hide M.Take, M.StartAsync, M.GiveUp, M.NoteZero, M.NoteError;
      var k := 0;
      while true
        invariant 0 <= k <= |env| && writeQueue != []
        invariant M.WriteLoop(View(), env[k..]) == M.WriteLoop(old(View()), env)
        decreases |env| - k
      {
        if k == |env| || env[k].WouldBlock? {
          break;
        }
        if env[k].Failed? {
          NoteError();
          GiveUp();
          return;
        }
        var bytesToSend := |writeQueue[0]|;
        var bytesSent := Min(env[k].n, bytesToSend);
        k := k + 1;
        if bytesSent == 0 {
          NoteZero();
          GiveUp();
          return;
        } else if bytesSent < bytesToSend {
          ReadCompleted(bytesSent);
          break;
        }
        ReadCompleted(bytesSent);
        if writeQueue == [] {
          return;
        }
      }
      StartAsync();
    }

    method NoteError()
      modifies `error
      ensures View() == M.NoteError(old(View()))
    {
      error := true;
    }

    method NoteZero()
      modifies `log
      ensures View() == M.NoteZero(old(View()))
    {
      log := log.(zero := log.zero || !disconnecting);
    }

    method GiveUp()
      modifies `closes, `open, `disconnecting
      ensures View() == M.GiveUp(old(View()))
    {
      disconnecting := true;
      DoClose();
    }

    method Write(data: bytes, env: seq<Outcome>)
      modifies this
      ensures View() == M.Write(iocp, old(View()), data, env)
    {
      if disconnecting || disconnected || !connected {
        return;
      }
      if |data| == 0 {
        return;
      }
      writeQueue := writeQueue + [data];
      log := log.(accepted := log.accepted + data);
      if !writing {
        DoWrite(env);
      }
    }

    method LoseConnection()
      modifies this
      ensures View() == M.LoseConnection(old(View()))
    {
      if disconnecting || disconnected || !connected {
        return;
      }
      error := true;
      disconnecting := true;
      DoClose();
    }

    method AbortConnection()
      modifies this
      ensures View() == M.AbortConnection(old(View()))
    {
      if disconnecting || disconnected || !connected {
        return;
      }
      error := true;
      disconnecting := true;
      aborting := true;
      DoAbort();
    }

    method CallAll(calls: seq<Call>)
      modifies this
      ensures View() == M.Calls(iocp, old(View()), calls)
    {
      for i := 0 to |calls|
        invariant M.Calls(iocp, View(), calls[i..]) == M.Calls(iocp, old(View()), calls)
      {
        match calls[i] {
          case CallWrite(data, env) => Write(data, env);
          case CallLose => LoseConnection();
          case CallAbort => AbortConnection();
        }
      }
    }

    method HandleRead(r: ReadResult, calls: seq<Call>)
      modifies this
      ensures View() == M.HandleRead(iocp, old(View()), r, calls)
    {
      hide M.Calls, M.CloseSocket;
      match r {
        case ReadData(data) =>
          if !disconnecting {
            delivered := delivered + [data];
            CallAll(calls);
          }
        case ReadAborted =>
          if !disconnected {
            CloseSocket();
          }
        case _ =>
          if !disconnected {
            error := true;
            CloseSocket();
          }
      }
    }

    method EndRead()
      requires log.readOps > 0
      modifies `reading, `log
      ensures View() == M.EndRead(old(View()))
    {
      reading := false;
      log := log.(readOps := log.readOps - 1);
    }

    method EndWrite()
      requires log.writeOps > 0
      modifies `writing, `log
      ensures View() == M.EndWrite(old(View()))
    {
      writing := false;
      log := log.(writeOps := log.writeOps - 1);
    }

    method CbRead(r: ReadResult, calls: seq<Call>)
      requires log.readOps > 0
      modifies this
      ensures View() == M.CbRead(iocp, old(View()), r, calls)
    {
      hide M.HandleRead, M.StartRead, M.EndRead;
      EndRead();
      HandleRead(r, calls);
      if !disconnecting && !disconnected {
        DoRead();
      }
    }

    method HandleWrite(w: WriteResult)
      requires writeQueue != [] && (w.Wrote? ==> w.n <= |writeQueue[0]|)
      modifies this
      ensures View() == M.HandleWrite(old(View()), w)
    {
      hide M.Take, M.CloseSocket;
      match w {
        case Wrote(n) =>
          if n > 0 {
            ReadCompleted(n);
          }
          if (disconnecting && writeQueue == []) || aborting {
            CloseSocket();
          }
        case WriteAborted =>
          if !disconnected {
            CloseSocket();
          }
        case WriteError =>
          if !disconnected {
            error := true;
            CloseSocket();
          }
      }
    }

    method CbWrite(w: WriteResult, env: seq<Outcome>)
      requires log.writeOps > 0 && writeQueue != [] && (w.Wrote? ==> w.n <= |writeQueue[0]|)
      modifies this
      ensures View() == M.CbWrite(iocp, old(View()), w, env)
    {
      hide M.DoWrite, M.HandleWrite, M.EndWrite;
      EndWrite();
      HandleWrite(w);
      if !aborting && !disconnected && writeQueue != [] {
        DoWrite(env);
      }
    }

    method RunPosted()
      requires closes > 0
      modifies this
      ensures View() == M.RunPosted(old(View()))
    {
      closes := closes - 1;
      if !disconnected {
        CloseSocket();
      }
    }

    /** cbAccept and cbConnect. */
    method Start(calls: seq<Call>)
      requires View() == FRESH
      modifies this
      ensures View() == M.Start(iocp, calls)
    {
      hide M.Calls;
      CallAll(calls);
      if !disconnecting {
        DoRead();
      }
    }

    /** Any event that can happen, on a connection that keeps the invariant. */
    method Handle(e: Event)
      requires Inv(View()) && Enabled(View(), e)
      modifies this
      ensures View() == M.Next(iocp, old(View()), e) && Inv(View())
    {
      hide M.CbRead, M.CbWrite, M.RunPosted, M.Write, M.LoseConnection, M.AbortConnection;
      NextKeeps(iocp, View(), e);
      match e {
        case Api(CallWrite(data, env)) => Write(data, env);
        case Api(CallLose) => LoseConnection();
        case Api(CallAbort) => AbortConnection();
        case ReadDone(r, calls) => CbRead(r, calls);
        case WriteDone(w, env) => CbWrite(w, env);
        case Posted => RunPosted();
      }
    }
  }

  // ----- merging the queue into its front buffer -----

  ghost predicate Separate(queue: seq<MessageBuffer>)
    reads queue
  {
    && (forall i :: 0 <= i < |queue| ==> queue[i].Valid())
    && (forall i, j :: 0 <= i < j < |queue| ==> queue[i] != queue[j] && queue[i].storage != queue[j].storage)
  }

  /** The active bytes of the buffers. */
  ghost function Texts(queue: seq<MessageBuffer>): (t: seq<bytes>)
    requires forall i :: 0 <= i < |queue| ==> queue[i].Valid()
    reads queue, set i | 0 <= i < |queue| :: queue[i].storage
    ensures |t| == |queue| && forall i :: 0 <= i < |t| ==> t[i] == queue[i].Contents()
  {
    seq(|queue|, i requires 0 <= i < |queue|
        reads queue, set i | 0 <= i < |queue| :: queue[i].storage
      => if queue[i].Valid() then queue[i].Contents() else [])
  }

  function Total(texts: seq<bytes>): nat {
    if texts == [] then 0 else |texts[0]| + Total(texts[1..])
  }

  lemma {:induction false} JoinTakesNext(texts: seq<bytes>, i: nat)
    requires i < |texts|
    ensures Flatten(texts[..i + 1]) == Flatten(texts[..i]) + texts[i]
    ensures Total(texts[i..]) == |texts[i]| + Total(texts[i + 1..])
  {
    assert texts[..i + 1] == texts[..i] + [texts[i]];
    FlattenLast(texts[..i], texts[i]);
    assert texts[i..][1..] == texts[i + 1..];
  }

  /** A buffer apart from the front one, with its active bytes. */
  ghost predicate Waits(b: MessageBuffer, front: MessageBuffer, text: bytes)
    reads b, b.storage, front
  {
    b != front && b.storage != front.storage && b.Valid() && b.Contents() == text
  }

  /** The bytes to be taken over. */
  method SpaceNeeded(queue: seq<MessageBuffer>, ghost texts: seq<bytes>) returns (space: nat)
    requires queue != [] && |texts| == |queue|
    requires forall j :: 1 <= j < |queue| ==> Waits(queue[j], queue[0], texts[j])
    ensures space == Total(texts[1..])
  {
    hide Total;
    NothingTaken(texts);
    space := 0;
    for i := 1 to |queue|
      modifies {}
      invariant space + Total(texts[i..]) == Total(texts[1..])
    {
      JoinTakesNext(texts, i);
      assert Waits(queue[i], queue[0], texts[i]);
      space := space + queue[i].GetActiveSize();
    }
  }

  method Append(front: MessageBuffer, b: MessageBuffer, ghost text: bytes)
    requires Waits(b, front, text) && front.Valid() && |text| <= front.GetRemainingSpace()
    modifies front`wpos, front.storage
    ensures front.Valid() && front.Contents() == old(front.Contents()) + text
    ensures front.GetRemainingSpace() + |text| == old(front.GetRemainingSpace())
  {
    front.Write(b.storage[b.rpos..b.wpos]);
  }

  /** Appends to the front buffer, which is large enough, the bytes of the others in order. */
  method AppendAll(front: MessageBuffer, queue: seq<MessageBuffer>, ghost texts: seq<bytes>)
    requires queue != [] && queue[0] == front && |texts| == |queue|
    requires forall j :: 1 <= j < |queue| ==> Waits(queue[j], front, texts[j])
    requires front.Valid() && front.Contents() == texts[0]
    requires front.GetRemainingSpace() >= Total(texts[1..])
    modifies front`wpos, front.storage
    ensures front.Valid() && front.Contents() == Flatten(texts)
  {
    hide Flatten, Total;
    NothingTaken(texts);
    for i := 1 to |queue|
      invariant front.Valid() && front.Contents() == Flatten(texts[..i])
      invariant front.GetRemainingSpace() >= Total(texts[i..])
      invariant forall j :: i <= j < |queue| ==> Waits(queue[j], front, texts[j])
    {
      JoinTakesNext(texts, i);
      Append(front, queue[i], texts[i]);
    }
    assert texts[..|queue|] == texts;
  }

  /** Makes the front buffer hold the bytes of all the buffers, in order, and drops the others. */
  method Coalesce(queue: seq<MessageBuffer>) returns (merged: seq<MessageBuffer>)
    requires queue != [] && Separate(queue)
    modifies queue[0], queue[0].storage
    ensures merged == [queue[0]] && queue[0].Valid()
    ensures queue[0].Contents() == Flatten(old(Texts(queue)))
  {
    hide Flatten, Total;
    ghost var texts := Texts(queue);
    assert forall j :: 1 <= j < |queue| ==> Waits(queue[j], queue[0], texts[j]);
    var space := SpaceNeeded(queue, texts);
    queue[0].EnsureFreeSpace(space);
    AppendAll(queue[0], queue, texts);
    merged := [queue[0]];
  }

  lemma {:induction false} NothingTaken(texts: seq<bytes>)
    requires texts != []
    ensures Flatten(texts[..1]) == texts[0] && Total(texts[|texts|..]) == 0
  {
    assert texts[..1] == [texts[0]];
    FlattenOne(texts[0]);
  }
}
