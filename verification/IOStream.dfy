/**
  IOStream of src/net4cxx/core/protocols/iostream.{h,cpp}: a buffer, one pending read request, and wake-ups
  posted to the reactor. The application is a function from its state and the data delivered to its next
  state and its next request; it may throw instead.
*/
module IOStreams {
  import opened Basics
  import opened MessageBuffers

  type cstring = d: bytes | 0 !in d

  /** What the application asks for. A bound of 0 keeps the previous bound. */
  datatype Request = Nothing | AskBytes(n: nat) | AskUntil(d: cstring, maxBytes: nat) | AskUntilClose

  datatype Reply<A> = Reply(state: A, next: Request, throws: bool)

  /** The request a stream is serving. */
  datatype Want = Idle | Count(n: nat) | Delimiter(d: cstring) | Everything

  datatype Config<A> = Config(app: A, want: Want, max: Option<nat>)

  function Ask<A>(c: Config<A>, r: Request): Config<A> {
    match r
    case Nothing => c
    case AskBytes(n) => c.(want := Count(n))
    case AskUntil(d, m) => c.(want := Delimiter(d), max := if m != 0 then Some(m) else c.max)
    case AskUntilClose => c.(want := Everything)
  }

  /** How many bytes of the buffer satisfy the request, if they do. */
  function Ready(w: Want, b: bytes, eof: bool): (n: Option<nat>)
    ensures n.Some? ==> n.value <= |b|
  {
    match w
    case Idle => None
    case Count(n) => if n <= |b| then Some(n) else None
    case Delimiter(d) => (match First(b, d) case None => None case Some(i) => Some(i + |d|))
    case Everything => if eof then Some(|b|) else None
  }

  /** The delimiter was not found within the bound. */
  predicate Unsatisfiable(w: Want, max: Option<nat>, b: bytes) {
    w.Delimiter? && max.Some? &&
    match Ready(w, b, false) case Some(n) => n > max.value case None => |b| > max.value
  }

  /** A bounded delimiter can no longer be found exactly when more bytes than the bound are there and it does not
      end within the bound. */
  lemma {:induction false} UnsatisfiableExactly(d: cstring, m: nat, b: bytes)
    ensures Unsatisfiable(Delimiter(d), Some(m), b) <==> |b| > m && forall i: nat :: At(b, d, i) ==> i + |d| > m
  {
    match First(b, d)
    case None =>
    case Some(n) => assert At(b, d, n);
  }

  // ----- what the bytes alone determine -----

  datatype Run<A> = Run(delivered: seq<bytes>, config: Config<A>, rest: bytes)

  /** One request served from the bytes at hand, before the connection is lost. */
  function Serve<A>(react: (A, bytes) -> Reply<A>, r: Run<A>): Option<Run<A>> {
    var c, b := r.config, r.rest;
    match Ready(c.want, b, false)
    case None => None
    case Some(n) =>
      var reply := react(c.app, b[..n]);
      if Unsatisfiable(c.want, c.max, b) || reply.throws then None
      else Some(Run(r.delivered + [b[..n]], Ask(Config(reply.state, Idle, c.max), reply.next), b[n..]))
  }

  function ServeMany<A>(react: (A, bytes) -> Reply<A>, r: Run<A>, k: nat): Option<Run<A>> {
    if k == 0 then Some(r)
    else match ServeMany(react, r, k - 1) case None => None case Some(q) => Serve(react, q)
  }

  /** The first k requests served from the bytes s. */
  function After<A>(react: (A, bytes) -> Reply<A>, c: Config<A>, s: bytes, k: nat): Option<Run<A>> {
    ServeMany(react, Run([], c, s), k)
  }

  /** Serving the request at hand ends in an exception. */
  predicate Doomed<A>(react: (A, bytes) -> Reply<A>, r: Run<A>) {
    var n := Ready(r.config.want, r.rest, false);
    Unsatisfiable(r.config.want, r.config.max, r.rest) || (n.Some? && react(r.config.app, r.rest[..n.value]).throws)
  }

  /** The bytes lead to an exception. */
  ghost predicate Broken<A>(react: (A, bytes) -> Reply<A>, c: Config<A>, s: bytes) {
    exists k :: After(react, c, s, k).Some? && Doomed(react, After(react, c, s, k).value)
  }

  lemma {:induction false} ServeSum<A>(react: (A, bytes) -> Reply<A>, r: Run<A>, j: nat, k: nat)
    requires ServeMany(react, r, j).Some?
    ensures ServeMany(react, r, j + k) == ServeMany(react, ServeMany(react, r, j).value, k)
  {
    hide Serve;
    if k > 0 { ServeSum(react, r, j, k - 1); }
  }

  /** More bytes do not change what was already served. */
  lemma {:induction false} ServeExtends<A>(react: (A, bytes) -> Reply<A>, r: Run<A>, t: bytes)
    requires Serve(react, r).Some?
    ensures var q := Serve(react, r).value;
      Serve(react, r.(rest := r.rest + t)) == Some(q.(rest := q.rest + t))
  {
    var c, b := r.config, r.rest;
    if c.want.Delimiter? { FirstStays(b, t, c.want.d); }
    var n := Ready(c.want, b, false).value;
    assert Ready(c.want, b + t, false) == Some(n);
    assert (b + t)[..n] == b[..n] && (b + t)[n..] == b[n..] + t;
  }

  lemma {:induction false} AfterExtends<A>(react: (A, bytes) -> Reply<A>, c: Config<A>, s: bytes, t: bytes, k: nat)
    requires After(react, c, s, k).Some?
    ensures var r := After(react, c, s, k).value;
      After(react, c, s + t, k) == Some(r.(rest := r.rest + t))
  {
    hide Serve;
    if k > 0 {
      AfterExtends(react, c, s, t, k - 1);
      ServeExtends(react, After(react, c, s, k - 1).value, t);
    }
  }

  lemma {:induction false} AfterShorter<A>(react: (A, bytes) -> Reply<A>, c: Config<A>, s: bytes, j: nat, k: nat)
    requires After(react, c, s, k).Some? && j <= k
    ensures After(react, c, s, j).Some?
    ensures After(react, c, s, j).value.delivered <= After(react, c, s, k).value.delivered
    ensures |After(react, c, s, k).value.delivered| == k
    decreases k
  {
    if k > 0 {
      AfterShorter(react, c, s, if j < k then j else j - 1, k - 1);
    }
  }

  lemma {:induction false} AfterNext<A>(react: (A, bytes) -> Reply<A>, c: Config<A>, s: bytes, k: nat)
    requires After(react, c, s, k).Some?
    ensures After(react, c, s, k + 1) == Serve(react, After(react, c, s, k).value)
  {
  }

  /** A run ends only once. */
  lemma {:induction false} EndsOnce<A>(react: (A, bytes) -> Reply<A>, c: Config<A>, s: bytes, j: nat, k: nat)
    requires After(react, c, s, j).Some? && Serve(react, After(react, c, s, j).value).None?
    requires After(react, c, s, k).Some? && Serve(react, After(react, c, s, k).value).None?
    ensures j == k
  {
    assert After(react, c, s, j + 1).None? && After(react, c, s, k + 1).None?;
    if j < k { AfterShorter(react, c, s, j + 1, k); }
    if k < j { AfterShorter(react, c, s, k + 1, j); }
  }

  /** More bytes do not avert an exception. */
  lemma {:induction false} DoomedExtends<A>(react: (A, bytes) -> Reply<A>, r: Run<A>, t: bytes)
    requires Doomed(react, r)
    ensures Doomed(react, r.(rest := r.rest + t))
  {
    var w, b := r.config.want, r.rest;
    if Unsatisfiable(w, r.config.max, b) {
      UnsatisfiableExtends(w, r.config.max, b, t);
    } else {
      var n := Ready(w, b, false).value;
      if w.Delimiter? { FirstStays(b, t, w.d); }
      assert Ready(w, b + t, false) == Some(n) && (b + t)[..n] == b[..n];
    }
  }

  lemma {:induction false} FirstInFront(b: bytes, t: bytes, d: bytes)
    requires First(b + t, d).Some? && First(b, d).None?
    ensures First(b + t, d).value + |d| > |b|
  {
    var i := First(b + t, d).value;
    assert !At(b, d, i);
  }

  lemma {:induction false} UnsatisfiableExtends(w: Want, max: Option<nat>, b: bytes, t: bytes)
    requires Unsatisfiable(w, max, b)
    ensures Unsatisfiable(w, max, b + t)
  {
    var i := First(b + t, w.d);
    if First(b, w.d).Some? {
      FirstStays(b, t, w.d);
    } else if i.Some? {
      FirstInFront(b, t, w.d);
    }
  }

  lemma {:induction false} BrokenExtends<A>(react: (A, bytes) -> Reply<A>, c: Config<A>, s: bytes, t: bytes)
    requires Broken(react, c, s)
    ensures Broken(react, c, s + t)
  {
    hide Doomed, After;
    var k :| After(react, c, s, k).Some? && Doomed(react, After(react, c, s, k).value);
    AfterExtends(react, c, s, t, k);
    DoomedExtends(react, After(react, c, s, k).value, t);
  }

  /** What is ready in the tail of a buffer is ready in the buffer. */
  lemma {:induction false} ReadyInTail(w: Want, b: bytes, n: nat, eof: bool)
    requires n <= |b| && Ready(w, b[n..], eof).Some?
    ensures Ready(w, b, eof).Some?
  {
    if w.Delimiter? { FirstInTail(b, n, w.d); }
  }

  /** No byte is lost, repeated or reordered, and as long as the connection lasts the bytes alone determine
      what has been delivered. */
  ghost predicate Sound<A>(react: (A, bytes) -> Reply<A>, first: Config<A>, received: bytes,
                           r: Run<A>, disconnected: bool) {
    && Flatten(r.delivered) + r.rest == received
    && (!disconnected ==> After(react, first, received, |r.delivered|) == Some(r))
  }

  lemma {:induction false} SoundAppend<A>(react: (A, bytes) -> Reply<A>, first: Config<A>, received: bytes,
                                          r: Run<A>, disconnected: bool, t: bytes)
    requires Sound(react, first, received, r, disconnected)
    ensures Sound(react, first, received + t, r.(rest := r.rest + t), disconnected)
  {
    hide After;
    Assoc(Flatten(r.delivered), r.rest, t);
    if !disconnected { AfterExtends(react, first, received, t, |r.delivered|); }
  }

  lemma {:induction false} SoundServe<A>(react: (A, bytes) -> Reply<A>, first: Config<A>, received: bytes,
                                         r: Run<A>, disconnected: bool, n: nat, c: Config<A>)
    requires Sound(react, first, received, r, disconnected) && n <= |r.rest|
    requires !disconnected ==>
      Serve(react, r) == Some(Run(r.delivered + [r.rest[..n]], c, r.rest[n..]))
    ensures Sound(react, first, received, Run(r.delivered + [r.rest[..n]], c, r.rest[n..]), disconnected)
  {
    hide Serve, After;
    var all := r.delivered + [r.rest[..n]];
    FlattenLast(r.delivered, r.rest[..n]);
    if !disconnected { AfterNext(react, first, received, |r.delivered|); }
    Assoc(Flatten(r.delivered), r.rest[..n], r.rest[n..]);
    assert r.rest[..n] + r.rest[n..] == r.rest;
  }

  // ----- the stream -----

  const INITIAL_SIZE: nat := 4096

  class IOStream<A> {
    const react: (A, bytes) -> Reply<A>
    const maxBufferSize: nat
    const first: Config<A>
    const readBuffer: MessageBuffer
    var app: A
    var readDelimiter: Option<cstring>
    var readMaxBytes: Option<nat>
    var readBytes: Option<nat>
    var readUntilClose: bool
    var disconnected: bool
    var failed: bool // an exception closed the stream
    var posted: nat // the calls of readFromBuffer that the reactor still has to make
    var received: bytes // everything that dataReceived was given
    var delivered: seq<bytes> // everything that onDataRead was given

    constructor (react: (A, bytes) -> Reply<A>, app: A, request: Request, maxBufferSize: nat)
      ensures this.react == react && this.maxBufferSize == maxBufferSize
      ensures first == Ask(Config(app, Idle, None), request)
      ensures fresh(readBuffer) && fresh(readBuffer.storage) && Inv()
      ensures received == [] && delivered == [] && !disconnected && !failed
      ensures posted == if Satisfiable() then 1 else 0
    {
      this.react, this.maxBufferSize, this.app := react, maxBufferSize, app;
      first := Ask(Config(app, Idle, None), request);
      readBuffer := new MessageBuffer(INITIAL_SIZE);
      readDelimiter, readMaxBytes, readBytes, readUntilClose := None, None, None, false;
      disconnected, failed, posted, received, delivered := false, false, 0, [], [];
      new;
      Issue(request);
      assert Flatten(delivered) + Buffered() == received;
    }

    ghost predicate Valid()
      reads this, readBuffer
    {
      && readBuffer.Valid()
      && (readUntilClose ==> readDelimiter.None? && readBytes.None?)
      && (readBytes.Some? ==> readDelimiter.None?)
    }

    function Wanted(): Want
      reads this
    {
      if readUntilClose then Everything
      else if readBytes.Some? then Count(readBytes.value)
      else if readDelimiter.Some? then Delimiter(readDelimiter.value)
      else Idle
    }

    ghost function Current(): Config<A>
      reads this
    {
      Config(app, Wanted(), readMaxBytes)
    }

    ghost function Buffered(): bytes
      requires readBuffer.Valid()
      reads this, readBuffer, readBuffer.storage
    {
      readBuffer.Contents()
    }

    ghost function Here(): Run<A>
      requires readBuffer.Valid()
      reads this, readBuffer, readBuffer.storage
    {
      Run(delivered, Current(), Buffered())
    }

    /** A read while the connection is up serves one request, closes the stream, or finds nothing to do. */
    ghost predicate Advances(was: Run<A>, now: Run<A>, fails: bool) {
      match Serve(react, was)
      case Some(q) => !fails && now == q
      case None => if Doomed(react, was) then fails else !fails && now == was
    }

    ghost predicate Satisfiable()
      requires readBuffer.Valid()
      reads this, readBuffer, readBuffer.storage
    {
      Ready(Wanted(), Buffered(), disconnected).Some?
    }

    ghost predicate Kept()
      reads this, readBuffer, readBuffer.storage
    {
      && Valid()
      // the buffer never shrinks and is never compacted: its size counts every byte ever received
      && readBuffer.wpos == |received|
      && readBuffer.storage.Length == (if |received| > INITIAL_SIZE then |received| else INITIAL_SIZE)
      && (!failed ==> Sound(react, first, received, Run(delivered, Current(), Buffered()), disconnected))
      && (failed && !disconnected ==> Overfull() || Broken(react, first, received))
    }

    /** What holds between events. A request that can be served has been posted. */
    ghost predicate Inv()
      reads this, readBuffer, readBuffer.storage
    {
      Kept() && (!failed && Satisfiable() ==> posted > 0)
    }

    /** The limit is on all the bytes ever received, served or not. */
    predicate Overfull()
      reads this
    {
      |received| > maxBufferSize || INITIAL_SIZE > maxBufferSize
    }

    method FindReadPos() returns (r: bool)
      requires Valid()
      ensures r == Satisfiable()
      ensures readUntilClose ==> r == disconnected
    {
      if disconnected && readUntilClose {
        r := true;
      } else if readBytes.Some? {
        r := readBuffer.GetActiveSize() >= readBytes.value;
      } else if readDelimiter.Some? {
        var loc := StrNStr(readBuffer.storage[readBuffer.rpos..readBuffer.wpos], readDelimiter.value);
        r := loc.Some?;
      } else {
        r := false;
      }
    }

    method TryInlineRead()
      requires Valid()
      modifies `posted
      ensures posted == old(posted) + if Satisfiable() then 1 else 0
    {
      var found := FindReadPos();
      if found {
        posted := posted + 1;
      }
    }

    method ReadBytes(numBytes: nat)
      requires Valid() && Wanted().Idle?
      modifies `readBytes, `posted
      ensures Valid() && Current() == Ask(old(Current()), AskBytes(numBytes)) && readBytes == Some(numBytes)
      ensures posted == old(posted) + if Satisfiable() then 1 else 0
    {
      readBytes := Some(numBytes);
      TryInlineRead();
    }

    method ReadUntil(delimiter: cstring, maxBytes: nat)
      requires Valid() && Wanted().Idle?
      modifies `readDelimiter, `readMaxBytes, `posted
      ensures Valid() && Current() == Ask(old(Current()), AskUntil(delimiter, maxBytes))
      ensures readDelimiter == Some(delimiter)
      ensures readMaxBytes == if maxBytes > 0 then Some(maxBytes) else old(readMaxBytes)
      ensures posted == old(posted) + if Satisfiable() then 1 else 0
    {
      readDelimiter := Some(delimiter);
      if maxBytes != 0 {
        readMaxBytes := Some(maxBytes);
      }
      TryInlineRead();
    }

    method ReadUntilClose()
      requires Valid() && Wanted().Idle?
      modifies `readUntilClose, `posted
      ensures Valid() && Current() == Ask(old(Current()), AskUntilClose) && readUntilClose
      ensures posted == old(posted) + if Satisfiable() then 1 else 0
    {
      readUntilClose := true;
      TryInlineRead();
    }

    /** The application's next request, if it makes one. */
    method Issue(r: Request)
      requires Valid() && Wanted().Idle?
      modifies `readDelimiter, `readMaxBytes, `readBytes, `readUntilClose, `posted
      ensures Valid() && Current() == Ask(old(Current()), r)
      ensures posted == old(posted) + if Satisfiable() then 1 else 0
    {
      match r {
        case Nothing =>
        case AskBytes(n) => ReadBytes(n);
        case AskUntil(d, m) => ReadUntil(d, m);
        case AskUntilClose => ReadUntilClose();
      }
    }

    /** The application's handler. It runs before the bytes are taken off the buffer. */
    method OnDataRead(data: bytes) returns (ok: bool)
      requires Valid() && Wanted().Idle?
      modifies `app, `delivered, `readDelimiter, `readMaxBytes, `readBytes, `readUntilClose, `posted
      ensures Valid() && delivered == old(delivered) + [data]
      ensures var reply := react(old(app), data);
        && ok == !reply.throws
        && (!ok ==> Current() == old(Current()).(app := reply.state) && posted == old(posted))
        && (ok ==>
              && Current() == Ask(old(Current()).(app := reply.state), reply.next)
              && posted == old(posted) + if Satisfiable() then 1 else 0)
    {
      var reply := react(app, data);
      delivered := delivered + [data];
      app := reply.state;
      ok := !reply.throws;
      if ok {
        Issue(reply.next);
      }
    }

    /** Hands the first n bytes to the application and takes them off the buffer. */
    method Hand(n: nat) returns (ok: bool)
      requires Valid() && Wanted().Idle? && n <= |Buffered()|
      modifies `app, `delivered, `readDelimiter, `readMaxBytes, `readBytes, `readUntilClose, `posted, readBuffer`rpos
      ensures Valid()
      ensures var data := old(Buffered())[..n]; var reply := react(old(app), data);
        && ok == !reply.throws && delivered == old(delivered) + [data] && posted >= old(posted)
        && app == reply.state
        && (!ok ==> Buffered() == old(Buffered()))
        && (ok ==>
              && Current() == Ask(old(Current()).(app := reply.state), reply.next)
              && Buffered() == old(Buffered())[n..]
              && (Satisfiable() ==> posted > old(posted)))
    {
      ghost var b := Buffered();
      var data := readBuffer.storage[readBuffer.rpos..readBuffer.rpos + n];
      assert data == b[..n];
      ok := OnDataRead(data);
      if ok {
        readBuffer.ReadCompleted(n);
        if Satisfiable() { ReadyInTail(Wanted(), b, n, disconnected); }
      }
    }

    /** False for an UnsatisfiableReadError. */
    method CheckMaxBytes(size: nat) returns (ok: bool)
      ensures ok == !(readMaxBytes.Some? && size > readMaxBytes.value)
    {
      ok := !(readMaxBytes.Some? && size > readMaxBytes.value);
    }

    /** The branch of readFromBuffer for a delimiter. */
    method ReadToDelimiter() returns (ok: bool)
      requires Valid() && Wanted().Delimiter?
      modifies `app, `delivered, `readDelimiter, `readMaxBytes, `readBytes, `readUntilClose, `posted, readBuffer`rpos
      ensures Valid() && posted >= old(posted) && (|delivered| == |old(delivered)| ==> posted == old(posted))
      ensures var c := old(Current()); var b := old(Buffered());
        match Ready(c.want, b, disconnected)
        case None =>
          && ok == !Unsatisfiable(c.want, c.max, b)
          && Current() == c && Buffered() == b && delivered == old(delivered)
        case Some(n) =>
          var reply := react(c.app, b[..n]);
          && ok == !(Unsatisfiable(c.want, c.max, b) || reply.throws)
          && (ok ==>
                && delivered == old(delivered) + [b[..n]] && Buffered() == b[n..]
                && Current() == Ask(Config(reply.state, Idle, c.max), reply.next)
                && (Satisfiable() ==> posted > old(posted)))
    {
      var d := readDelimiter.value;
      var loc := StrNStr(readBuffer.storage[readBuffer.rpos..readBuffer.wpos], d);
      if loc.None? {
        ok := CheckMaxBytes(readBuffer.GetActiveSize());
        return;
      }
      var n := loc.value + |d|;
      ok := CheckMaxBytes(n);
      if ok {
        readDelimiter := None;
        ok := Hand(n);
      }
    }

    /** False if an exception left it. */
    method ReadFromBuffer() returns (ok: bool)
      requires Valid()
      modifies `app, `delivered, `readDelimiter, `readMaxBytes, `readBytes, `readUntilClose, `posted, readBuffer`rpos
      ensures old(readUntilClose) ==>
        delivered == if disconnected then old(delivered) + [old(Buffered())] else old(delivered)
      ensures Valid() && posted >= old(posted) && (|delivered| == |old(delivered)| ==> posted == old(posted))
      ensures var c := old(Current()); var b := old(Buffered());
        match Ready(c.want, b, disconnected)
        case None =>
          && ok == !Unsatisfiable(c.want, c.max, b)
          && Current() == c && Buffered() == b && delivered == old(delivered)
        case Some(n) =>
          var reply := react(c.app, b[..n]);
          && ok == !(Unsatisfiable(c.want, c.max, b) || reply.throws)
          && (ok ==>
                && delivered == old(delivered) + [b[..n]] && Buffered() == b[n..]
                && Current() == Ask(Config(reply.state, Idle, c.max), reply.next)
                && (Satisfiable() ==> posted > old(posted)))
    {
      ok := true;
      if disconnected && readUntilClose {
        readUntilClose := false;
        var n := readBuffer.GetActiveSize();
        assert Buffered()[..n] == Buffered();
        ok := Hand(n);
      } else if readBytes.Some? {
        if readBuffer.GetActiveSize() >= readBytes.value {
          var numBytes := readBytes.value;
          readBytes := None;
          ok := Hand(numBytes);
        }
      } else if readDelimiter.Some? {
        ok := ReadToDelimiter();
      }
    }

    /** What reading from the buffer does to the invariant. */
    lemma {:induction false} ReadKeeps(was: Run<A>, now: Run<A>)
      requires Sound(react, first, received, was, disconnected)
      requires match Ready(was.config.want, was.rest, disconnected)
        case None => now == was
        case Some(n) =>
          var reply := react(was.config.app, was.rest[..n]);
          && !Unsatisfiable(was.config.want, was.config.max, was.rest) && !reply.throws
          && now == Run(was.delivered + [was.rest[..n]], Ask(Config(reply.state, Idle, was.config.max), reply.next),
                        was.rest[n..])
      ensures Sound(react, first, received, now, disconnected)
    {
      hide Sound, Unsatisfiable, Ask;
      match Ready(was.config.want, was.rest, disconnected)
      case None =>
      case Some(n) =>
        SoundServe(react, first, received, was, disconnected, n, now.config);
    }

    lemma {:induction false} ReadBreaks(was: Run<A>)
      requires Sound(react, first, received, was, false) && Doomed(react, was)
      ensures Broken(react, first, received)
    {
      hide Doomed;
    }

    method Store(data: bytes)
      requires Valid() && readBuffer.wpos == |received|
      requires readBuffer.storage.Length == if |received| > INITIAL_SIZE then |received| else INITIAL_SIZE
      modifies `received, readBuffer, readBuffer.storage
      ensures Valid() && received == old(received) + data && Buffered() == old(Buffered()) + data
      ensures readBuffer.wpos == |received|
      ensures readBuffer.storage.Length == if |received| > INITIAL_SIZE then |received| else INITIAL_SIZE
      ensures fresh(readBuffer.storage) || readBuffer.storage == old(readBuffer.storage)
    {
      readBuffer.EnsureFreeSpace(|data|);
      readBuffer.Write(data);
      received := received + data;
    }

    /** readFromBuffer, and close if it throws. */
    method TryRead()
      requires Kept()
      modifies this, readBuffer`rpos
      ensures Inv() && received == old(received) && disconnected == old(disconnected)
      ensures !old(failed) && !disconnected ==> Advances(old(Here()), Here(), failed)
      ensures |delivered| == |old(delivered)| ==> posted == old(posted)
    {
      hide Sound, Ready, Unsatisfiable, Ask, Broken;
      ghost var was := Run(delivered, Current(), Buffered());
      var ok := ReadFromBuffer();
      if !ok {
        if !failed && !disconnected { ReadBreaks(was); }
        failed := true;
      } else if !failed {
        ReadKeeps(was, Run(delivered, Current(), Buffered()));
      }
    }

    /** Bytes from the transport. */
    method DataReceived(data: bytes)
      requires Inv()
      modifies this, readBuffer, readBuffer.storage
      ensures Inv() && received == old(received) + data && disconnected == old(disconnected)
      ensures fresh(readBuffer.storage) || readBuffer.storage == old(readBuffer.storage)
      ensures |received| > maxBufferSize || 4096 > maxBufferSize ==> failed && delivered == old(delivered)
      ensures 4096 <= maxBufferSize && |received| <= maxBufferSize && !old(failed) && !disconnected ==>
        Advances(old(Here()).(rest := old(Buffered()) + data), Here(), failed)
    {
      hide Sound, Ready, Unsatisfiable, Ask, Broken;
      ghost var was := Run(delivered, Current(), Buffered());
      Store(data);
      if !failed {
        SoundAppend(react, first, old(received), was, disconnected, data);
      } else if Broken(react, first, old(received)) {
        BrokenExtends(react, first, old(received), data);
      }
      if readBuffer.GetBufferSize() > maxBufferSize {
        failed := true;
      } else {
        TryRead();
      }
    }

    /** A posted call, made by the reactor. */
    method RunPosted()
      requires Inv() && posted > 0
      modifies this, readBuffer, readBuffer.storage
      ensures Inv() && received == old(received) && disconnected == old(disconnected)
      ensures readBuffer.storage == old(readBuffer.storage)
      ensures !old(failed) && !disconnected ==> Advances(old(Here()), Here(), failed)
      ensures |delivered| == |old(delivered)| ==> posted < old(posted)
    {
      posted := posted - 1;
      TryRead();
    }

    /** A pending readUntilClose gets what is left. */
    method ConnectionLost()
      requires Inv() && !disconnected
      modifies this, readBuffer, readBuffer.storage
      ensures Inv() && received == old(received) && disconnected
      ensures readBuffer.storage == old(readBuffer.storage)
      ensures delivered ==
        if old(Wanted()).Everything? then old(delivered) + [old(Buffered())] else old(delivered)
      ensures if old(Wanted()).Everything? then
                var reply := react(old(app), old(Buffered()));
                app == reply.state && failed == (old(failed) || reply.throws)
              else
                app == old(app) && failed == old(failed)
    {
      hide Sound;
      ghost var was := Run(delivered, Current(), Buffered());
      disconnected := true;
      if !failed { SoundLost(react, first, received, was); }
      if readUntilClose {
        readUntilClose := false;
        var n := readBuffer.GetActiveSize();
        assert Buffered()[..n] == Buffered();
        var ok := Hand(n);
        if !ok {
          failed := true;
        } else if !failed {
          SoundServe(react, first, received, was, true, n, Current());
        }
      }
    }
  }

  lemma {:induction false} SoundLost<A>(react: (A, bytes) -> Reply<A>, first: Config<A>, received: bytes, r: Run<A>)
    requires Sound(react, first, received, r, false)
    ensures Sound(react, first, received, r, true)
  {
  }

  /** The schedule does not matter: two streams of the same application that have received the same bytes and
      have no wake-up outstanding have delivered the same pieces and wait for the same request. */
  lemma {:induction false} ScheduleIrrelevant<A>(s: IOStream<A>, t: IOStream<A>)
    requires s.Inv() && t.Inv() && s.react == t.react && s.first == t.first && s.received == t.received
    requires !s.failed && !t.failed && !s.disconnected && !t.disconnected
    requires s.posted == 0 && t.posted == 0
    ensures s.delivered == t.delivered && s.Current() == t.Current() && s.Buffered() == t.Buffered()
  {
    Stuck(s);
    Stuck(t);
    EndsOnce(s.react, s.first, s.received, |s.delivered|, |t.delivered|);
  }

  lemma {:induction false} Stuck<A>(s: IOStream<A>)
    requires s.Inv() && !s.failed && !s.disconnected && s.posted == 0
    ensures After(s.react, s.first, s.received, |s.delivered|) == Some(Run(s.delivered, s.Current(), s.Buffered()))
    ensures Serve(s.react, Run(s.delivered, s.Current(), s.Buffered())).None?
  {
  }

}
