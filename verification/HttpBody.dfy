/**
  Chunked bodies (section 4.1 of RFC 7230): printed by HTTPConnection of src/net4cxx/plugins/web/httpserver.cpp,
  decoded by HTTPClientConnection of src/net4cxx/plugins/web/httpclient.{h,cpp} on top of IOStream.
*/
module HttpBody {
  import opened Basics
  import opened ByteConvert
  import opened MessageBuffers
  import opened IOStreams

  const CRLF: bytes := [13, 10]
  const BLOCK: nat := 65535 // _chunkSize of the client

  // ----- hexadecimal lengths -----

  /** The %x format. */
  function Hex(n: nat): bytes {
    if n < 16 then [HexDigit(n)] else Hex(n / 16) + [HexDigit(n % 16)]
  }

  /** The longest run of hexadecimal digits, after acc: its value. */
  function HexRun(t: bytes, acc: nat): nat {
    if t == [] || HexValue(t[0]).None? then acc else HexRun(t[1..], 16 * acc + HexValue(t[0]).value)
  }

  predicate Blank(c: byte) { c == 32 || 9 <= c <= 13 }

  function TrimLeft(t: bytes): bytes {
    if t != [] && Blank(t[0]) then TrimLeft(t[1..]) else t
  }

  function TrimRight(t: bytes): bytes {
    if t != [] && Blank(t[|t| - 1]) then TrimRight(t[..|t| - 1]) else t
  }

  predicate StartsWithDigit(t: bytes) { t != [] && HexValue(t[0]).Some? }

  /** std::stoul(text, nullptr, 16): None if it throws. */
  function Stoul(text: bytes): Option<nat> {
    var t := TrimLeft(text);
    var negative := t != [] && t[0] == 45;
    var u := if t != [] && (t[0] == 43 || t[0] == 45) then t[1..] else t;
    var prefixed := |u| >= 3 && u[0] == 48 && (u[1] == 120 || u[1] == 88) && StartsWithDigit(u[2..]);
    var digits := if prefixed then u[2..] else u;
    var v := HexRun(digits, 0);
    if !StartsWithDigit(digits) || v >= TWO64 then None
    else if negative then Some((TWO64 - v) % TWO64)
    else Some(v)
  }

  predicate HexChar(c: byte) { 48 <= c <= 57 || 97 <= c <= 102 }

  lemma {:induction false} HexIsDigits(n: nat)
    ensures Hex(n) != [] && forall i :: 0 <= i < |Hex(n)| ==> HexChar(Hex(n)[i])
    ensures n < TWO64 ==> |Hex(n)| <= 16
  {
    HexLength(n, 15);
    if n >= 16 { HexIsDigits(n / 16); }
  }

  function Pow16(k: nat): nat { if k == 0 then 1 else 16 * Pow16(k - 1) }

  lemma {:induction false} HexLength(n: nat, k: nat)
    ensures n < 16 * Pow16(k) ==> |Hex(n)| <= k + 1
    ensures k == 15 ==> 16 * Pow16(k) == TWO64
  {
    if k > 0 && n >= 16 { HexLength(n / 16, k - 1); }
    if k == 15 {
      assert Pow16(3) == 4096;
      assert Pow16(6) == 4096 * 4096;
      assert Pow16(9) == 4096 * Pow16(6);
      assert Pow16(12) == 4096 * Pow16(9);
      assert Pow16(15) == 4096 * Pow16(12);
    }
  }

  lemma {:induction false} HexRunAppend(ds: bytes, c: byte, acc: nat)
    requires forall i :: 0 <= i < |ds| ==> HexChar(ds[i])
    requires HexChar(c)
    ensures HexRun(ds + [c], acc) == 16 * HexRun(ds, acc) + HexValue(c).value
  {
    if ds == [] {
      assert [c][1..] == [];
      assert ds + [c] == [c];
    } else {
      assert (ds + [c])[1..] == ds[1..] + [c];
      HexRunAppend(ds[1..], c, 16 * acc + HexValue(ds[0]).value);
    }
  }

  lemma {:induction false} HexRunOfHex(n: nat)
    ensures HexRun(Hex(n), 0) == n
  {
    if n >= 16 {
      HexRunOfHex(n / 16);
      HexIsDigits(n / 16);
      HexRunAppend(Hex(n / 16), HexDigit(n % 16), 0);
    } else {
      assert Hex(n)[1..] == [];
    }
  }

  /** The length line of a chunk is read back, and ends at its own line end. */
  lemma {:induction false} LineRoundTrip(n: nat, t: bytes)
    requires n < TWO64
    ensures First(Hex(n) + CRLF + t, CRLF) == Some(|Hex(n)|)
    ensures Stoul(TrimRight(TrimLeft(Hex(n) + CRLF))) == Some(n)
  {
    HexIsDigits(n);
    var h, s := Hex(n), Hex(n) + CRLF + t;
    assert s[|h|..|h| + 2] == CRLF;
    forall j: nat | j < |h| ensures !At(s, CRLF, j) {
      assert s[j..j + 2][0] == h[j];
    }
    FirstIsUnique(s, CRLF, |h|);
    TrimLine(h);
    assert HexChar(h[0]);
    if |h| >= 2 { assert HexChar(h[1]); }
    HexRunOfHex(n);
  }

  lemma {:induction false} TrimLine(h: bytes)
    requires h != [] && forall i :: 0 <= i < |h| ==> HexChar(h[i])
    ensures TrimRight(TrimLeft(h + CRLF)) == h == TrimLeft(h)
  {
    var a := h + CRLF;
    assert HexChar(a[0]);
    var b := h + [13];
    assert a[..|a| - 1] == b && a[|a| - 1] == 10;
    assert b[..|b| - 1] == h && b[|b| - 1] == 13;
    assert HexChar(h[|h| - 1]);
    assert TrimRight(a) == TrimRight(b) == TrimRight(h) == h;
  }

  /** Signs and the prefix 0x are accepted, and a negative length is taken modulo 2^64. */
  lemma {:induction false} StoulForms(n: nat)
    requires n < TWO64
    ensures Stoul(Hex(n)) == Some(n) && Stoul(['+' as int] + Hex(n)) == Some(n)
    ensures Stoul(['-' as int] + Hex(n)) == Some(if n == 0 then 0 else TWO64 - n)
    ensures Stoul(['0' as int, 'x' as int] + Hex(n)) == Some(n) && Stoul(['0' as int, 'X' as int] + Hex(n)) == Some(n)
  {
    hide Hex, HexRun;
    var h := Hex(n);
    HexIsDigits(n);
    HexRunOfHex(n);
    assert HexChar(h[0]);
    if |h| >= 2 { assert HexChar(h[1]); }
    assert (['+' as int] + h)[1..] == h && (['-' as int] + h)[1..] == h;
    assert (['0' as int, 'x' as int] + h)[2..] == h && (['0' as int, 'X' as int] + h)[2..] == h;
  }

  /** White space around a length does not matter. */
  lemma {:induction false} BlanksIgnored(before: bytes, t: bytes, after: bytes)
    requires forall i :: 0 <= i < |before| ==> before[i] in {9, 10, 11, 12, 13, 32}
    requires forall i :: 0 <= i < |after| ==> after[i] in {9, 10, 11, 12, 13, 32}
    requires t != [] && t[0] !in {9, 10, 11, 12, 13, 32} && t[|t| - 1] !in {9, 10, 11, 12, 13, 32}
    ensures TrimRight(TrimLeft(before + t + after)) == t
  {
    if before != [] {
      assert (before + t + after)[1..] == before[1..] + t + after;
      BlanksIgnored(before[1..], t, after);
    } else {
      assert before + t + after == t + after;
      BlanksAfter(t, after);
    }
  }

  lemma {:induction false} BlanksAfter(t: bytes, after: bytes)
    requires forall i :: 0 <= i < |after| ==> after[i] in {9, 10, 11, 12, 13, 32}
    requires t != [] && t[|t| - 1] !in {9, 10, 11, 12, 13, 32}
    ensures TrimRight(t + after) == t
  {
    if after == [] {
      assert t + after == t;
    } else {
      assert (t + after)[..|t + after| - 1] == t + after[..|after| - 1];
      BlanksAfter(t, after[..|after| - 1]);
    }
  }

  // ----- the server -----

  /** formatChunk with _chunkingOutput. */
  function ChunkText(c: bytes): bytes {
    if c == [] then [] else Hex(|c|) + CRLF + c + CRLF
  }

  function ChunkTexts(cs: seq<bytes>): bytes {
    if cs == [] then [] else ChunkText(cs[0]) + ChunkTexts(cs[1..])
  }

  const LAST_CHUNK: bytes := [48, 13, 10, 13, 10]

  function ChunkedBody(cs: seq<bytes>): bytes { ChunkTexts(cs) + LAST_CHUNK }

  lemma {:induction false} ChunkTextsLast(cs: seq<bytes>, c: bytes)
    ensures ChunkTexts(cs + [c]) == ChunkTexts(cs) + ChunkText(c)
  {
    hide ChunkText;
    if cs == [] {
      assert [c][1..] == [];
      assert cs + [c] == [c];
    } else {
      assert (cs + [c])[1..] == cs[1..] + [c];
      ChunkTextsLast(cs[1..], c);
    }
  }

  /** The facts of a request and a response that decide how the body is sent. */
  datatype Response = Response(http11: bool, head: bool, code: int, contentLength: Option<int>, transferEncoding: bool)

  predicate Chunks(r: Response) {
    && r.http11 && r.code != 204 && r.code != 304 && (r.code < 100 || r.code >= 200)
    && r.contentLength.None? && !r.transferEncoding
  }

  function Expects(r: Response): Option<int> {
    if r.head || r.code == 304 then Some(0) else r.contentLength
  }

  function TotalLength(cs: seq<bytes>): nat {
    if cs == [] then 0 else TotalLength(cs[..|cs| - 1]) + |cs[|cs| - 1]|
  }

  /** What the chunks written look like on the stream. */
  function BodyText(chunking: bool, cs: seq<bytes>): bytes { if chunking then ChunkTexts(cs) else Flatten(cs) }

  lemma {:induction false} BodyTextLast(header: bytes, chunking: bool, cs: seq<bytes>, c: bytes)
    ensures header + BodyText(chunking, cs + [c])
      == header + BodyText(chunking, cs) + if chunking then ChunkText(c) else c
    ensures TotalLength(cs + [c]) == TotalLength(cs) + |c|
  {
    hide ChunkText;
    ChunkTextsLast(cs, c);
    FlattenLast(cs, c);
    Assoc(header, ChunkTexts(cs), ChunkText(c));
    Assoc(header, Flatten(cs), c);
    assert (cs + [c])[..|cs|] == cs;
  }

  class HTTPConnection {
    var chunkingOutput: bool
    var expectedContentRemaining: Option<int>
    var out: bytes // written to the stream
    var closed: bool
    var writeFinished: bool
    ghost const response: Response
    ghost const header: bytes
    ghost var sent: seq<bytes> // the chunks written

    constructor (response: Response, header: bytes)
      ensures Valid() && sent == [] && this.response == response && this.header == header && !closed
      ensures chunkingOutput <==>
        && response.http11 && response.code !in {204, 304} && !(100 <= response.code < 200)
        && response.contentLength == None && !response.transferEncoding
      ensures expectedContentRemaining == if response.head || response.code == 304 then Some(0)
                                          else response.contentLength
    {
      chunkingOutput := response.http11 && response.code != 204 && response.code != 304
        && (response.code < 100 || response.code >= 200) && response.contentLength.None? && !response.transferEncoding;
      if response.head || response.code == 304 {
        expectedContentRemaining := Some(0);
      } else if response.contentLength.Some? {
        expectedContentRemaining := response.contentLength;
      } else {
        expectedContentRemaining := None;
      }
      out, closed, writeFinished := header, false, false;
      this.response, this.header, sent := response, header, [];
    }

    /** The stream holds the header and the body so far, and what is missing of Content-Length is known. */
    ghost predicate Valid()
      reads this
    {
      && chunkingOutput == Chunks(response)
      && (!closed && !writeFinished ==>
        && out == header + BodyText(chunkingOutput, sent)
        && expectedContentRemaining == match Expects(response)
           case None => None
           case Some(n) => Some(n - TotalLength(sent)))
    }

    /** None for HTTPOutputError. */
    method FormatChunk(data: bytes) returns (text: Option<bytes>)
      modifies `expectedContentRemaining, `closed
      ensures match old(expectedContentRemaining)
        case None => text.Some? && expectedContentRemaining == None && closed == old(closed)
        case Some(n) =>
          && expectedContentRemaining == Some(n - |data|)
          && (text.Some? <==> |data| <= n) && closed == (old(closed) || |data| > n)
      ensures text.Some? ==> text.value == if chunkingOutput then ChunkText(data) else data
    {
      if expectedContentRemaining.Some? {
        expectedContentRemaining := Some(expectedContentRemaining.value - |data|);
        if expectedContentRemaining.value < 0 {
          closed := true;
          return None;
        }
      }
      if chunkingOutput && |data| != 0 {
        var chunk := Hex(|data|) + CRLF;
        chunk := chunk + data;
        chunk := chunk + CRLF;
        text := Some(chunk);
      } else {
        text := Some(data);
      }
    }

    /** IOStream::write: false for StreamClosedError. */
    method Write(text: bytes) returns (ok: bool)
      modifies `out
      ensures ok == !closed && out == if ok then old(out) + text else old(out)
    {
      ok := !closed;
      if ok {
        out := out + text;
      } else {
        assert out + [] == out;
      }
    }

    /** Still accepting chunks. */
    predicate Open()
      reads this
    {
      !closed && !writeFinished
    }

    /** Writes a chunk, unless that is more than Content-Length announced or the stream is closed. */
    method WriteChunk(chunk: bytes) returns (ok: bool)
      requires Valid()
      modifies this
      ensures Valid() && writeFinished == old(writeFinished)
      ensures old(closed) ==> !ok && closed
      ensures old(Open()) ==>
        && ok == (match Expects(response) case None => true case Some(n) => TotalLength(old(sent)) + |chunk| <= n)
        && if ok then sent == old(sent) + [chunk] && !closed else closed
      ensures !ok ==> out == old(out)
    {
      hide ChunkText, BodyText, TotalLength;
      var text := FormatChunk(chunk);
      ok := text.Some?;
      if ok {
        ok := Write(text.value);
      }
      if ok {
        BodyTextLast(header, chunkingOutput, sent, chunk);
        sent := sent + [chunk];
      }
    }

    /** Ends the response, unless that is less than Content-Length announced. */
    method Finish() returns (ok: bool)
      requires Valid()
      modifies this
      ensures Valid() && sent == old(sent)
      ensures old(Open()) ==>
        && ok == (match Expects(response) case None => true case Some(n) => TotalLength(sent) == n)
        && (ok ==> writeFinished && !closed)
        && (ok ==> out == header + if Chunks(response) then ChunkedBody(sent) else Flatten(sent))
        && (!ok ==> closed && out == old(out))
      ensures old(closed) ==> closed && out == old(out)
    {
      if expectedContentRemaining.Some? && expectedContentRemaining.value != 0 {
        closed := true;
        return false;
      }
      ok := true;
      if chunkingOutput {
        Assoc(header, ChunkTexts(sent), LAST_CHUNK);
        ok := Write(LAST_CHUNK);
      }
      if ok {
        writeFinished := true;
      }
    }
  }

  // ----- the client -----

  datatype ReadState =
    | ReadNone | ReadFixedBody | ReadChunkLength | ReadChunkData | ReadChunkEnds | ReadLastChunkEnds | ReadUntilClose

  datatype Decoder = Decoder(state: ReadState, bytesRead: nat, bytesToRead: nat, totalSize: nat, chunks: seq<bytes>,
                             finished: bool, failed: bool)

  const START: Decoder := Decoder(ReadChunkLength, 0, 0, 0, [], false, false)

  function LineRequest(): Request { AskUntil(CRLF, 64) }

  /** A body of the length that Content-Length announced. */
  function FixedStart(n: nat): Decoder {
    if n == 0 then START.(state := ReadNone, finished := true) else START.(state := ReadFixedBody, bytesToRead := n)
  }

  /** A body that lasts until the connection is closed. */
  const CLOSE_START: Decoder := START.(state := ReadUntilClose)

  function FixedRequest(n: nat): Request { if n == 0 then Nothing else AskBytes(Min(BLOCK, n)) }

  /** onDataReceived. */
  function Received(d: Decoder, data: bytes): Decoder {
    d.(bytesRead := d.bytesRead + |data|, totalSize := d.totalSize + |data|, chunks := d.chunks + [data])
  }

  function Finished(d: Decoder): Reply<Decoder> { Reply(d.(state := ReadNone, finished := true), Nothing, false) }

  /** onDataRead as a function. An exception is caught by the connection: no further request is made. */
  function React(maxBodySize: nat, d: Decoder, data: bytes): Reply<Decoder> {
    match d.state
    case ReadChunkLength =>
      (match Stoul(TrimRight(TrimLeft(data)))
       case None => Reply(d.(failed := true), Nothing, false)
       case Some(n) =>
         if n == 0 then Reply(d.(state := ReadLastChunkEnds), AskBytes(2), false)
         else if (n + d.totalSize) % TWO64 > maxBodySize then Reply(d.(failed := true), Nothing, false)
         else Reply(d.(state := ReadChunkData, bytesRead := 0, bytesToRead := n), AskBytes(Min(BLOCK, n)), false))
    case ReadFixedBody =>
      var e := Received(d, data);
      if e.bytesRead < e.bytesToRead then Reply(e, AskBytes(Min(BLOCK, e.bytesToRead)), false) else Finished(e)
    case ReadChunkData =>
      var e := Received(d, data);
      if e.bytesRead < e.bytesToRead then Reply(e, AskBytes(Min(BLOCK, e.bytesToRead)), false)
      else Reply(e.(state := ReadChunkEnds), AskBytes(2), false)
    case ReadChunkEnds =>
      if data == CRLF then Reply(d.(state := ReadChunkLength), LineRequest(), false)
      else Reply(d.(failed := true), Nothing, false)
    case ReadLastChunkEnds =>
      if data == CRLF then Finished(d) else Reply(d.(failed := true), Nothing, false)
    case ReadUntilClose => Finished(Received(d, data))
    case ReadNone => Reply(d.(failed := true), Nothing, false)
  }

  class HTTPClientConnection {
    const maxBodySize: nat
    var state: ReadState
    var bytesRead: nat
    var bytesToRead: nat
    var totalSize: nat
    var chunks: seq<bytes>
    var finished: bool
    var failed: bool
    var request: Request // the read issued by the last handler

    constructor (maxBodySize: nat)
      ensures this.maxBodySize == maxBodySize && View() == START && request == LineRequest()
    {
      this.maxBodySize := maxBodySize;
      state, bytesRead, bytesToRead, totalSize, chunks := ReadChunkLength, 0, 0, 0, [];
      finished, failed, request := false, false, LineRequest();
    }

    /** readFixedBody, after the headers. */
    constructor Fixed(maxBodySize: nat, contentLength: nat)
      ensures this.maxBodySize == maxBodySize
      ensures View() == FixedStart(contentLength) && request == FixedRequest(contentLength)
    {
      this.maxBodySize := maxBodySize;
      state, bytesRead, bytesToRead, totalSize, chunks := ReadChunkLength, 0, 0, 0, [];
      finished, failed, request := false, false, Nothing;
      new;
      if contentLength != 0 {
        bytesToRead := contentLength;
        ReadFixedBodyBlock();
      } else {
        Finish();
      }
    }

    /** The end of readBody, for a response with neither Content-Length nor chunked coding. */
    constructor UntilClose(maxBodySize: nat)
      ensures this.maxBodySize == maxBodySize && View() == CLOSE_START && request == AskUntilClose
    {
      this.maxBodySize := maxBodySize;
      state, bytesRead, bytesToRead, totalSize, chunks := ReadUntilClose, 0, 0, 0, [];
      finished, failed, request := false, false, AskUntilClose;
    }

    function View(): Decoder
      reads this
    {
      Decoder(state, bytesRead, bytesToRead, totalSize, chunks, finished, failed)
    }

    method ReadFixedBodyBlock()
      modifies `state, `request
      ensures state == ReadFixedBody && request == AskBytes(Min(BLOCK, bytesToRead))
    {
      state := ReadFixedBody;
      request := AskBytes(Min(BLOCK, bytesToRead));
    }

    method Finish()
      modifies `state, `finished
      ensures state == ReadNone && finished
    {
      state := ReadNone;
      finished := true;
    }

    method ReadChunkDataBlock()
      modifies `state, `request
      ensures state == ReadChunkData && request == AskBytes(Min(BLOCK, bytesToRead))
    {
      state := ReadChunkData;
      request := AskBytes(Min(BLOCK, bytesToRead));
    }

    method OnChunkLength(data: bytes) returns (ok: bool)
      requires state == ReadChunkLength && request == Nothing
      modifies this
      ensures var r := React(maxBodySize, old(View()), data);
        request == r.next && View() == if ok then r.state else old(View())
      ensures !ok ==> React(maxBodySize, old(View()), data) == Reply(old(View()).(failed := true), Nothing, false)
    {
      hide Stoul, TrimLeft, TrimRight;
      var length := Stoul(TrimRight(TrimLeft(data)));
      if length.None? {
        return false;
      }
      var chunkLen := length.value;
      if chunkLen == 0 {
        state := ReadLastChunkEnds;
        request := AskBytes(2);
      } else {
        if (chunkLen + totalSize) % TWO64 > maxBodySize {
          return false;
        }
        bytesRead := 0;
        bytesToRead := chunkLen;
        ReadChunkDataBlock();
      }
      ok := true;
    }

    method OnDataReceived(data: bytes)
      modifies `bytesRead, `totalSize, `chunks
      ensures bytesRead == old(bytesRead) + |data| && totalSize == old(totalSize) + |data|
      ensures chunks == old(chunks) + [data]
    {
      bytesRead := bytesRead + |data|;
      totalSize := totalSize + |data|;
      chunks := chunks + [data];
    }

    method OnFixedBody(data: bytes)
      requires state == ReadFixedBody && request == Nothing
      modifies this
      ensures var r := React(maxBodySize, old(View()), data); View() == r.state && request == r.next
    {
      OnDataReceived(data);
      if bytesRead < bytesToRead {
        ReadFixedBodyBlock();
      } else {
        Finish();
      }
    }

    method OnChunkData(data: bytes)
      requires state == ReadChunkData
      modifies this
      ensures var r := React(maxBodySize, old(View()), data); View() == r.state && request == r.next
    {
      OnDataReceived(data);
      if bytesRead < bytesToRead {
        ReadChunkDataBlock();
      } else {
        state := ReadChunkEnds;
        request := AskBytes(2);
      }
    }

    /** The handler of the stream: the class does what React says. */
    method OnDataRead(data: bytes)
      modifies this
      ensures var r := React(maxBodySize, old(View()), data); View() == r.state && request == r.next
    {
      hide Stoul, TrimLeft, TrimRight;
      var ok := true;
      request := Nothing;
      match state {
        case ReadFixedBody => OnFixedBody(data);
        case ReadChunkLength => ok := OnChunkLength(data);
        case ReadChunkData => OnChunkData(data);
        case ReadChunkEnds =>
          ok := data == CRLF;
          if ok {
            state := ReadChunkLength;
            request := LineRequest();
          }
        case ReadLastChunkEnds =>
          ok := data == CRLF;
          if ok {
            Finish();
          }
        case ReadUntilClose =>
          OnDataReceived(data);
          Finish();
        case ReadNone => ok := false;
      }
      if !ok {
        failed := true;
      }
    }
  }

  // ----- what was sent arrives -----

  function Client(maxBodySize: nat): (Decoder, bytes) -> Reply<Decoder> {
    (d, data) => React(maxBodySize, d, data)
  }

  /** Waiting for a length line. */
  function AtLine(d: Decoder): Config<Decoder> { Config(d, Delimiter(CRLF), Some(64)) }

  /** The bytes taken as the data of a chunk of n bytes, after some. Each block is as long as the first. */
  function Taken(n: nat, read: nat): (k: nat)
    requires 0 < n && read < n
    ensures n <= k
    decreases n - read
  {
    var next := read + Min(BLOCK, n);
    if next < n then Taken(n, next) else next
  }

  lemma {:induction false} TakenBlocks(n: nat, read: nat)
    requires BLOCK < n && read < n && read % BLOCK == 0
    ensures Taken(n, read) == n <==> n % BLOCK == 0
    decreases n - read
  {
    var next := read + BLOCK;
    assert next % BLOCK == 0;
    if next < n { TakenBlocks(n, next); }
  }

  /** The client takes exactly the bytes of a chunk if and only if the chunk fits one block or is made of
      whole blocks. Otherwise it runs over into what follows. */
  lemma {:induction false} TakenExact(n: nat)
    requires n > 0
    ensures Taken(n, 0) == n <==> n <= BLOCK || n % BLOCK == 0
  {
    if n > BLOCK { TakenBlocks(n, 0); }
  }

  predicate Exact(c: bytes) { |c| <= 65535 || |c| % 65535 == 0 }

  /** A length line is one step. */
  lemma {:induction false} LineStep(max: nat, r: Run<Decoder>, n: nat, t: bytes)
    requires r.config == AtLine(r.config.app) && r.config.app.state == ReadChunkLength
    requires n < TWO64 && r.rest == Hex(n) + CRLF + t
    ensures var line := Hex(n) + CRLF; var reply := React(max, r.config.app, line);
      && Stoul(TrimRight(TrimLeft(line))) == Some(n)
      && Serve(Client(max), r)
        == Some(Run(r.delivered + [line], Ask(Config(reply.state, Idle, Some(64)), reply.next), t))
  {
    hide Hex, Stoul, TrimLeft, TrimRight;
    LineRoundTrip(n, t);
    HexIsDigits(n);
    var line := Hex(n) + CRLF;
    assert r.rest[..|line|] == line && r.rest[|line|..] == t;
    var reply := React(max, r.config.app, line);
    assert Client(max)(r.config.app, line) == reply;
  }

  /** A read of a number of bytes that are there is one step. */
  lemma {:induction false} CountStep(max: nat, r: Run<Decoder>, data: bytes, t: bytes)
    requires r.config.want == Count(|data|) && r.rest == data + t
    requires r.config.app.state != ReadChunkLength
    ensures var reply := React(max, r.config.app, data);
      Serve(Client(max), r)
        == Some(Run(r.delivered + [data], Ask(Config(reply.state, Idle, r.config.max), reply.next), t))
  {
    assert r.rest[..|data|] == data && r.rest[|data|..] == t;
    var reply := React(max, r.config.app, data);
    assert Client(max)(r.config.app, data) == reply;
  }

  lemma {:induction false} OneStep<A>(react: (A, bytes) -> Reply<A>, r: Run<A>)
    ensures ServeMany(react, r, 1) == Serve(react, r)
  {
    assert ServeMany(react, r, 0) == Some(r);
  }

  predicate ReadsBlocks(d: Decoder) { d.state == ReadChunkData || d.state == ReadFixedBody }

  /** What a client that has its last block does next. */
  function AfterBlocks(d: Decoder, state: ReadState, m: Option<nat>): Config<Decoder> {
    if state == ReadFixedBody then Config(d.(state := ReadNone, finished := true), Idle, m)
    else Config(d.(state := ReadChunkEnds), Count(2), m)
  }

  /** One block of a body or of a chunk. */
  lemma {:induction false} BlockStep(max: nat, r: Run<Decoder>, data: bytes, t: bytes)
    returns (q: Run<Decoder>)
    requires var d := r.config.app;
      && ReadsBlocks(d) && |data| == Min(BLOCK, d.bytesToRead)
      && r.config.want == Count(|data|) && r.rest == data + t
    ensures ServeMany(Client(max), r, 1) == Some(q) && q.rest == t
    ensures var d, e := r.config.app, Received(r.config.app, data);
      q.config == if e.bytesRead < e.bytesToRead then Config(e, Count(|data|), r.config.max)
                  else AfterBlocks(e, d.state, r.config.max)
    ensures Flatten(q.config.app.chunks) == Flatten(r.config.app.chunks) + data
  {
    hide Serve, Flatten;
    CountStep(max, r, data, t);
    OneStep(Client(max), r);
    q := Serve(Client(max), r).value;
    FlattenLast(r.config.app.chunks, data);
  }

  /** From one block of a body or of a chunk to the end of its data. */
  lemma {:induction false} BlocksDecode(max: nat, r: Run<Decoder>, left: bytes, t: bytes)
    returns (k: nat, q: Run<Decoder>)
    requires var d := r.config.app;
      && ReadsBlocks(d) && d.bytesRead < d.bytesToRead
      && |left| == Taken(d.bytesToRead, d.bytesRead) - d.bytesRead
      && r.config.want == Count(Min(BLOCK, d.bytesToRead)) && r.rest == left + t
    ensures ServeMany(Client(max), r, k) == Some(q)
    ensures var d, e := r.config.app, q.config.app;
      && q.rest == t && q.config == AfterBlocks(e, d.state, r.config.max)
      && Flatten(e.chunks) == Flatten(d.chunks) + left && e.totalSize == d.totalSize + |left|
      && e.failed == d.failed && (d.state == ReadChunkData ==> e.finished == d.finished)
    decreases |left|
  {
    hide ServeMany, React, Flatten;
    var d := r.config.app;
    var block := Min(BLOCK, d.bytesToRead);
    var data, more := left[..block], left[block..];
    assert left == data + more;
    Assoc(data, more, t);
    var p := BlockStep(max, r, data, more + t);
    if d.bytesRead + block < d.bytesToRead {
      var j;
      j, q := BlocksDecode(max, p, more, t);
      Assoc(Flatten(d.chunks), data, more);
      ServeSum(Client(max), r, 1, j);
      k := 1 + j;
    } else {
      assert more == [] && [] + t == t && data == left;
      k, q := 1, p;
    }
  }

  /** The client has read the chunk c and waits for the next length line, with t still to come. */
  predicate ChunkRead(d: Decoder, c: bytes, t: bytes, q: Run<Decoder>) {
    var e := q.config.app;
    && q.rest == t && q.config == AtLine(e) && e.state == ReadChunkLength
    && Flatten(e.chunks) == Flatten(d.chunks) + c && e.totalSize == d.totalSize + |c| && e.failed == d.failed
  }

  /** A chunk that fits is read. */
  lemma {:induction false} ChunkDecode(max: nat, r: Run<Decoder>, c: bytes, t: bytes)
    returns (k: nat, q: Run<Decoder>)
    requires var d := r.config.app;
      && r.config == AtLine(d) && d.state == ReadChunkLength && r.rest == ChunkText(c) + t
      && c != [] && Exact(c) && d.totalSize + |c| <= max < TWO64
    ensures ServeMany(Client(max), r, k) == Some(q)
    ensures ChunkRead(r.config.app, c, t, q)
  {
    hide Serve, Hex, Stoul, TrimLeft, TrimRight, Taken;
    var n := |c|;
    assert ChunkText(c) + t == Hex(n) + CRLF + (c + (CRLF + t));
    LineStep(max, r, n, c + (CRLF + t));
    OneStep(Client(max), r);
    var p := Serve(Client(max), r).value;
    TakenExact(n);
    var j, b := BlocksDecode(max, p, c, CRLF + t);
    ServeSum(Client(max), r, 1, j);
    CountStep(max, b, CRLF, t);
    ServeSum(Client(max), r, 1 + j, 1);
    OneStep(Client(max), b);
    k, q := 2 + j, Serve(Client(max), b).value;
  }

  // ----- what is refused -----

  /** The client has failed, asks for nothing more, and has what it had. */
  predicate GivenUp(had: bytes, q: Run<Decoder>) {
    var e := q.config.app;
    e.failed && !e.finished && q.config.want == Idle && Flatten(e.chunks) == had
  }

  /** A chunk must end with a line end. */
  lemma {:induction false} BadEndFails(max: nat, r: Run<Decoder>, c: bytes, x: bytes, t: bytes)
    returns (k: nat, q: Run<Decoder>)
    requires var d := r.config.app;
      && r.config == AtLine(d) && d.state == ReadChunkLength && !d.finished && d.totalSize + |c| <= max < TWO64
      && r.rest == Hex(|c|) + CRLF + (c + (x + t)) && c != [] && Exact(c)
    requires |x| == 2 && x != [13, 10]
    ensures ServeMany(Client(max), r, k) == Some(q) && GivenUp(Flatten(r.config.app.chunks) + c, q)
  {
    hide Serve, Hex, Stoul, TrimLeft, TrimRight, Taken;
    LineStep(max, r, |c|, c + (x + t));
    OneStep(Client(max), r);
    var p := Serve(Client(max), r).value;
    TakenExact(|c|);
    var j, b := BlocksDecode(max, p, c, x + t);
    ServeSum(Client(max), r, 1, j);
    CountStep(max, b, x, t);
    ServeSum(Client(max), r, 1 + j, 1);
    OneStep(Client(max), b);
    k, q := 2 + j, Serve(Client(max), b).value;
  }

  /** So must the last chunk. */
  lemma {:induction false} BadLastEndFails(max: nat, r: Run<Decoder>, x: bytes, t: bytes)
    returns (q: Run<Decoder>)
    requires var d := r.config.app;
      && r.config == AtLine(d) && d.state == ReadChunkLength && !d.finished
      && r.rest == [48] + CRLF + (x + t)
    requires |x| == 2 && x != [13, 10]
    ensures ServeMany(Client(max), r, 2) == Some(q) && GivenUp(Flatten(r.config.app.chunks), q)
  {
    hide Serve, Stoul, TrimLeft, TrimRight;
    LineStep(max, r, 0, x + t);
    OneStep(Client(max), r);
    var p := Serve(Client(max), r).value;
    CountStep(max, p, x, t);
    OneStep(Client(max), p);
    ServeSum(Client(max), r, 1, 1);
    q := Serve(Client(max), p).value;
  }

  /** A chunk is refused at its length line if and only if with it the body would be longer than allowed; the sum
      is that of 64-bit integers. */
  lemma {:induction false} TooLongFails(max: nat, r: Run<Decoder>, n: nat, t: bytes)
    requires var d := r.config.app;
      && r.config == AtLine(d) && d.state == ReadChunkLength && !d.finished && !d.failed
      && 0 < n < TWO64 && r.rest == Hex(n) + CRLF + t
    ensures var q := Serve(Client(max), r); var d := r.config.app;
      q.Some? && (GivenUp(Flatten(d.chunks), q.value) <==> (d.totalSize + n) % 0x1_0000_0000_0000_0000 > max)
  {
    hide Serve, Hex, Stoul, TrimLeft, TrimRight;
    LineStep(max, r, n, t);
  }

  /** A length line that does not start like a number. */
  lemma {:induction false} BadLineFails(max: nat, r: Run<Decoder>, line: bytes, t: bytes)
    requires var d := r.config.app;
      && r.config == AtLine(d) && d.state == ReadChunkLength && !d.finished
      && r.rest == line + CRLF + t && First(r.rest, CRLF) == Some(|line|) && |line| <= 62
    requires line == [] || (!Blank(line[0]) && line[0] !in {43, 45} && HexValue(line[0]) == None)
    ensures var q := Serve(Client(max), r);
      q.Some? && q.value.rest == t && GivenUp(Flatten(r.config.app.chunks), q.value)
  {
    hide First;
    NoNumber(line);
    var text := line + CRLF;
    assert r.rest[..|text|] == text && r.rest[|text|..] == t;
    assert Client(max)(r.config.app, text) == React(max, r.config.app, text);
  }

  lemma {:induction false} NoNumber(line: bytes)
    requires line == [] || (!Blank(line[0]) && line[0] !in {43, 45} && HexValue(line[0]) == None)
    ensures Stoul(TrimRight(TrimLeft(line + CRLF))) == None
  {
    if line == [] {
      assert line + CRLF == CRLF && CRLF[1..] == [10] && [10][1..] == [];
      assert TrimLeft(CRLF) == TrimLeft([10]) == TrimLeft([]) == [];
    } else {
      TrimRightKeepsFirst(line + CRLF);
    }
  }

  lemma {:induction false} TrimRightKeepsFirst(t: bytes)
    requires t != [] && !Blank(t[0])
    ensures TrimRight(t) != [] && TrimRight(t)[0] == t[0]
  {
    if Blank(t[|t| - 1]) { TrimRightKeepsFirst(t[..|t| - 1]); }
  }

  /** A client that reads n bytes in blocks that do not make up n: it still has whole blocks and wants another
      one, or it has too much. It had before bytes at first, and left more to come. */
  predicate RunsOver(n: nat, state: ReadState, before: nat, left: nat, q: Run<Decoder>) {
    var d := q.config.app;
    var gained := |Flatten(d.chunks)| - before;
    && gained + |q.rest| <= left
    && (gained > n
        || (d.state == state && d.bytesToRead == n && gained == d.bytesRead < n && d.bytesRead % BLOCK == 0
            && (state == ReadFixedBody ==> !d.finished) && q.config.want == Count(BLOCK)))
  }

  lemma {:induction false} RunsOverStep(max: nat, n: nat, state: ReadState, before: nat, left: nat, q: Run<Decoder>)
    requires BLOCK < n && n % BLOCK != 0 && (state == ReadChunkData || state == ReadFixedBody)
    requires RunsOver(n, state, before, left, q) && Serve(Client(max), q).Some?
    ensures RunsOver(n, state, before, left, Serve(Client(max), q).value)
  {
    hide Flatten, Stoul, TrimLeft, TrimRight, Unsatisfiable;
    var size := Ready(q.config.want, q.rest, false).value;
    var data := q.rest[..size];
    var d := q.config.app;
    assert Client(max)(d, data) == React(max, d, data);
    FlattenLast(d.chunks, data);
  }

  lemma {:induction false} RunsOverAlways(max: nat, n: nat, state: ReadState, before: nat, left: nat,
                                          q: Run<Decoder>, k: nat)
    requires BLOCK < n && n % BLOCK != 0 && (state == ReadChunkData || state == ReadFixedBody)
    requires RunsOver(n, state, before, left, q) && ServeMany(Client(max), q, k).Some?
    ensures RunsOver(n, state, before, left, ServeMany(Client(max), q, k).value)
  {
    hide Serve, RunsOver;
    if k > 0 {
      RunsOverAlways(max, n, state, before, left, q, k - 1);
      RunsOverStep(max, n, state, before, left, ServeMany(Client(max), q, k - 1).value);
    }
  }

  /** From a length line the client gets to the next one with exactly this chunk, and what follows it still
      unread, if and only if the chunk fits one block or is made of whole blocks. */
  lemma {:induction false} ChunkReadExactly(max: nat, r: Run<Decoder>, c: bytes, t: bytes)
    requires var d := r.config.app;
      && r.config == AtLine(d) && d.state == ReadChunkLength && r.rest == ChunkText(c) + t
      && c != [] && d.totalSize + |c| <= max < TWO64
    ensures (exists k: nat :: ServeMany(Client(max), r, k).Some?
                              && ChunkRead(r.config.app, c, t, ServeMany(Client(max), r, k).value))
      <==> Exact(c)
  {
    hide ServeMany, ChunkText, ChunkRead;
    var d := r.config.app;
    if Exact(c) {
      var k, q := ChunkDecode(max, r, c, t);
    } else {
      forall k: nat | ServeMany(Client(max), r, k).Some?
        ensures !ChunkRead(d, c, t, ServeMany(Client(max), r, k).value)
      {
        NeverExact(max, r, c, t, k);
      }
    }
  }

  lemma {:induction false} NeverExact(max: nat, r: Run<Decoder>, c: bytes, t: bytes, k: nat)
    requires var d := r.config.app;
      && r.config == AtLine(d) && d.state == ReadChunkLength && r.rest == ChunkText(c) + t
      && c != [] && !Exact(c) && d.totalSize + |c| <= max < TWO64 && ServeMany(Client(max), r, k).Some?
    ensures !ChunkRead(r.config.app, c, t, ServeMany(Client(max), r, k).value)
  {
    hide Serve, Hex, Stoul, TrimLeft, TrimRight, Flatten;
    var n, before := |c|, |Flatten(r.config.app.chunks)|;
    if k > 0 {
      assert ChunkText(c) + t == Hex(n) + CRLF + (c + (CRLF + t));
      LineStep(max, r, n, c + (CRLF + t));
      OneStep(Client(max), r);
      var p := Serve(Client(max), r).value;
      assert RunsOver(n, ReadChunkData, before, |p.rest|, p);
      ServeSum(Client(max), r, 1, k - 1);
      RunsOverAlways(max, n, ReadChunkData, before, |p.rest|, p, k - 1);
    }
  }

  // ----- bodies of an announced length -----

  /** Waiting for the first block of a body of n bytes. */
  function AtBody(n: nat, m: Option<nat>): Config<Decoder> { Ask(Config(FixedStart(n), Idle, m), FixedRequest(n)) }

  predicate BodyRead(body: bytes, t: bytes, q: Run<Decoder>) {
    q.config.app.finished && q.config.want == Idle && q.rest == t && Flatten(q.config.app.chunks) == body
  }

  lemma {:induction false} EmptyBody(max: nat, m: Option<nat>, t: bytes)
    ensures var r := Run([], AtBody(0, m), t); ServeMany(Client(max), r, 0) == Some(r) && BodyRead([], t, r)
  {
  }

  lemma {:induction false} FixedDecode(max: nat, body: bytes, m: Option<nat>, t: bytes)
    returns (k: nat, q: Run<Decoder>)
    requires Exact(body)
    ensures ServeMany(Client(max), Run([], AtBody(|body|, m), body + t), k) == Some(q) && BodyRead(body, t, q)
    ensures q.config == AfterBlocks(q.config.app, ReadFixedBody, m)
  {
    hide Serve, Taken;
    var r := Run([], AtBody(|body|, m), body + t);
    if body == [] {
      assert [] + t == t;
      EmptyBody(max, m, t);
      k, q := 0, r;
    } else {
      TakenExact(|body|);
      k, q := BlocksDecode(max, r, body, t);
      assert Flatten([]) + body == body;
    }
  }

  /** While a body that does not fit is read, the client never has exactly the body; and it does not finish
      with no more than the body. */
  lemma {:induction false} FixedNeverExact(max: nat, body: bytes, m: Option<nat>, t: bytes, k: nat)
    requires !Exact(body)
    requires var r := Run([], AtBody(|body|, m), body + t); ServeMany(Client(max), r, k).Some?
    ensures var q := ServeMany(Client(max), Run([], AtBody(|body|, m), body + t), k).value;
      !BodyRead(body, t, q) && (t == [] ==> !q.config.app.finished && q.config.want.Count?)
  {
    hide Serve, ServeMany;
    var n := |body|;
    var r := Run([], AtBody(n, m), body + t);
    assert Flatten(r.config.app.chunks) == [];
    assert RunsOver(n, ReadFixedBody, 0, n + |t|, r);
    RunsOverAlways(max, n, ReadFixedBody, 0, n + |t|, r, k);
  }

  /** The client gets exactly the body, with what follows it still unread, if and only if the body fits one
      block or is made of whole blocks. */
  lemma {:induction false} FixedReadExactly(max: nat, body: bytes, m: Option<nat>, t: bytes)
    ensures (exists k: nat :: var r := ServeMany(Client(max), Run([], AtBody(|body|, m), body + t), k);
                              r.Some? && BodyRead(body, t, r.value))
      <==> Exact(body)
  {
    hide ServeMany, BodyRead;
    if Exact(body) {
      var k, q := FixedDecode(max, body, m, t);
    } else {
      forall k: nat | ServeMany(Client(max), Run([], AtBody(|body|, m), body + t), k).Some?
        ensures !BodyRead(body, t, ServeMany(Client(max), Run([], AtBody(|body|, m), body + t), k).value)
      {
        FixedNeverExact(max, body, m, t, k);
      }
    }
  }

  /** The rest of a body, from a length line to the end. */
  lemma {:induction false} BodyDecode(max: nat, r: Run<Decoder>, cs: seq<bytes>, t: bytes)
    returns (k: nat, q: Run<Decoder>)
    requires var d := r.config.app;
      && r.config == AtLine(d) && d.state == ReadChunkLength && r.rest == ChunkTexts(cs) + (LAST_CHUNK + t)
      && (forall i :: 0 <= i < |cs| ==> Exact(cs[i])) && d.totalSize + |Flatten(cs)| <= max < TWO64
    ensures ServeMany(Client(max), r, k) == Some(q)
    ensures var d, e := r.config.app, q.config.app;
      && q.rest == t && q.config.want == Idle && e.finished && e.failed == d.failed
      && Flatten(e.chunks) == Flatten(d.chunks) + Flatten(cs)
    decreases |cs|
  {
    hide Serve, ChunkText, Exact;
    var d := r.config.app;
    if cs == [] {
      NoChunks();
      assert [] + (LAST_CHUNK + t) == Hex(0) + CRLF + (CRLF + t);
      LineStep(max, r, 0, CRLF + t);
      OneStep(Client(max), r);
      var p := Serve(Client(max), r).value;
      CountStep(max, p, CRLF, t);
      OneStep(Client(max), p);
      ServeSum(Client(max), r, 1, 1);
      k, q := 2, Serve(Client(max), p).value;
    } else {
      var c, rest := cs[0], ChunkTexts(cs[1..]) + (LAST_CHUNK + t);
      Assoc(ChunkText(c), ChunkTexts(cs[1..]), LAST_CHUNK + t);
      if c == [] {
        EmptyChunk();
        assert [] + rest == rest && [] + Flatten(cs[1..]) == Flatten(cs[1..]);
        k, q := BodyDecode(max, r, cs[1..], t);
      } else {
        var j, p := ChunkDecode(max, r, c, rest);
        var i;
        i, q := BodyDecode(max, p, cs[1..], t);
        ServeSum(Client(max), r, j, i);
        Assoc(Flatten(d.chunks), c, Flatten(cs[1..]));
        k := j + i;
      }
    }
  }

  lemma {:induction false} NoChunks()
    ensures ChunkTexts([]) == [] && Flatten([]) == [] && forall s: bytes :: s + [] == s
  {
  }

  lemma {:induction false} EmptyChunk()
    ensures ChunkText([]) == []
  {
  }

  /** Whatever chunks the server wrote before finishing, and however the bytes were cut on their way, the
      client has the concatenation of the chunks when no wake-up is outstanding. */
  lemma {:induction false} ChunkedBodyArrives(s: IOStream<Decoder>, max: nat, cs: seq<bytes>)
    requires s.Inv() && s.react == Client(max) && s.first == AtLine(START)
    requires s.received == ChunkedBody(cs) && !s.Overfull() && !s.disconnected && s.posted == 0
    requires forall i :: 0 <= i < |cs| ==> Exact(cs[i])
    requires |Flatten(cs)| <= max < TWO64
    ensures !s.failed && s.app.finished && !s.app.failed
    ensures Flatten(s.app.chunks) == Flatten(cs) && s.Buffered() == []
  {
    hide Serve, Exact, Doomed, ServeMany;
    var r := Run([], s.first, s.received);
    NoChunks();
    assert LAST_CHUNK + [] == LAST_CHUNK;
    var k, q := BodyDecode(max, r, cs, []);
    assert Flatten(q.config.app.chunks) == [] + Flatten(cs) == Flatten(cs);
    IdleEnds(s.react, q);
    if s.failed {
      var j :| After(s.react, s.first, s.received, j).Some?
        && Doomed(s.react, After(s.react, s.first, s.received, j).value);
      DoomedEnds(s.react, After(s.react, s.first, s.received, j).value);
      EndsOnce(s.react, s.first, s.received, j, k);
    } else {
      Stuck(s);
      EndsOnce(s.react, s.first, s.received, |s.delivered|, k);
    }
  }

  // ----- a chunk that does not fit spoils the body -----

  /** What was received is never taken back. */
  lemma {:induction false} ChunksGrow(max: nat, q: Run<Decoder>, x: bytes)
    requires x <= Flatten(q.config.app.chunks) && Serve(Client(max), q).Some?
    ensures x <= Flatten(Serve(Client(max), q).value.config.app.chunks)
  {
    hide Flatten, Stoul, TrimLeft, TrimRight, Unsatisfiable;
    var data := q.rest[..Ready(q.config.want, q.rest, false).value];
    var d := q.config.app;
    assert Client(max)(d, data) == React(max, d, data);
    FlattenLast(d.chunks, data);
  }

  lemma {:induction false} ChunksStay(max: nat, q: Run<Decoder>, x: bytes, k: nat)
    requires x <= Flatten(q.config.app.chunks) && ServeMany(Client(max), q, k).Some?
    ensures x <= Flatten(ServeMany(Client(max), q, k).value.config.app.chunks)
  {
    hide Serve, Flatten;
    if k > 0 {
      ChunksStay(max, q, x, k - 1);
      ChunksGrow(max, ServeMany(Client(max), q, k - 1).value, x);
    }
  }

  /** Reading the data of c in blocks that do not make it up, after some bytes and before some others: whole
      blocks of it so far, or all of it and a carriage return. */
  ghost predicate Spoils(before: bytes, c: bytes, t: bytes, q: Run<Decoder>) {
    var d := q.config.app;
    before + c + [13] <= Flatten(d.chunks)
    || (d.state == ReadChunkData && d.bytesToRead == |c| && d.bytesRead < |c| && d.bytesRead % BLOCK == 0
        && q.config.want == Count(BLOCK) && Flatten(d.chunks) == before + c[..d.bytesRead]
        && q.rest == c[d.bytesRead..] + (CRLF + t))
  }

  lemma {:induction false} NextBlock(before: bytes, c: bytes, t: bytes, g: nat, data: bytes, rest: bytes)
    requires BLOCK < |c| && |c| % BLOCK != 0 && g < |c| && g % BLOCK == 0
    requires |data| == BLOCK && data + rest == c[g..] + (CRLF + t)
    ensures g + BLOCK < |c| ==> data == c[g..g + BLOCK] && rest == c[g + BLOCK..] + (CRLF + t)
    ensures g + BLOCK < |c| ==> before + c[..g] + data == before + c[..g + BLOCK]
    ensures g + BLOCK != |c|
    ensures g + BLOCK > |c| ==> before + c + [13] <= before + c[..g] + data
  {
    var s := c[g..] + (CRLF + t);
    assert data == s[..BLOCK] && rest == s[BLOCK..];
    if g + BLOCK > |c| {
      var m := |c| - g;
      assert data[..m] == c[g..] && data[m] == 13;
      assert before + c + [13] == (before + c[..g] + data)[..|before| + |c| + 1];
    }
  }

  lemma {:induction false} SpoilsStep(max: nat, before: bytes, c: bytes, t: bytes, q: Run<Decoder>)
    requires BLOCK < |c| && |c| % BLOCK != 0 && Spoils(before, c, t, q) && Serve(Client(max), q).Some?
    ensures Spoils(before, c, t, Serve(Client(max), q).value)
  {
    hide Flatten, Stoul, TrimLeft, TrimRight;
    var d := q.config.app;
    if before + c + [13] <= Flatten(d.chunks) {
      ChunksGrow(max, q, before + c + [13]);
    } else {
      var data, rest := q.rest[..BLOCK], q.rest[BLOCK..];
      assert Client(max)(d, data) == React(max, d, data);
      FlattenLast(d.chunks, data);
      NextBlock(before, c, t, d.bytesRead, data, rest);
    }
  }

  lemma {:induction false} SpoilsAlways(max: nat, before: bytes, c: bytes, t: bytes, q: Run<Decoder>, k: nat)
    requires BLOCK < |c| && |c| % BLOCK != 0 && Spoils(before, c, t, q) && ServeMany(Client(max), q, k).Some?
    ensures Spoils(before, c, t, ServeMany(Client(max), q, k).value)
  {
    hide Serve, Spoils;
    if k > 0 {
      SpoilsAlways(max, before, c, t, q, k - 1);
      SpoilsStep(max, before, c, t, ServeMany(Client(max), q, k - 1).value);
    }
  }

  predicate AllExact(cs: seq<bytes>) { forall i :: 0 <= i < |cs| ==> Exact(cs[i]) }

  /** No chunk begins with a carriage return. */
  predicate NoReturns(cs: seq<bytes>) { forall i :: 0 <= i < |cs| && cs[i] != [] ==> cs[i][0] != 13 }

  lemma {:induction false} FirstOfBody(cs: seq<bytes>)
    requires NoReturns(cs) && Flatten(cs) != []
    ensures Flatten(cs)[0] != 13
  {
    if cs[0] == [] {
      assert [] + Flatten(cs[1..]) == Flatten(cs[1..]);
      FirstOfBody(cs[1..]);
    }
  }

  lemma {:induction false} LaterNotExact(cs: seq<bytes>)
    requires !AllExact(cs) && Exact(cs[0])
    ensures !AllExact(cs[1..])
  {
    hide Exact;
    var i :| 0 <= i < |cs| && !Exact(cs[i]);
    assert cs[1..][i - 1] == cs[i];
  }

  lemma {:induction false} SomeBody(cs: seq<bytes>)
    requires !AllExact(cs)
    ensures Flatten(cs) != []
  {
    if Exact(cs[0]) {
      LaterNotExact(cs);
      SomeBody(cs[1..]);
    }
  }

  /** From the length line of a chunk that does not fit the client never has exactly the chunks to come. */
  lemma {:induction false} SpoiledNeverEqual(max: nat, r: Run<Decoder>, cs: seq<bytes>, t: bytes, k: nat)
    requires cs != [] && !Exact(cs[0]) && NoReturns(cs)
    requires var d := r.config.app;
      && r.config == AtLine(d) && d.state == ReadChunkLength && r.rest == ChunkText(cs[0]) + t
      && d.totalSize + |cs[0]| <= max < TWO64 && ServeMany(Client(max), r, k).Some?
    ensures Flatten(ServeMany(Client(max), r, k).value.config.app.chunks) != Flatten(r.config.app.chunks) + Flatten(cs)
  {
    hide Serve, Hex, Stoul, TrimLeft, TrimRight, Flatten;
    var c, before := cs[0], Flatten(r.config.app.chunks);
    FirstFlattened(cs);
    if k > 0 {
      assert ChunkText(c) + t == Hex(|c|) + CRLF + (c + (CRLF + t));
      LineStep(max, r, |c|, c + (CRLF + t));
      OneStep(Client(max), r);
      var p := Serve(Client(max), r).value;
      assert before + c[..0] == before && c[0..] == c;
      assert Spoils(before, c, t, p);
      ServeSum(Client(max), r, 1, k - 1);
      SpoilsAlways(max, before, c, t, p, k - 1);
      NotSpoiled(before, cs, t, ServeMany(Client(max), r, k).value);
    }
  }

  lemma {:induction false} FirstFlattened(cs: seq<bytes>)
    requires cs != []
    ensures Flatten(cs) == cs[0] + Flatten(cs[1..])
  {
  }

  lemma {:induction false} NotSpoiled(before: bytes, cs: seq<bytes>, t: bytes, q: Run<Decoder>)
    requires cs != [] && NoReturns(cs) && Spoils(before, cs[0], t, q)
    ensures Flatten(q.config.app.chunks) != before + Flatten(cs)
  {
    hide Flatten;
    FirstFlattened(cs);
    var c, later, x := cs[0], Flatten(cs[1..]), Flatten(q.config.app.chunks);
    if before + c + [13] <= x && x == before + Flatten(cs) {
      assert x[|before| + |c|] == 13;
      assert x[|before| + |c|] == later[0];
      assert NoReturns(cs[1..]);
      FirstOfBody(cs[1..]);
    }
  }

  /** With a chunk that does not fit among them the client never has exactly the chunks. */
  lemma {:induction false} NeverTheBody(max: nat, r: Run<Decoder>, cs: seq<bytes>, t: bytes, k: nat)
    requires !AllExact(cs) && NoReturns(cs)
    requires var d := r.config.app;
      && r.config == AtLine(d) && d.state == ReadChunkLength && r.rest == ChunkTexts(cs) + t
      && d.totalSize + |Flatten(cs)| <= max < TWO64 && ServeMany(Client(max), r, k).Some?
    ensures Flatten(ServeMany(Client(max), r, k).value.config.app.chunks) != Flatten(r.config.app.chunks) + Flatten(cs)
    decreases |cs|
  {
    hide Serve, ServeMany, ChunkText, Exact, Flatten;
    var d, c := r.config.app, cs[0];
    FirstFlattened(cs);
    Assoc(ChunkText(c), ChunkTexts(cs[1..]), t);
    if !Exact(c) {
      SpoiledNeverEqual(max, r, cs, ChunkTexts(cs[1..]) + t, k);
    } else {
      LaterNotExact(cs);
      assert NoReturns(cs[1..]);
      SomeBody(cs[1..]);
      if c == [] {
        EmptyChunk();
        assert [] + (ChunkTexts(cs[1..]) + t) == ChunkTexts(cs[1..]) + t;
        assert [] + Flatten(cs[1..]) == Flatten(cs[1..]);
        NeverTheBody(max, r, cs[1..], t, k);
      } else {
        var j, p := ChunkDecode(max, r, c, ChunkTexts(cs[1..]) + t);
        var x := Flatten(ServeMany(Client(max), r, k).value.config.app.chunks);
        if k < j {
          ServeSum(Client(max), r, k, j - k);
          ChunksStay(max, ServeMany(Client(max), r, k).value, x, j - k);
        } else {
          ServeSum(Client(max), r, j, k - j);
          NeverTheBody(max, p, cs[1..], t, k - j);
          Assoc(Flatten(d.chunks), c, Flatten(cs[1..]));
        }
      }
    }
  }

  /** When no chunk begins with a carriage return, the client has exactly the body in the end, however the bytes
      were cut, if and only if each chunk fits one block or is made of whole blocks. */
  lemma {:induction false} ChunkedBodyExactly(s: IOStream<Decoder>, max: nat, cs: seq<bytes>)
    requires s.Inv() && s.react == Client(max) && s.first == AtLine(START)
    requires s.received == ChunkedBody(cs) && !s.Overfull() && !s.disconnected && s.posted == 0
    requires NoReturns(cs) && |Flatten(cs)| <= max < TWO64
    ensures !s.failed && s.app.finished && Flatten(s.app.chunks) == Flatten(cs) <==> AllExact(cs)
  {
    hide Serve, Exact, ServeMany, ChunkTexts;
    if AllExact(cs) {
      ChunkedBodyArrives(s, max, cs);
    } else if !s.failed {
      Stuck(s);
      var r := Run([], s.first, s.received);
      assert Flatten(r.config.app.chunks) == [];
      assert [] + Flatten(cs) == Flatten(cs);
      NeverTheBody(max, r, cs, LAST_CHUNK, |s.delivered|);
    }
  }

  /** When a server has sent a body of the announced length and nothing else, and no wake-up is outstanding,
      the client has finished, with that body, if and only if it fits one block or is made of whole blocks;
      otherwise it waits for bytes that do not come, however those sent were cut. */
  lemma {:induction false} FixedBodyArrives(s: IOStream<Decoder>, max: nat, body: bytes, m: Option<nat>)
    requires s.Inv() && s.react == Client(max) && s.first == AtBody(|body|, m) && s.received == body
    requires !s.Overfull() && !s.disconnected && s.posted == 0
    ensures !s.failed && (s.app.finished <==> Exact(body))
    ensures Exact(body) ==> Flatten(s.app.chunks) == body
  {
    hide Serve, Exact, ServeMany, Doomed;
    assert body + [] == body;
    if s.failed {
      var j: nat :| After(s.react, s.first, s.received, j).Some?
        && Doomed(s.react, After(s.react, s.first, s.received, j).value);
      FixedNotDoomed(max, body, m, j);
    } else {
      Stuck(s);
      if Exact(body) {
        var k, q := FixedDecode(max, body, m, []);
        IdleEnds(s.react, q);
        EndsOnce(s.react, s.first, s.received, |s.delivered|, k);
      } else {
        FixedNeverExact(max, body, m, [], |s.delivered|);
      }
    }
  }

  function AtClose(m: Option<nat>): Config<Decoder> { Ask(Config(CLOSE_START, Idle, m), AskUntilClose) }

  /** While the connection lasts nothing is delivered: all the bytes are kept. */
  lemma {:induction false} UntilCloseWaits(s: IOStream<Decoder>, max: nat, m: Option<nat>)
    requires s.Inv() && s.react == Client(max) && s.first == AtClose(m) && !s.Overfull() && !s.disconnected
    ensures !s.failed && s.delivered == [] && s.Current() == AtClose(m) && s.Buffered() == s.received
  {
    NothingServed(max, AtClose(m), s.received, if s.failed then 0 else |s.delivered|);
    if s.failed {
      var k: nat :| After(s.react, s.first, s.received, k).Some?
        && Doomed(s.react, After(s.react, s.first, s.received, k).value);
      NothingServed(max, AtClose(m), s.received, k);
    }
  }

  lemma {:induction false} NothingServed(max: nat, c: Config<Decoder>, b: bytes, k: nat)
    requires c.want.Everything?
    ensures After(Client(max), c, b, k) == if k == 0 then Some(Run([], c, b)) else None
    ensures !Doomed(Client(max), Run([], c, b))
  {
    if k > 0 { NothingServed(max, c, b, k - 1); }
  }

  /** However the bytes were cut: when the connection is closed the client has finished, with exactly the bytes
      received as the body. */
  method UntilCloseArrives(s: IOStream<Decoder>, max: nat, body: bytes, m: Option<nat>)
    requires s.Inv() && s.react == Client(max) && s.first == AtClose(m) && s.received == body
    requires !s.Overfull() && !s.disconnected
    modifies s, s.readBuffer, s.readBuffer.storage
    ensures s.Inv() && s.disconnected && !s.failed
    ensures s.app.finished && !s.app.failed && Flatten(s.app.chunks) == body
  {
    UntilCloseWaits(s, max, m);
    assert Client(max)(CLOSE_START, body) == React(max, CLOSE_START, body);
    s.ConnectionLost();
    FlattenOne(body);
    assert [] + [body] == [body];
  }

  lemma {:induction false} FixedNotDoomed(max: nat, body: bytes, m: Option<nat>, j: nat)
    requires After(Client(max), AtBody(|body|, m), body, j).Some?
    ensures !Doomed(Client(max), After(Client(max), AtBody(|body|, m), body, j).value)
  {
    hide Serve, Exact, ServeMany, Doomed;
    assert body + [] == body;
    var p := After(Client(max), AtBody(|body|, m), body, j).value;
    if Doomed(Client(max), p) {
      if Exact(body) {
        var k, q := FixedDecode(max, body, m, []);
        IdleEnds(Client(max), q);
        DoomedEnds(Client(max), p);
        EndsOnce(Client(max), AtBody(|body|, m), body, j, k);
      } else {
        FixedNeverExact(max, body, m, [], j);
        CountNotDoomed(max, p);
      }
    }
  }

  lemma {:induction false} CountNotDoomed(max: nat, r: Run<Decoder>)
    requires r.config.want.Count?
    ensures !Doomed(Client(max), r)
  {
    hide Stoul, TrimLeft, TrimRight;
    var n := Ready(r.config.want, r.rest, false);
    if n.Some? { assert Client(max)(r.config.app, r.rest[..n.value]) == React(max, r.config.app, r.rest[..n.value]); }
  }

  lemma {:induction false} IdleEnds<A>(react: (A, bytes) -> Reply<A>, r: Run<A>)
    requires r.config.want == Idle
    ensures Serve(react, r).None? && !Doomed(react, r)
  {
  }

  lemma {:induction false} DoomedEnds<A>(react: (A, bytes) -> Reply<A>, r: Run<A>)
    requires Doomed(react, r)
    ensures Serve(react, r).None?
  {
  }
}
