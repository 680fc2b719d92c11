/**
  The five length-prefixed receivers of src/net4cxx/core/protocols/uintnreceiver.h.
*/
module Framing {
  import opened Basics
  import opened ByteConvert

  datatype Format = UInt8 | UInt8Ext | UInt16 | UInt16Ext | UInt32

  /** A receiver's template arguments, and the byte order of the machine. */
  datatype Wire = Wire(format: Format, order: ByteOrder, host: Endian)

  function Order(w: Wire): Endian { WireOrder(w.order, w.host) }

  /** The bytes before a message, and its length. */
  datatype Header = Header(size: nat, len: nat)

  /** The header at the start of a buffer, if all of it is there. The long lengths of the Ext forms are read
      in the order of the host: the result of their conversion is discarded. */
  function HeaderOf(w: Wire, b: bytes): (h: Option<Header>)
    ensures h.Some? ==> 1 <= h.value.size <= |b|
  {
    match w.format
    case UInt8 => if |b| < 1 then None else Some(Header(1, b[0]))
    case UInt16 => if |b| < 2 then None else Some(Header(2, Value(b[..2], Order(w))))
    case UInt32 => if |b| < 4 then None else Some(Header(4, Value(b[..4], Order(w))))
    case UInt8Ext =>
      if |b| < 1 then None
      else if b[0] < 0xFF then Some(Header(1, b[0]))
      else if |b| < 5 then None
      else Some(Header(5, Value(b[1..5], w.host)))
    case UInt16Ext =>
      if |b| < 2 then None
      else if Value(b[..2], Order(w)) != 0xFFFF then Some(Header(2, Value(b[..2], Order(w))))
      else if |b| < 6 then None
      else Some(Header(6, Value(b[2..6], w.host)))
  }

  predicate Complete(w: Wire, b: bytes) {
    HeaderOf(w, b).Some? && HeaderOf(w, b).value.size + HeaderOf(w, b).value.len <= |b|
  }

  function FrameSize(w: Wire, b: bytes): (n: nat)
    requires Complete(w, b)
    ensures 1 <= n <= |b|
  {
    HeaderOf(w, b).value.size + HeaderOf(w, b).value.len
  }

  function FirstMessage(w: Wire, b: bytes): bytes
    requires Complete(w, b)
  {
    b[HeaderOf(w, b).value.size..FrameSize(w, b)]
  }

  /** By how much the cursor moves: in the UInt32 form 4 + len is a sum of 32 bits. */
  function Advance(f: Format, size: nat, len: nat): (k: nat)
    ensures k <= size + len
  {
    if f.UInt32? then (size + len) % TWO32 else size + len
  }

  /** The length with which the cursor of the UInt32 form stays where it is. */
  predicate Stays(f: Format, len: nat) { f.UInt32? && len == TWO32 - 4 }

  /** The lengths with which the cursor moves to the end of the frame. */
  predicate Passes(f: Format, len: nat) { f.UInt32? ==> len < TWO32 - 4 }

  lemma {:induction false} AdvanceExact(f: Format, size: nat, len: nat)
    requires size >= 1 && (f.UInt32? ==> size == 4 && len < TWO32)
    ensures Advance(f, size, len) == size + len <==> Passes(f, len)
    ensures Advance(f, size, len) == 0 <==> Stays(f, len)
  {
  }

  function Moved(w: Wire, b: bytes): (k: nat)
    requires Complete(w, b)
    ensures k <= FrameSize(w, b)
  {
    Advance(w.format, HeaderOf(w, b).value.size, HeaderOf(w, b).value.len)
  }

  lemma {:induction false} FirstLength(w: Wire, b: bytes)
    requires Complete(w, b)
    ensures var m := FirstMessage(w, b);
      && (Moved(w, b) == FrameSize(w, b) <==> Passes(w.format, |m|))
      && (Moved(w, b) == 0 <==> Stays(w.format, |m|))
  {
    hide Bytes, Value;
    Widths();
    if w.format.UInt32? { ValueInverse(b[..4], Order(w)); }
    AdvanceExact(w.format, HeaderOf(w, b).value.size, HeaderOf(w, b).value.len);
  }

  /** Why a receiver stops delivering: it waits for more bytes, the handler threw, or never, because the
      cursor stays where it is and the last message is delivered over and over. */
  datatype End = Waiting | Threw | Forever

  /** What a receiver makes of a buffer: the messages, the bytes left, and how it ends. */
  datatype Delivery = Delivery(messages: seq<bytes>, rest: bytes, end: End)

  /** Delivery stops at the first message that makes the handler throw. */
  ghost function Deliver(w: Wire, throws: bytes -> bool, b: bytes): (d: Delivery)
    ensures |d.rest| <= |b|
    decreases |b|
  {
    if !Complete(w, b) then Delivery([], b, Waiting)
    else
      var m, k := FirstMessage(w, b), Moved(w, b);
      if throws(m) then Delivery([m], b[k..], Threw)
      else if k == 0 then Delivery([m], b, Forever)
      else
        var d := Deliver(w, throws, b[k..]);
        Delivery([m] + d.messages, d.rest, d.end)
  }

  function Never(): bytes -> bool { m => false }

  /** With a handler that never throws. */
  ghost function Frames(w: Wire, b: bytes): Delivery { Deliver(w, Never(), b) }

  // ----- sendMessage -----

  /** What sendMessage writes, or None for LengthLimitExceededError. */
  function Encode(w: Wire, m: bytes): Option<bytes> {
    match w.format
    case UInt8 => if |m| > 0xFF then None else Some([|m|] + m)
    case UInt16 => if |m| > 0xFFFF then None else Some(Bytes(|m|, 2, Order(w)) + m)
    case UInt32 => if |m| > 0xFFFF_FFFF then None else Some(Bytes(|m|, 4, Order(w)) + m)
    case UInt8Ext => Some((if |m| >= 0xFF then [0xFF] + Bytes(|m|, 4, Order(w)) else [|m|]) + m)
    case UInt16Ext => Some((if |m| >= 0xFFFF then [0xFF, 0xFF] + Bytes(|m|, 4, Order(w))
                            else Bytes(|m|, 2, Order(w))) + m)
  }

  /** The length from which a form needs its escape. */
  function Escape(f: Format): nat { if f.UInt8Ext? then 0xFF else 0xFFFF }

  /** A length whose header is read as it was meant: one that fits, and, if it is escaped, one whose four
      bytes are in the order of the host or read the same in both orders. */
  predicate Legible(w: Wire, n: nat) {
    match w.format
    case UInt8 => n < 0x100
    case UInt16 => n < TWO16
    case UInt32 => n < TWO32
    case _ => n < TWO32 && (n < Escape(w.format) || Order(w) == w.host || Palindrome(LittleBytes(n, 4)))
  }

  /** A length that the receiver reads as it was meant and moves past. */
  predicate Readable(w: Wire, n: nat) { Legible(w, n) && Passes(w.format, n) }

  predicate Sendable(w: Wire, m: bytes) { Encode(w, m).Some? }

  lemma {:induction false} AllOnes(e: Endian)
    ensures Value([0xFF, 0xFF], e) == 0xFFFF
  {
    assert [0xFF, 0xFF][1..] == [0xFF] && [0xFF][1..] == [];
    assert Reversed([0xFF, 0xFF]) == [0xFF, 0xFF];
  }

  /** Four bytes read in the order of the host give the integer written in the order of the wire if and only
      if it fits and the orders agree on it. */
  lemma {:induction false} Misread(n: nat, e: Endian, host: Endian)
    ensures Value(Bytes(n, 4, e), host) == n
      <==> n < TWO32 && (e == host || Palindrome(LittleBytes(n, 4)))
  {
    hide Bytes, Value, Palindrome, LittleBytes;
    Widths();
    if n < TWO32 {
      MisreadPalindrome(n, 4, e, host);
    } else {
      ValueInverse(Bytes(n, 4, e), host);
    }
  }

  /** The header of what sendMessage wrote gives the length of the message if and only if it is legible. */
  lemma {:induction false} HeaderOfEncoded(w: Wire, m: bytes, t: bytes)
    requires Sendable(w, m)
    ensures var h := HeaderOf(w, Encode(w, m).value + t);
      h.Some? && (h.value.len == |m| <==> Legible(w, |m|))
      && |Encode(w, m).value| == h.value.size + |m|
      && Encode(w, m).value[h.value.size..] == m
  {
    hide Bytes, Value, Palindrome, LittleBytes;
    Widths();
    var b := Encode(w, m).value + t;
    match w.format
    case UInt8 =>
    case UInt16 =>
      BytesInverse(|m|, 2, Order(w));
      assert b[..2] == Bytes(|m|, 2, Order(w));
    case UInt32 =>
      BytesInverse(|m|, 4, Order(w));
      assert b[..4] == Bytes(|m|, 4, Order(w));
    case UInt8Ext =>
      if |m| >= 0xFF {
        Misread(|m|, Order(w), w.host);
        assert b[1..5] == Bytes(|m|, 4, Order(w));
      }
    case UInt16Ext =>
      if |m| >= 0xFFFF {
        AllOnes(Order(w));
        Misread(|m|, Order(w), w.host);
        assert b[..2] == [0xFF, 0xFF];
        assert b[2..6] == Bytes(|m|, 4, Order(w));
      } else {
        BytesInverse(|m|, 2, Order(w));
        assert b[..2] == Bytes(|m|, 2, Order(w));
      }
  }

  predicate AllSendable(w: Wire, ms: seq<bytes>) { forall i :: 0 <= i < |ms| ==> Sendable(w, ms[i]) }

  /** What several calls of sendMessage write. */
  function EncodeAll(w: Wire, ms: seq<bytes>): bytes
    requires AllSendable(w, ms)
  {
    if ms == [] then [] else
      assert Sendable(w, ms[0]);
      Encode(w, ms[0]).value + EncodeAll(w, ms[1..])
  }

  /** The receiver recovers exactly the messages sent if and only if all their lengths are readable. */
  lemma {:induction false} RoundTrip(w: Wire, ms: seq<bytes>)
    requires AllSendable(w, ms)
    ensures Frames(w, EncodeAll(w, ms)) == Delivery(ms, [], Waiting)
      <==> forall i :: 0 <= i < |ms| ==> Readable(w, |ms[i]|)
  {
    hide HeaderOf, Encode, Legible, Passes, Stays, Moved, Deliver;
    if ms == [] {
      DeliverNothing(w, Never());
    } else {
      var e, t := Encode(w, ms[0]).value, EncodeAll(w, ms[1..]);
      HeaderOfEncoded(w, ms[0], t);
      RoundTrip(w, ms[1..]);
      assert [ms[0]] + ms[1..] == ms;
      FirstOfEncoded(w, ms[0], ms[1..]);
    }
  }

  /** The first message is received, with the others to follow, if and only if its length is readable. */
  lemma {:induction false} FirstOfEncoded(w: Wire, m: bytes, ms: seq<bytes>)
    requires Sendable(w, m) && AllSendable(w, ms)
    ensures var t := EncodeAll(w, ms);
      Frames(w, Encode(w, m).value + t) == Delivery([m] + ms, [], Waiting)
      <==> Readable(w, |m|) && Frames(w, t) == Delivery(ms, [], Waiting)
  {
    hide HeaderOf, Encode, Legible, Passes, Stays, EncodeAll;
    var e, t := Encode(w, m).value, EncodeAll(w, ms);
    var b := e + t;
    HeaderOfEncoded(w, m, t);
    var h := HeaderOf(w, b).value;
    if Complete(w, b) {
      FirstLength(w, b);
      var k := Moved(w, b);
      var d := Frames(w, b[k..]);
      assert ([FirstMessage(w, b)] + d.messages)[1..] == d.messages && ([m] + ms)[1..] == ms;
      if Legible(w, |m|) {
        assert b[h.size..h.size + h.len] == m;
        if Passes(w.format, |m|) {
          assert b[k..] == t;
        } else if k > 0 && Frames(w, b) == Delivery([m] + ms, [], Waiting) {
          Consumed(w, Never(), b[k..]);
        }
      }
    }
  }

  lemma {:induction false} DeliverNothing(w: Wire, throws: bytes -> bool)
    ensures Deliver(w, throws, []) == Delivery([], [], Waiting)
  {
  }

  // ----- any split of the stream -----

  /** More bytes do not change a complete header. */
  lemma {:induction false} HeaderStays(w: Wire, a: bytes, b: bytes)
    requires HeaderOf(w, a).Some?
    ensures HeaderOf(w, a + b) == HeaderOf(w, a)
  {
    hide Value;
    var c := a + b;
    assert |a| >= 2 ==> c[..2] == a[..2];
    assert |a| >= 4 ==> c[..4] == a[..4];
    assert |a| >= 5 ==> c[1..5] == a[1..5];
    assert |a| >= 6 ==> c[2..6] == a[2..6];
  }

  lemma {:induction false} FrameStays(w: Wire, a: bytes, b: bytes)
    requires Complete(w, a)
    ensures Complete(w, a + b) && Moved(w, a + b) == Moved(w, a) && FirstMessage(w, a + b) == FirstMessage(w, a)
    ensures (a + b)[Moved(w, a)..] == a[Moved(w, a)..] + b
  {
    hide HeaderOf, Advance;
    HeaderStays(w, a, b);
  }

  /** Two pieces one after the other are delivered like their concatenation; once delivery has stopped for
      another reason than missing bytes, more bytes change nothing. */
  lemma {:induction false} DeliverSplit(w: Wire, throws: bytes -> bool, a: bytes, b: bytes)
    ensures var d := Deliver(w, throws, a); var e := Deliver(w, throws, d.rest + b);
      Deliver(w, throws, a + b)
      == if d.end.Waiting? then Delivery(d.messages + e.messages, e.rest, e.end)
         else Delivery(d.messages, d.rest + b, d.end)
    decreases |a|
  {
    hide Complete, Moved, FirstMessage;
    if !Complete(w, a) {
      var e := Deliver(w, throws, a + b);
      assert [] + e.messages == e.messages;
    } else {
      FrameStays(w, a, b);
      var m, k := FirstMessage(w, a), Moved(w, a);
      if !throws(m) && k > 0 {
        DeliverSplit(w, throws, a[k..], b);
        var d := Deliver(w, throws, a[k..]);
        var e := Deliver(w, throws, d.rest + b);
        Assoc([m], d.messages, e.messages);
      }
    }
  }

  /** The effect of one dataReceived call after another, up to one that never returns; Threw if any of them
      threw. */
  ghost function Feed(w: Wire, throws: bytes -> bool, chunks: seq<bytes>): Delivery {
    if chunks == [] then Delivery([], [], Waiting)
    else
      var d := Feed(w, throws, chunks[..|chunks| - 1]);
      if d.end.Forever? then d
      else
        var e := Deliver(w, throws, d.rest + chunks[|chunks| - 1]);
        Delivery(d.messages + e.messages, e.rest, if e.end.Waiting? then d.end else e.end)
  }

  /** Unless the handler throws or a call never returns, only the bytes matter, not how they were cut; and
      whether that happens does not depend on the cuts either. */
  lemma {:induction false} FeedIsDeliver(w: Wire, throws: bytes -> bool, chunks: seq<bytes>)
    ensures var f := Feed(w, throws, chunks); var d := Deliver(w, throws, Flatten(chunks));
      if f.end.Waiting? then f == d else !d.end.Waiting?
  {
    hide HeaderOf, Deliver;
    if chunks == [] {
      DeliverNothing(w, throws);
    } else {
      var front, last := chunks[..|chunks| - 1], chunks[|chunks| - 1];
      FeedIsDeliver(w, throws, front);
      FlattenLast(front, last);
      assert front + [last] == chunks;
      DeliverSplit(w, throws, Flatten(front), last);
    }
  }

  /** Whatever way the stream was cut, exactly the messages sent arrive, in order and with nothing kept, if
      and only if all their lengths are readable. */
  lemma {:induction false} AnySplitDelivers(w: Wire, ms: seq<bytes>, chunks: seq<bytes>)
    requires AllSendable(w, ms) && Flatten(chunks) == EncodeAll(w, ms)
    ensures Feed(w, Never(), chunks) == Delivery(ms, [], Waiting)
      <==> forall i :: 0 <= i < |ms| ==> Readable(w, |ms[i]|)
  {
    hide Sendable, Readable, Deliver, Feed;
    FeedIsDeliver(w, Never(), chunks);
    RoundTrip(w, ms);
  }

  /** Delivery ends at the first message on which the handler throws or the cursor stays, and only there. */
  lemma {:induction false} EndsAtLast(w: Wire, throws: bytes -> bool, b: bytes)
    ensures var d := Deliver(w, throws, b); var ms := d.messages;
      && (d.end.Threw? <==> ms != [] && throws(ms[|ms| - 1]))
      && (d.end.Forever? <==> ms != [] && !throws(ms[|ms| - 1]) && Stays(w.format, |ms[|ms| - 1]|))
      && forall i :: 0 <= i < |ms| - 1 ==> !throws(ms[i]) && !Stays(w.format, |ms[i]|)
    decreases |b|
  {
    hide Complete, FirstMessage, Moved, Stays, Passes;
    if Complete(w, b) {
      FirstLength(w, b);
      if !throws(FirstMessage(w, b)) && Moved(w, b) > 0 {
        var d := Deliver(w, throws, b[Moved(w, b)..]);
        EndsAtLast(w, throws, b[Moved(w, b)..]);
        assert forall i :: 1 <= i <= |d.messages| ==> ([FirstMessage(w, b)] + d.messages)[i] == d.messages[i - 1];
      }
    }
  }

  /** Only a buffer of 2^32 bytes or more, in the UInt32 form, can keep a receiver busy for ever. */
  lemma {:induction false} ForeverNeedsBytes(w: Wire, throws: bytes -> bool, b: bytes)
    requires Deliver(w, throws, b).end.Forever?
    ensures w.format.UInt32? && |b| >= TWO32
    decreases |b|
  {
    hide Value, Passes;
    FirstLength(w, b);
    if Moved(w, b) > 0 { ForeverNeedsBytes(w, throws, b[Moved(w, b)..]); }
  }

  /** A message sent is delivered over and over, with everything kept, if and only if its length is 2^32 - 4. */
  lemma {:induction false} DeliveredForever(w: Wire, m: bytes, t: bytes)
    requires w.format.UInt32? && Sendable(w, m)
    ensures var b := Encode(w, m).value + t;
      Frames(w, b) == Delivery([m], b, Forever) <==> |m| == TWO32 - 4
  {
    hide HeaderOf, Bytes, Advance;
    var b := Encode(w, m).value + t;
    HeaderOfEncoded(w, m, t);
    FirstLength(w, b);
    var h, k := HeaderOf(w, b).value, Moved(w, b);
    assert b[h.size..h.size + h.len] == m;
    if k > 0 { EndsAtLast(w, Never(), b[k..]); }
  }

  /** What was delivered, and what is found later in the bytes kept, are the messages of the buffer, unless
      the last message is one with which the cursor stays: that one is found again. */
  lemma {:induction false} ThrowLosesNothing(w: Wire, throws: bytes -> bool, b: bytes)
    ensures var d := Deliver(w, throws, b); var e := Frames(w, d.rest);
      Frames(w, b) == Delivery(d.messages + e.messages, e.rest, e.end)
      <==> d.messages == [] || !Stays(w.format, |d.messages[|d.messages| - 1]|)
    decreases |b|
  {
    hide Complete, FirstMessage, Moved, Stays, Passes;
    if !Complete(w, b) {
      assert [] + Frames(w, b).messages == Frames(w, b).messages;
    } else {
      FirstLength(w, b);
      var m, k := FirstMessage(w, b), Moved(w, b);
      if !throws(m) && k > 0 {
        ThrowLosesNothing(w, throws, b[k..]);
        EndsAtLast(w, throws, b);
        var d, f := Deliver(w, throws, b[k..]), Frames(w, b[k..]);
        var e := Frames(w, d.rest);
        Assoc([m], d.messages, e.messages);
        assert ([m] + f.messages)[1..] == f.messages;
        assert ([m] + (d.messages + e.messages))[1..] == d.messages + e.messages;
      }
    }
  }

  /** A receiver that waits keeps no complete frame, and one that goes on for ever has one in hand. */
  lemma {:induction false} RestIncomplete(w: Wire, throws: bytes -> bool, b: bytes)
    ensures var d := Deliver(w, throws, b);
      (d.end.Waiting? ==> !Complete(w, d.rest)) && (d.end.Forever? ==> Complete(w, d.rest))
    decreases |b|
  {
    hide Complete, FirstMessage, Moved;
    if Complete(w, b) && !throws(FirstMessage(w, b)) && Moved(w, b) > 0 {
      RestIncomplete(w, throws, b[Moved(w, b)..]);
    }
  }

  lemma {:induction false} EncodeFirst(w: Wire, m: bytes, ms: seq<bytes>)
    requires Sendable(w, m) && AllSendable(w, ms)
    ensures AllSendable(w, [m] + ms) && EncodeAll(w, [m] + ms) == Encode(w, m).value + EncodeAll(w, ms)
  {
    hide Encode;
    assert ([m] + ms)[1..] == ms;
  }

  predicate AllPass(f: Format, ms: seq<bytes>) { forall i :: 0 <= i < |ms| ==> Passes(f, |ms[i]|) }

  /** In the forms without escape the bytes taken are never more than those of the messages delivered, and
      less exactly when the cursor did not move past one of them. */
  lemma {:induction false} Consumed(w: Wire, throws: bytes -> bool, b: bytes)
    requires !w.format.UInt8Ext? && !w.format.UInt16Ext?
    ensures var d := Deliver(w, throws, b);
      && AllSendable(w, d.messages)
      && var taken := |EncodeAll(w, d.messages)| + |d.rest|;
      |b| <= taken && (|b| == taken <==> AllPass(w.format, d.messages))
    decreases |b|
  {
    hide Complete, FirstMessage, FrameSize, Moved, Sendable, Encode, EncodeAll, Passes, Stays;
    NothingEncoded(w);
    if Complete(w, b) {
      var m, k := FirstMessage(w, b), Moved(w, b);
      FirstLength(w, b);
      FrameIsEncoded(w, b);
      if !throws(m) && k > 0 {
        Consumed(w, throws, b[k..]);
        var d := Deliver(w, throws, b[k..]);
        EncodeFirst(w, m, d.messages);
        FirstPasses(w.format, m, d.messages);
      } else {
        EncodeFirst(w, m, []);
        FirstPasses(w.format, m, []);
        assert [m] + [] == [m];
      }
    }
  }

  lemma {:induction false} FirstPasses(f: Format, m: bytes, ms: seq<bytes>)
    ensures AllPass(f, [m] + ms) <==> Passes(f, |m|) && AllPass(f, ms)
  {
    hide Passes;
    if AllPass(f, [m] + ms) {
      assert ([m] + ms)[0] == m;
      assert forall i :: 0 <= i < |ms| ==> ([m] + ms)[i + 1] == ms[i];
    }
  }

  /** In the forms without escape the bytes received are those of the messages and the bytes kept, if and only
      if the cursor moved past every message delivered. */
  lemma {:induction false} BytesConserved(w: Wire, throws: bytes -> bool, b: bytes)
    requires !w.format.UInt8Ext? && !w.format.UInt16Ext?
    ensures var d := Deliver(w, throws, b);
      AllSendable(w, d.messages) && (b == EncodeAll(w, d.messages) + d.rest <==> AllPass(w.format, d.messages))
  {
    hide Deliver, Encode, EncodeAll, AllPass;
    Consumed(w, throws, b);
    if AllPass(w.format, Deliver(w, throws, b).messages) { PassedAreConserved(w, throws, b); }
  }

  lemma {:induction false} PassedAreConserved(w: Wire, throws: bytes -> bool, b: bytes)
    requires !w.format.UInt8Ext? && !w.format.UInt16Ext?
    requires AllPass(w.format, Deliver(w, throws, b).messages)
    ensures var d := Deliver(w, throws, b); AllSendable(w, d.messages) && b == EncodeAll(w, d.messages) + d.rest
    decreases |b|
  {
    hide Complete, FirstMessage, FrameSize, Moved, Sendable, Encode, EncodeAll, Passes, Stays, AllPass;
    NothingEncoded(w);
    if Complete(w, b) {
      var m, k := FirstMessage(w, b), Moved(w, b);
      FirstLength(w, b);
      FrameIsEncoded(w, b);
      if throws(m) || k == 0 {
        EncodeFirst(w, m, []);
        FirstPasses(w.format, m, []);
        assert [m] + [] == [m];
        assert b[..k] + b[k..] == b;
      } else {
        var d := Deliver(w, throws, b[k..]);
        FirstPasses(w.format, m, d.messages);
        PassedAreConserved(w, throws, b[k..]);
        EncodeFirst(w, m, d.messages);
        Assoc(b[..k], EncodeAll(w, d.messages), d.rest);
        assert b[..k] + b[k..] == b;
      }
    }
  }

  lemma {:induction false} NothingEncoded(w: Wire)
    ensures AllSendable(w, []) && EncodeAll(w, []) == [] && forall b: bytes :: EncodeAll(w, []) + b == b
  {
  }

  lemma {:induction false} FrameIsEncoded(w: Wire, b: bytes)
    requires !w.format.UInt8Ext? && !w.format.UInt16Ext? && Complete(w, b)
    ensures Sendable(w, FirstMessage(w, b)) && Encode(w, FirstMessage(w, b)).value == b[..FrameSize(w, b)]
  {
    hide Bytes, Value;
    Widths();
    if w.format.UInt8? {
      assert [b[0]] + b[1..1 + b[0]] == b[..1 + b[0]];
    } else {
      var k := if w.format.UInt16? then 2 else 4;
      ValueInverse(b[..k], Order(w));
      var n := Value(b[..k], Order(w));
      assert b[..k] + b[k..k + n] == b[..k + n];
    }
  }

  // ----- the receiver -----

  lemma {:induction false} FrameAt(w: Wire, ptr: bytes, at: nat)
    requires at <= |ptr|
    ensures var h := HeaderOf(w, ptr[at..]);
      Complete(w, ptr[at..]) <==> h.Some? && at + h.value.size + h.value.len <= |ptr|
    ensures Complete(w, ptr[at..]) ==>
      var h := HeaderOf(w, ptr[at..]).value; var k := Advance(w.format, h.size, h.len);
      && Moved(w, ptr[at..]) == k && ptr[at..][k..] == ptr[at + k..]
      && FirstMessage(w, ptr[at..]) == ptr[at + h.size..at + h.size + h.len]
  {
    hide HeaderOf, Advance;
    if Complete(w, ptr[at..]) {
      var h := HeaderOf(w, ptr[at..]).value;
      var x, y := FirstMessage(w, ptr[at..]), ptr[at + h.size..at + h.size + h.len];
      assert |x| == |y| && forall i :: 0 <= i < |x| ==> x[i] == y[i];
    }
  }

  /** From here on, what is still to be delivered is what the rest of the buffer holds. */
  ghost predicate Pending(w: Wire, throws: bytes -> bool, whole: Delivery, rest: bytes, done: seq<bytes>) {
    var d := Deliver(w, throws, rest);
    whole == Delivery(done + d.messages, d.rest, d.end)
  }

  lemma {:induction false} PendingAtStart(w: Wire, throws: bytes -> bool, b: bytes, done: seq<bytes>)
    ensures var d := Deliver(w, throws, b);
      Pending(w, throws, Delivery(done + d.messages, d.rest, d.end), b, done)
  {
  }

  lemma {:induction false} PendingAtEnd(w: Wire, throws: bytes -> bool, whole: Delivery, rest: bytes,
                                        done: seq<bytes>)
    requires Pending(w, throws, whole, rest, done) && !Complete(w, rest)
    ensures whole == Delivery(done, rest, Waiting)
  {
    hide Complete;
  }

  lemma {:induction false} Step(w: Wire, throws: bytes -> bool, whole: Delivery, ptr: bytes, at: nat, h: Header,
                                done: seq<bytes>)
    requires at <= |ptr| && Pending(w, throws, whole, ptr[at..], done)
    requires HeaderOf(w, ptr[at..]) == Some(h) && at + h.size + h.len <= |ptr|
    ensures var m := ptr[at + h.size..at + h.size + h.len]; var k := Advance(w.format, h.size, h.len);
      if throws(m) then whole == Delivery(done + [m], ptr[at + k..], Threw)
      else if k == 0 then whole.end.Forever?
      else Pending(w, throws, whole, ptr[at + k..], done + [m])
  {
    hide HeaderOf, Complete, Moved, FirstMessage, Advance;
    FrameAt(w, ptr, at);
    var k := Advance(w.format, h.size, h.len);
    Assoc(done, [ptr[at + h.size..at + h.size + h.len]], Deliver(w, throws, ptr[at + k..]).messages);
  }

  class Receiver {
    const wire: Wire
    const throws: bytes -> bool // on which messages messageReceived throws
    var unprocessed: bytes
    var received: seq<bytes> // the calls of messageReceived
    var lost: bool // loseConnection was called
    var written: bytes

    constructor (wire: Wire, throws: bytes -> bool)
      ensures this.wire == wire && this.throws == throws
      ensures unprocessed == [] && received == [] && !lost && written == []
    {
      this.wire, this.throws := wire, throws;
      unprocessed, received, lost, written := [], [], false, [];
    }

    /** The header at a position of the buffer. */
    method ReadHeader(ptr: bytes, consumed: nat) returns (h: Option<Header>)
      requires consumed <= |ptr|
      ensures h == HeaderOf(wire, ptr[consumed..])
    {
      hide Value;
      var total := |ptr|;
      ghost var b := ptr[consumed..];
      var order := WireOrder(wire.order, wire.host);
      match wire.format {
        case UInt8 =>
          h := if consumed + 1 <= total then Some(Header(1, ptr[consumed])) else None;
        case UInt16 =>
          if consumed + 2 > total {
            return None;
          }
          assert b[..2] == ptr[consumed..consumed + 2];
          h := Some(Header(2, Value(ptr[consumed..consumed + 2], order)));
        case UInt32 =>
          if consumed + 4 > total {
            return None;
          }
          assert b[..4] == ptr[consumed..consumed + 4];
          h := Some(Header(4, Value(ptr[consumed..consumed + 4], order)));
        case UInt8Ext =>
          if consumed + 1 > total {
            return None;
          }
          var len: nat, offset := ptr[consumed], 0;
          if len == 0xFF {
            if consumed + 1 + 4 > total {
              return None;
            }
            assert b[1..5] == ptr[consumed + 1..consumed + 5];
            len := Value(ptr[consumed + 1..consumed + 5], wire.host);
            offset := 4;
          }
          h := Some(Header(1 + offset, len));
        case UInt16Ext =>
          if consumed + 2 > total {
            return None;
          }
          assert b[..2] == ptr[consumed..consumed + 2];
          var len, offset := Value(ptr[consumed..consumed + 2], order), 0;
          if len == 0xFFFF {
            if consumed + 2 + 4 > total {
              return None;
            }
            assert b[2..6] == ptr[consumed + 2..consumed + 6];
            len := Value(ptr[consumed + 2..consumed + 6], wire.host);
            offset := 4;
          }
          h := Some(Header(2 + offset, len));
      }
    }

    /** The loop of dataReceived: the messages of the buffer, and where the cursor is left. */
    method ReadMessages(ptr: bytes) returns (consumed: nat, threw: bool)
      requires !Deliver(wire, throws, ptr).end.Forever?
      modifies `received
      ensures consumed <= |ptr|
      ensures var d := Deliver(wire, throws, ptr);
        received == old(received) + d.messages && ptr[consumed..] == d.rest && threw == d.end.Threw?
    {
      hide HeaderOf, Deliver, Advance, Pending;
      ghost var d := Deliver(wire, throws, ptr);
      ghost var whole := Delivery(received + d.messages, d.rest, d.end);
      PendingAtStart(wire, throws, ptr, received);
      consumed, threw := 0, false;
      assert ptr[0..] == ptr;
      while true
        invariant consumed <= |ptr| && !threw
        invariant Pending(wire, throws, whole, ptr[consumed..], received)
        decreases |ptr| - consumed
      {
        var h := ReadHeader(ptr, consumed);
        FrameAt(wire, ptr, consumed);
        if h.None? || consumed + h.value.size + h.value.len > |ptr| {
          PendingAtEnd(wire, throws, whole, ptr[consumed..], received);
          return;
        }
        Step(wire, throws, whole, ptr, consumed, h.value, received);
        var start, end := consumed + h.value.size, consumed + h.value.size + h.value.len;
        var current := ptr[start..end];
        consumed := consumed + Advance(wire.format, h.value.size, h.value.len);
        received := received + [current];
        if throws(current) {
          threw := true;
          return;
        }
      }
    }

    /** The whole effect of a dataReceived that returns. */
    method DataReceived(data: bytes)
      requires !Deliver(wire, throws, unprocessed + data).end.Forever?
      modifies this
      ensures var d := Deliver(wire, throws, old(unprocessed) + data);
        && received == old(received) + d.messages && unprocessed == d.rest
        && lost == (old(lost) || d.end.Threw?)
      ensures written == old(written)
    {
      hide HeaderOf, Deliver;
      var ptr := data;
      assert [] + data == data;
      if unprocessed != [] {
        unprocessed := unprocessed + data;
        ptr := unprocessed;
      }
      var consumed, threw := ReadMessages(ptr);
      if threw {
        lost := true;
      }
      if unprocessed != [] {
        if consumed < |ptr| {
          unprocessed := unprocessed[consumed..];
        } else {
          unprocessed := [];
        }
      } else if consumed < |ptr| {
        unprocessed := unprocessed + ptr[consumed..];
      }
    }

    /** Appends one frame to the stream, or raises LengthLimitExceededError. */
    method SendMessage(data: bytes) returns (ok: bool)
      modifies `written
      ensures ok == Encode(wire, data).Some?
      ensures written == if ok then old(written) + Encode(wire, data).value else old(written)
    {
      hide Bytes;
      var message: bytes := [];
      var order := WireOrder(wire.order, wire.host);
      match wire.format {
        case UInt8 =>
          if |data| > 0xFF {
            return false;
          }
          message := message + [|data|];
        case UInt16 =>
          if |data| > 0xFFFF {
            return false;
          }
          message := message + Bytes(|data|, 2, order);
        case UInt32 =>
          if |data| > 0xFFFF_FFFF {
            return false;
          }
          message := message + Bytes(|data|, 4, order);
        case UInt8Ext =>
          if |data| >= 0xFF {
            message := message + [0xFF];
            message := message + Bytes(|data|, 4, order);
          } else {
            message := message + [|data|];
          }
        case UInt16Ext =>
          if |data| >= 0xFFFF {
            message := message + [0xFF];
            message := message + [0xFF];
            message := message + Bytes(|data|, 4, order);
          } else {
            message := message + Bytes(|data|, 2, order);
          }
      }
      message := message + data;
      assert message == Encode(wire, data).value;
      written := written + message;
      ok := true;
    }
  }
}
