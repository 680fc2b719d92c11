/**
  Model of the string and number helpers of src/net4cxx/common/configuration/json.cpp: UTF-8
  decoding and encoding, quoting, finding the end of a quoted string, and decoding it again.

  A std::string is a sequence of bytes. Character constants are written as their codes.
*/
module JsonText {

  import opened Basics

  const QUOTE: byte := 34
  const BACKSLASH: byte := 92
  const REPLACEMENT: nat := 0xFFFD

  // ----- UTF-8 -----

  /** The code point at the start of s and the number of bytes it takes. Malformed input gives the
      replacement character. The four-byte branch shifts its first byte by 24 instead of 18. */
  function Utf8ToCodePoint(s: bytes): (r: (nat, nat))
    requires s != []
    ensures 1 <= r.1 <= |s|
  {
    var b := s[0];
    if b < 0x80 then (b, 1)
    else if b < 0xE0 then
      if |s| < 2 then (REPLACEMENT, 1)
      else
        var c := (b % 32) * 0x40 + s[1] % 64;
        (if c < 0x80 then REPLACEMENT else c, 2)
    else if b < 0xF0 then
      if |s| < 3 then (REPLACEMENT, 1)
      else
        var c := (b % 16) * 0x1000 + (s[1] % 64) * 0x40 + s[2] % 64;
        (if 0xD800 <= c <= 0xDFFF || c < 0x800 then REPLACEMENT else c, 3)
    else if b < 0xF8 then
      if |s| < 4 then (REPLACEMENT, 1)
      else
        var c := (b % 8) * 0x1000000 + (s[1] % 64) * 0x1000 + (s[2] % 64) * 0x40 + s[3] % 64;
        (if c < 0x10000 then REPLACEMENT else c, 4)
    else (REPLACEMENT, 1)
  }

  function CodePointToUtf8(cp: nat): bytes {
    var c1 := cp / 64;
    var c2 := c1 / 64;
    var c3 := c2 / 64;
    if cp <= 0x7F then [cp]
    else if cp <= 0x7FF then [0xC0 + c1 % 32, 0x80 + cp % 64]
    else if cp <= 0xFFFF then [0xE0 + c2 % 16, 0x80 + c1 % 64, 0x80 + cp % 64]
    else if cp <= 0x10FFFF then [0xF0 + c3 % 8, 0x80 + c2 % 64, 0x80 + c1 % 64, 0x80 + cp % 64]
    else []
  }

  /** A Unicode scalar value (section 3 of RFC 3629). */
  predicate Scalar(cp: nat) { cp < 0xD800 || 0xE000 <= cp <= 0x10FFFF }

  predicate AllScalar(cps: seq<nat>) { forall i :: 0 <= i < |cps| ==> Scalar(cps[i]) }

  /** The well-formed UTF-8 strings are the values of this function on scalars. */
  function Utf8(cps: seq<nat>): bytes {
    if cps == [] then [] else CodePointToUtf8(cps[0]) + Utf8(cps[1..])
  }

  /** What Utf8ToCodePoint makes of a well-formed code point: right below U+40000, wrong from there on. */
  function Misread(cp: nat): nat {
    if cp < 0x40000 then cp else cp / 0x40000 * 0x1000000 + cp % 0x40000
  }

  lemma {:induction false} Decode4(cp: nat, s: bytes)
    requires 0xFFFF < cp <= 0x10FFFF && |s| >= 4
    requires s[0] == 0xF0 + cp / 64 / 64 / 64 % 8 && s[1] == 0x80 + cp / 64 / 64 % 64
    requires s[2] == 0x80 + cp / 64 % 64 && s[3] == 0x80 + cp % 64
    ensures Utf8ToCodePoint(s) == (Misread(cp), 4)
  {
    FourDigits(cp, s[0], s[1], s[2], s[3]);
  }

  /** The digits of a code point in base 64, and the bits of the four bytes they are put in. */
  lemma {:induction false} FourDigits(cp: nat, b0: nat, b1: nat, b2: nat, b3: nat)
    requires 0xFFFF < cp <= 0x10FFFF
    requires b0 == 0xF0 + cp / 64 / 64 / 64 % 8 && b1 == 0x80 + cp / 64 / 64 % 64
    requires b2 == 0x80 + cp / 64 % 64 && b3 == 0x80 + cp % 64
    ensures cp / 0x40000 == b0 % 8
    ensures cp % 0x40000 == (b1 % 64) * 0x1000 + (b2 % 64) * 0x40 + b3 % 64
  {
    var c1 := cp / 64;
    var c2 := c1 / 64;
    var c3 := c2 / 64;
    assert c3 % 8 == c3 && b0 % 8 == c3 && b1 % 64 == c2 % 64 && b2 % 64 == c1 % 64 && b3 % 64 == cp % 64;
    assert cp == c3 * 0x40000 + (c2 % 64) * 0x1000 + (c1 % 64) * 0x40 + cp % 64;
  }

  lemma {:induction false} Decode3(cp: nat, s: bytes)
    requires 0x7FF < cp <= 0xFFFF && Scalar(cp) && |s| >= 3
    requires s[0] == 0xE0 + cp / 64 / 64 % 16 && s[1] == 0x80 + cp / 64 % 64 && s[2] == 0x80 + cp % 64
    ensures Utf8ToCodePoint(s) == (cp, 3)
  {
    var c1 := cp / 64;
    var c2 := c1 / 64;
    assert s[0] % 16 == c2 && s[1] % 64 == c1 % 64 && s[2] % 64 == cp % 64;
    assert cp == c2 * 0x1000 + (c1 % 64) * 0x40 + cp % 64;
  }

  lemma {:induction false} Decode2(cp: nat, s: bytes)
    requires 0x7F < cp <= 0x7FF && |s| >= 2
    requires s[0] == 0xC0 + cp / 64 % 32 && s[1] == 0x80 + cp % 64
    ensures Utf8ToCodePoint(s) == (cp, 2)
  {
    assert s[0] % 32 == cp / 64 && s[1] % 64 == cp % 64;
  }

  lemma {:induction false} DecodeEncoded(cp: nat, rest: bytes)
    requires Scalar(cp)
    ensures CodePointToUtf8(cp) != []
    ensures Utf8ToCodePoint(CodePointToUtf8(cp) + rest) == (Misread(cp), |CodePointToUtf8(cp)|)
  {
    var s := CodePointToUtf8(cp) + rest;
    if cp <= 0x7F {
    } else if cp <= 0x7FF {
      Decode2(cp, s);
    } else if cp <= 0xFFFF {
      Decode3(cp, s);
    } else {
      Decode4(cp, s);
    }
  }

  // ----- quoting -----

  /** Four lower-case hexadecimal digits of the low 16 bits. */
  function Hex16(x: nat): bytes {
    var q0 := x % 0x10000;
    var q1 := q0 / 16;
    var q2 := q1 / 16;
    var q3 := q2 / 16;
    [HexDigit(q3), HexDigit(q2 % 16), HexDigit(q1 % 16), HexDigit(q0 % 16)]
  }

  /** The letter of a two-character escape. */
  function ShortEscape(b: byte): Option<byte> {
    if b == QUOTE then Some(QUOTE)
    else if b == BACKSLASH then Some(BACKSLASH)
    else if b == 8 then Some(98)
    else if b == 12 then Some(102)
    else if b == 10 then Some(110)
    else if b == 13 then Some(114)
    else if b == 9 then Some(116)
    else None
  }

  function HighUnit(cp: nat): nat
    requires cp >= 0x10000
  {
    (cp - 0x10000) / 0x400 + 0xD800
  }

  function LowUnit(cp: nat): nat
    requires cp >= 0x10000
  {
    (cp - 0x10000) % 0x400 + 0xDC00
  }

  function EscapeU(x: nat): bytes { [BACKSLASH, 117] + Hex16(x) }

  /** How a code point other than a short escape is written. */
  function Piece(cp: nat): bytes {
    if 0x20 <= cp < 0x80 then [cp]
    else if cp < 0x10000 then EscapeU(cp)
    else EscapeU(HighUnit(cp)) + EscapeU(LowUnit(cp))
  }

  /** The first step through s: what is written and how many bytes of s that covers. */
  function FirstPiece(s: bytes): (r: (bytes, nat))
    requires s != []
    ensures 1 <= r.1 <= |s|
  {
    match ShortEscape(s[0])
    case Some(e) => ([BACKSLASH, e], 1)
    case None => var (cp, n) := Utf8ToCodePoint(s); (Piece(cp), n)
  }

  function QuoteBody(s: bytes): bytes
    decreases |s|
  {
    if s == [] then []
    else var (piece, n) := FirstPiece(s); piece + QuoteBody(s[n..])
  }

  function Quoted(s: bytes): bytes { [QUOTE] + QuoteBody(s) + [QUOTE] }

  /** char is signed. */
  function Signed(b: byte): int { if b < 128 then b else b - 256 }

  predicate RequiresQuoting(b: byte) {
    b == BACKSLASH || b == QUOTE || Signed(b) < 32 || b < 0x80
  }

  method IsAnyCharRequiredQuoting(s: bytes) returns (r: bool)
    ensures r <==> exists i :: 0 <= i < |s| && RequiresQuoting(s[i])
  {
    for i := 0 to |s|
      invariant forall j :: 0 <= j < i ==> !RequiresQuoting(s[j])
    {
      if RequiresQuoting(s[i]) {
        return true;
      }
    }
    return false;
  }

  method ValueToQuotedString(s: bytes) returns (result: bytes)
    ensures result == Quoted(s)
  {
    hide FirstPiece;
    var needed := IsAnyCharRequiredQuoting(s);
    assert s != [] ==> RequiresQuoting(s[0]);
    if !needed {
      assert s == [];
      return [QUOTE] + s + [QUOTE];
    }
    hide RequiresQuoting;
    result := [QUOTE];
    var c := 0;
    assert s[0..] == s;
    while c < |s|
      invariant 0 <= c <= |s|
      invariant result + QuoteBody(s[c..]) == [QUOTE] + QuoteBody(s)
    {
      ghost var t, before := s[c..], result;
      var (piece, n) := FirstPiece(s[c..]);
      assert t[n..] == s[c + n..];
      assert QuoteBody(t) == piece + QuoteBody(t[n..]);
      result := result + piece;
      c := c + n;
      Assoc(before, piece, QuoteBody(t[n..]));
    }
    assert s[c..] == [] && QuoteBody([]) == [];
    assert result + [] == result;
    result := result + [QUOTE];
  }

  // ----- finding the end of a quoted string -----

  /** The number of bytes of t, which starts after the opening quote, up to and with the closing one. */
  function StringEnd(t: bytes): (r: Option<nat>)
    ensures r.Some? ==> 1 <= r.value <= |t|
    decreases |t|
  {
    if t == [] then None
    else if t[0] == QUOTE then Some(1)
    else
      var n := if t[0] == BACKSLASH then 2 else 1;
      if n > |t| then None
      else match StringEnd(t[n..]) case None => None case Some(m) => Some(n + m)
  }

  /** Skips over bytes that are neither a quote nor a backslash. */
  lemma {:induction false} StringEndSkips(plain: bytes, t: bytes)
    requires forall i :: 0 <= i < |plain| ==> plain[i] != QUOTE && plain[i] != BACKSLASH
    ensures StringEnd(plain + t) == match StringEnd(t) case None => None case Some(m) => Some(|plain| + m)
  {
    if plain == [] {
      assert plain + t == t;
    } else {
      StringEndSkips(plain[1..], t);
      assert (plain + t)[1..] == plain[1..] + t;
    }
  }

  lemma {:induction false} StringEndEscape(e: byte, plain: bytes, t: bytes)
    requires forall i :: 0 <= i < |plain| ==> plain[i] != QUOTE && plain[i] != BACKSLASH
    ensures StringEnd([BACKSLASH, e] + plain + t)
      == match StringEnd(t) case None => None case Some(m) => Some(2 + |plain| + m)
  {
    var u := [BACKSLASH, e] + plain + t;
    assert u[2..] == plain + t;
    StringEndSkips(plain, t);
  }

  lemma {:induction false} StringEndPiece(cp: nat, t: bytes)
    requires cp != QUOTE && cp != BACKSLASH
    ensures StringEnd(Piece(cp) + t) == match StringEnd(t) case None => None case Some(m) => Some(|Piece(cp)| + m)
  {
    if 0x20 <= cp < 0x80 {
      StringEndSkips([cp], t);
    } else if cp < 0x10000 {
      StringEndEscape(117, Hex16(cp), t);
    } else {
      var hi, lo := EscapeU(HighUnit(cp)), EscapeU(LowUnit(cp));
      StringEndEscape(117, Hex16(LowUnit(cp)), t);
      StringEndEscape(117, Hex16(HighUnit(cp)), lo + t);
      assert hi + lo + t == hi + (lo + t);
    }
  }

  /** The code point at the start of s is a quote or a backslash only if its first byte is. */
  lemma {:induction false} FirstNotSpecial(s: bytes)
    requires s != [] && s[0] != QUOTE && s[0] != BACKSLASH
    ensures Utf8ToCodePoint(s).0 != QUOTE && Utf8ToCodePoint(s).0 != BACKSLASH
    ensures !(0xD800 <= Utf8ToCodePoint(s).0 <= 0xDFFF)
  {
  }

  lemma {:induction false} QuoteEnds(rest: bytes)
    ensures StringEnd([QUOTE] + rest) == Some(1)
  {
  }

  /** Whatever was quoted, the reader stops exactly at the closing quote. */
  lemma {:induction false} StringEndOfQuoted(s: bytes, rest: bytes)
    ensures StringEnd(QuoteBody(s) + [QUOTE] + rest) == Some(|QuoteBody(s)| + 1)
    decreases |s|
  {
    hide StringEnd, Utf8ToCodePoint, Piece;
    if s == [] {
      assert QuoteBody(s) + [QUOTE] + rest == [QUOTE] + rest;
      QuoteEnds(rest);
    } else {
      var (piece, n) := FirstPiece(s);
      var t := QuoteBody(s[n..]) + [QUOTE] + rest;
      assert QuoteBody(s) + [QUOTE] + rest == piece + t;
      StringEndOfQuoted(s[n..], rest);
      match ShortEscape(s[0]) {
        case Some(e) =>
          StringEndEscape(e, [], t);
          assert [BACKSLASH, e] + [] + t == piece + t;
        case None =>
          FirstNotSpecial(s);
          StringEndPiece(Utf8ToCodePoint(s).0, t);
      }
    }
  }

  // ----- decoding -----

  /** The value of the four hexadecimal digits at the start of t. */
  function DecodeHex(t: bytes): Option<nat> {
    if |t| < 4 then None
    else
      match (HexValue(t[0]), HexValue(t[1]), HexValue(t[2]), HexValue(t[3]))
      case (Some(a), Some(b), Some(c), Some(d)) => Some(a * 0x1000 + b * 0x100 + c * 16 + d)
      case _ => None
  }

  /** The code point of a \u escape, and how many bytes after the u it takes. */
  function DecodeCodePoint(t: bytes): (r: Option<(nat, nat)>)
    ensures r.Some? ==> 4 <= r.value.1 <= |t|
  {
    match DecodeHex(t)
    case None => None
    case Some(u) =>
      if 0xD800 <= u <= 0xDBFF then
        if |t| - 4 < 6 || t[4] != BACKSLASH || t[5] != 117 then None
        else
          match DecodeHex(t[6..])
          case None => None
          case Some(v) => Some((0x10000 + u % 0x400 * 0x400 + v % 0x400, 10))
      else Some((u, 4))
  }

  function Unescape(e: byte): Option<byte> {
    if e == QUOTE || e == 47 || e == BACKSLASH then Some(e)
    else if e == 98 then Some(8)
    else if e == 102 then Some(12)
    else if e == 110 then Some(10)
    else if e == 114 then Some(13)
    else if e == 116 then Some(9)
    else None
  }

  /** One step of decodeString: the bytes it appends and how many bytes of t it takes. */
  function FirstDecoded(t: bytes): (r: Option<(bytes, nat)>)
    requires t != []
    ensures r.Some? ==> 1 <= r.value.1 <= |t|
  {
    if t[0] != BACKSLASH then Some(([t[0]], 1))
    else if |t| == 1 then None
    else if t[1] == 117 then
      match DecodeCodePoint(t[2..])
      case None => None
      case Some((cp, n)) => Some((CodePointToUtf8(cp), 2 + n))
    else match Unescape(t[1]) case None => None case Some(b) => Some(([b], 2))
  }

  /** decodeString on the bytes between the quotes. */
  function DecodeBody(t: bytes): Option<bytes>
    decreases |t|
  {
    if t == [] || t[0] == QUOTE then Some([])
    else
      match FirstDecoded(t)
      case None => None
      case Some((d, n)) => match DecodeBody(t[n..]) case None => None case Some(rest) => Some(d + rest)
  }

  function Then(d: bytes, r: Option<bytes>): Option<bytes> {
    match r case None => None case Some(rest) => Some(d + rest)
  }

  lemma {:induction false} DecodeNext(t: bytes, result: bytes)
    requires t != [] && t[0] != QUOTE
    ensures match FirstDecoded(t) {
              case None => DecodeBody(t) == None
              case Some((d, n)) => Then(result, DecodeBody(t)) == Then(result + d, DecodeBody(t[n..]))
            }
  {
    hide FirstDecoded;
    match FirstDecoded(t)
    case None =>
    case Some((d, n)) =>
      match DecodeBody(t[n..])
      case None =>
      case Some(rest) => Assoc(result, d, rest);
  }

  lemma {:induction false} DecodeEnds(t: bytes, result: bytes)
    requires t == [] || t[0] == QUOTE
    ensures Then(result, DecodeBody(t)) == Some(result)
  {
    assert result + [] == result;
  }

  lemma {:induction false} ThenNone(result: bytes)
    ensures Then(result, None) == None
  {
  }

  lemma {:induction false} ThenNothing(r: Option<bytes>)
    ensures Then([], r) == r
  {
    if r.Some? { assert [] + r.value == r.value; }
  }

  method DecodeString(content: bytes) returns (decoded: Option<bytes>)
    ensures decoded == DecodeBody(content)
  {
    hide FirstDecoded, DecodeBody, Then;
    var result: bytes := [];
    var current := 0;
    assert content[0..] == content;
    ThenNothing(DecodeBody(content));
    while current < |content|
      invariant 0 <= current <= |content|
      invariant DecodeBody(content) == Then(result, DecodeBody(content[current..]))
    {
      if content[current] == QUOTE {
        break;
      }
      DecodeNext(content[current..], result);
      match FirstDecoded(content[current..]) {
        case None =>
          assert Then(result, None) == None by { ThenNone(result); }
          return None;
        case Some((d, n)) =>
          assert content[current..][n..] == content[current + n..];
          result := result + d;
          current := current + n;
      }
    }
    DecodeEnds(content[current..], result);
    return Some(result);
  }

  // ----- decoding what was quoted -----

  /** What the reader makes of one written code point. */
  function Reread(cp: nat): bytes {
    if cp < 0x10000 then CodePointToUtf8(cp)
    else
      var hi, lo := HighUnit(cp) % 0x10000, LowUnit(cp);
      if 0xD800 <= hi <= 0xDBFF then CodePointToUtf8(0x10000 + hi % 0x400 * 0x400 + lo % 0x400)
      else CodePointToUtf8(hi) + CodePointToUtf8(lo)
  }

  /** What the reader makes of a whole quoted string. */
  function ReadBack(s: bytes): bytes
    decreases |s|
  {
    if s == [] then []
    else
      match ShortEscape(s[0])
      case Some(_) => [s[0]] + ReadBack(s[1..])
      case None => var (cp, n) := Utf8ToCodePoint(s); Reread(cp) + ReadBack(s[n..])
  }

  lemma {:induction false} HexInverse(x: nat, t: bytes)
    ensures DecodeHex(Hex16(x) + t) == Some(x % 0x10000)
  {
    var q0 := x % 0x10000;
    var q1 := q0 / 16;
    var q2 := q1 / 16;
    var q3 := q2 / 16;
    HexDigitInverse(q3);
    HexDigitInverse(q2 % 16);
    HexDigitInverse(q1 % 16);
    HexDigitInverse(q0 % 16);
    var h := Hex16(x) + t;
    assert h[0] == HexDigit(q3) && h[1] == HexDigit(q2 % 16) && h[2] == HexDigit(q1 % 16) && h[3] == HexDigit(q0 % 16);
    assert q3 * 0x1000 + q2 % 16 * 0x100 + q1 % 16 * 16 + q0 % 16 == q0;
  }

  /** The escape a stands for the bytes c, whatever follows. */
  ghost predicate Decodes(a: bytes, c: bytes) {
    forall t: bytes :: DecodeBody(a + t) == Then(c, DecodeBody(t))
  }

  lemma {:induction false} DecodeSingle(x: nat)
    requires !(0xD800 <= x % 0x10000 <= 0xDBFF)
    ensures Decodes(EscapeU(x), CodePointToUtf8(x % 0x10000))
  {
    forall t: bytes ensures DecodeBody(EscapeU(x) + t) == Then(CodePointToUtf8(x % 0x10000), DecodeBody(t)) {
      var u := EscapeU(x) + t;
      assert u[2..] == Hex16(x) + t;
      HexInverse(x, t);
      assert u[6..] == t;
    }
  }

  lemma {:induction false} SurrogatePair(v: bytes, hi: nat, lo: nat, t: bytes)
    requires 0xD800 <= hi % 0x10000 <= 0xDBFF && lo < 0x10000
    requires v == Hex16(hi) + (EscapeU(lo) + t)
    ensures DecodeCodePoint(v) == Some((0x10000 + hi % 0x10000 % 0x400 * 0x400 + lo % 0x400, 10))
  {
    hide DecodeHex, HexDigit;
    HexInverse(hi, EscapeU(lo) + t);
    HexInverse(lo, t);
    assert v[6..] == Hex16(lo) + t;
    assert v[4] == EscapeU(lo)[0] && v[5] == EscapeU(lo)[1];
  }

  lemma {:induction false} DecodePair(hi: nat, lo: nat)
    requires 0xD800 <= hi % 0x10000 <= 0xDBFF && lo < 0x10000
    ensures Decodes(EscapeU(hi) + EscapeU(lo), CodePointToUtf8(0x10000 + hi % 0x10000 % 0x400 * 0x400 + lo % 0x400))
  {
    var c := CodePointToUtf8(0x10000 + hi % 0x10000 % 0x400 * 0x400 + lo % 0x400);
    forall t: bytes ensures DecodeBody(EscapeU(hi) + EscapeU(lo) + t) == Then(c, DecodeBody(t)) {
      var u := EscapeU(hi) + EscapeU(lo) + t;
      assert u[2..] == Hex16(hi) + (EscapeU(lo) + t);
      SurrogatePair(u[2..], hi, lo, t);
      assert u[12..] == t;
    }
  }

  lemma {:induction false} DecodeTwo(a: bytes, b: bytes, c: bytes, d: bytes)
    requires Decodes(a, c) && Decodes(b, d)
    ensures Decodes(a + b, c + d)
  {
    hide DecodeBody;
    forall t: bytes ensures DecodeBody(a + b + t) == Then(c + d, DecodeBody(t)) {
      assert a + b + t == a + (b + t);
      var r := DecodeBody(t);
      if r.Some? { assert c + (d + r.value) == c + d + r.value; }
    }
  }

  lemma {:induction false} DecodeAscii(cp: byte)
    requires cp != QUOTE && cp != BACKSLASH && cp < 0x80
    ensures Decodes([cp], CodePointToUtf8(cp))
  {
    forall t: bytes ensures DecodeBody([cp] + t) == Then([cp], DecodeBody(t)) {
      assert ([cp] + t)[1..] == t;
    }
  }

  lemma {:induction false} DecodeShort(b: byte)
    requires ShortEscape(b).Some?
    ensures Decodes([BACKSLASH, ShortEscape(b).value], [b])
  {
    var e := [BACKSLASH, ShortEscape(b).value];
    forall t: bytes ensures DecodeBody(e + t) == Then([b], DecodeBody(t)) {
      assert (e + t)[2..] == t;
    }
  }

  lemma {:induction false} DecodePiece(cp: nat)
    requires cp != QUOTE && cp != BACKSLASH && !(0xD800 <= cp <= 0xDFFF)
    ensures Decodes(Piece(cp), Reread(cp))
  {
    hide DecodeBody, Decodes, Hex16, CodePointToUtf8;
    if 0x20 <= cp < 0x80 {
      DecodeAscii(cp);
    } else if cp < 0x10000 {
      assert cp % 0x10000 == cp;
      DecodeSingle(cp);
    } else if 0xD800 <= HighUnit(cp) % 0x10000 <= 0xDBFF {
      DecodePair(HighUnit(cp), LowUnit(cp));
    } else {
      var hi, lo := HighUnit(cp), LowUnit(cp);
      assert lo % 0x10000 == lo;
      DecodeSingle(hi);
      DecodeSingle(lo);
      DecodeTwo(EscapeU(hi), EscapeU(lo), CodePointToUtf8(hi % 0x10000), CodePointToUtf8(lo));
    }
  }

  /** Decoding a quoted string always succeeds, whatever the bytes were. */
  lemma {:induction false} DecodeQuoted(s: bytes)
    ensures DecodeBody(QuoteBody(s)) == Some(ReadBack(s))
    decreases |s|
  {
    if s != [] {
      var (piece, n) := FirstPiece(s);
      DecodeQuoted(s[n..]);
      match ShortEscape(s[0]) {
        case Some(e) => DecodeShort(s[0]);
        case None =>
          FirstNotSpecial(s);
          DecodePiece(Utf8ToCodePoint(s).0);
      }
    }
  }

  /** The first unit written for a misread code point is no surrogate, but a character that takes three
      bytes. */
  lemma {:induction false} MisreadUnit(cp: nat)
    requires 0x40000 <= cp <= 0x10FFFF
    ensures Misread(cp) >= 0x10000
    ensures var hi := HighUnit(Misread(cp)) % 0x10000; 0x800 <= hi < 0xD800
  {
    var x, y := cp / 0x40000, cp % 0x40000;
    assert 1 <= x <= 4 && (x == 4 ==> y <= 0xFFFF);
    var z := y / 0x400;
    assert z <= 0xFF && (x == 4 ==> z <= 0x3F);
    assert Misread(cp) - 0x10000 == (x * 0x4000 - 0x40 + z) * 0x400 + y % 0x400;
    assert (Misread(cp) - 0x10000) / 0x400 == x * 0x4000 - 0x40 + z;
  }

  lemma {:induction false} RereadPair(cp: nat)
    requires 0x10000 <= cp < 0x40000
    ensures Reread(cp) == CodePointToUtf8(cp)
  {
    hide CodePointToUtf8;
    var hi, lo := HighUnit(cp), LowUnit(cp);
    var a, b := (cp - 0x10000) / 0x400, (cp - 0x10000) % 0x400;
    assert a < 0x400 && hi == 54 * 0x400 + a && lo == 55 * 0x400 + b;
    assert hi % 0x10000 == hi;
    assert hi % 0x400 == a && lo % 0x400 == b;
    assert 0x10000 + a * 0x400 + b == cp;
  }

  lemma {:induction false} RereadMisread(cp: nat)
    requires 0x40000 <= cp <= 0x10FFFF
    ensures Reread(Misread(cp)) != [] && Reread(Misread(cp))[0] < 0xF0 <= CodePointToUtf8(cp)[0]
  {
    MisreadUnit(cp);
    var hi := HighUnit(Misread(cp)) % 0x10000;
    assert CodePointToUtf8(hi) != [] && CodePointToUtf8(hi)[0] < 0xF0;
    assert Reread(Misread(cp)) == CodePointToUtf8(hi) + CodePointToUtf8(LowUnit(Misread(cp)));
  }

  /** A string reads back as itself if and only if none of its code points is U+40000 or above. */
  lemma {:induction false} ReadBackExact(cps: seq<nat>)
    requires AllScalar(cps)
    ensures ReadBack(Utf8(cps)) == Utf8(cps) <==> forall i :: 0 <= i < |cps| ==> cps[i] < 0x40000
  {
    if cps != [] {
      var cp, s, tail := cps[0], Utf8(cps), Utf8(cps[1..]);
      var u := CodePointToUtf8(cp);
      ReadBackExact(cps[1..]);
      DecodeEncoded(cp, tail);
      assert s == u + tail && s[|u|..] == tail && s[0] == u[0];
      var r := ReadBackHead(cp, tail);
      if cp < 0x40000 {
        SamePrefix(u, ReadBack(tail), tail);
      } else {
        RereadMisread(cp);
        assert ReadBack(s)[0] == r[0];
      }
      assert (forall i :: 0 <= i < |cps| ==> cps[i] < 0x40000) <==>
             cps[0] < 0x40000 && forall i :: 0 <= i < |cps[1..]| ==> cps[1..][i] < 0x40000 by {
        assert forall i :: 0 < i < |cps| ==> cps[i] == cps[1..][i - 1];
      }
    }
  }

  lemma {:induction false} SamePrefix(u: bytes, a: bytes, b: bytes)
    ensures u + a == u + b <==> a == b
  {
    if u + a == u + b {
      assert a == (u + a)[|u|..] && b == (u + b)[|u|..];
    }
  }

  /** Reading back steps over one well-formed code point. */
  lemma {:induction false} ReadBackHead(cp: nat, tail: bytes) returns (r: bytes)
    requires Scalar(cp)
    ensures ReadBack(CodePointToUtf8(cp) + tail) == r + ReadBack(tail)
    ensures cp < 0x40000 ==> r == CodePointToUtf8(cp)
    ensures cp >= 0x40000 ==> r == Reread(Misread(cp))
  {
    var u := CodePointToUtf8(cp);
    var s := u + tail;
    DecodeEncoded(cp, tail);
    assert s[|u|..] == tail;
    r := if ShortEscape(s[0]).Some? then [s[0]] else Reread(Misread(cp));
    if ShortEscape(s[0]).Some? {
      assert u == [cp];
    } else if 0x10000 <= cp < 0x40000 {
      RereadPair(cp);
    }
  }
}
