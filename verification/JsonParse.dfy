/**
  What the reader of src/net4cxx/common/configuration/json.cpp accepts: the tokenizer and the mutually
  recursive readValue, readObject and readArray, as functions of the text from the cursor on.
*/
module JsonParse {
  import opened Basics
  import opened JsonText
  import opened JsonNumber
  import opened JsonValues

  datatype TokenType =
    | EndOfStream | ObjectBegin | ObjectEnd | ArrayBegin | ArrayEnd | StringToken | NumberToken
    | TrueToken | FalseToken | NullToken | ArraySeparator | MemberSeparator | ErrorToken

  /** A token: its type, its text, and the text after it. */
  datatype Token = Token(kind: TokenType, text: bytes, rest: bytes)

  function SkipSpaces(t: bytes): (r: bytes)
    ensures |r| <= |t|
    ensures r != [] ==> !IsSpace(r[0])
  {
    if t != [] && IsSpace(t[0]) then SkipSpaces(t[1..]) else t
  }

  function CountDigits(t: bytes): (n: nat)
    ensures n <= |t|
  {
    if t != [] && IsDigit(t[0]) then 1 + CountDigits(t[1..]) else 0
  }

  const DOT: byte := 46

  predicate IsExponent(c: byte) { c == 101 || c == 69 }

  function FractionEnd(t: bytes, a: nat): (b: nat)
    requires a <= |t|
    ensures a <= b <= |t|
  {
    if a < |t| && t[a] == DOT then a + 1 + CountDigits(t[a + 1..]) else a
  }

  function ExponentEnd(t: bytes, b: nat): (e: nat)
    requires b <= |t|
    ensures b <= e <= |t|
  {
    if b < |t| && IsExponent(t[b]) then
      var c := if b + 1 < |t| && (t[b + 1] == 43 || t[b + 1] == MINUS) then b + 2 else b + 1;
      c + CountDigits(t[c..])
    else b
  }

  /** How much of t, which starts after the first character of a number, belongs to it. */
  function NumberEnd(t: bytes): (n: nat)
    ensures n <= |t|
  {
    ExponentEnd(t, FractionEnd(t, CountDigits(t)))
  }

  /** A keyword after its first character. */
  function Keyword(kind: TokenType, c: byte, word: bytes, r: bytes): (k: Token)
    ensures |k.rest| <= |r|
  {
    if word <= r then Token(kind, [c] + word, r[|word|..]) else Token(ErrorToken, [c], r)
  }

  function TokenAt(u: bytes): (k: Token)
    ensures |k.rest| <= |u|
    ensures k.rest == u ==> k.kind == EndOfStream
    ensures u != [] ==> |k.rest| < |u|
    ensures k.kind.StringToken? ==> |k.text| >= 2
    ensures k.kind.NumberToken? ==> k.text != []
  {
    if u == [] then Token(EndOfStream, [], [])
    else
      var c, r := u[0], u[1..];
      if c == LBRACE then Token(ObjectBegin, [c], r)
      else if c == RBRACE then Token(ObjectEnd, [c], r)
      else if c == LBRACKET then Token(ArrayBegin, [c], r)
      else if c == RBRACKET then Token(ArrayEnd, [c], r)
      else if c == QUOTE then
        match StringEnd(r)
        case Some(n) => Token(StringToken, [c] + r[..n], r[n..])
        case None => Token(ErrorToken, u, [])
      else if IsDigit(c) then Token(NumberToken, [c] + r[..NumberEnd(r)], r[NumberEnd(r)..])
      else if c == MINUS then
        if r != [] && r[0] == 73 then Token(ErrorToken, u[..2], r[1..])  // -I: no special floats
        else Token(NumberToken, [c] + r[..NumberEnd(r)], r[NumberEnd(r)..])
      else if c == 116 then Keyword(TrueToken, c, TRUE_TEXT[1..], r)
      else if c == 102 then Keyword(FalseToken, c, FALSE_TEXT[1..], r)
      else if c == 110 then Keyword(NullToken, c, NULL_TEXT[1..], r)
      else if c == COMMA then Token(ArraySeparator, [c], r)
      else if c == COLON then Token(MemberSeparator, [c], r)
      else if c == 0 then Token(EndOfStream, [c], r)
      else Token(ErrorToken, [c], r)
  }

  /** readToken. */
  function NextToken(t: bytes): (k: Token)
    ensures |k.rest| <= |t|
    ensures k.kind != EndOfStream ==> |k.rest| < |t|
    ensures k.kind.StringToken? ==> |k.text| >= 2
    ensures k.kind.NumberToken? ==> k.text != []
  {
    TokenAt(SkipSpaces(t))
  }

  /** The settings of the reader that matter without comments, special floats and dropped nulls, and the
      tokens of which the C library's sscanf can make a double. */
  datatype Features =
    Features(strictRoot: bool, failIfExtra: bool, rejectDupKeys: bool, stackLimit: int, scans: bytes -> bool)

  /** A value and the text after it, a syntax error, or an exception (nested too deeply, key too long). */
  datatype Outcome = Parsed(v: Json, rest: bytes) | Rejected | Thrown

  /** readValue with the given number of open nodes. */
  function ParseValue(f: Features, t: bytes, nodes: nat): (r: Outcome)
    ensures r.Parsed? ==> |r.rest| < |t|
    decreases |t|, 2
  {
    if nodes > f.stackLimit then Thrown
    else
      var k := NextToken(t);
      match k.kind
      case ObjectBegin => ParseMembers(f, k.rest, nodes, [], [])
      case ArrayBegin => ParseArray(f, k.rest, nodes)
      case NumberToken =>
        var n := NumberOf(k.text);
        if n.Real? && !f.scans(k.text) then Rejected else Parsed(Num(n), k.rest)
      case StringToken =>
        (match DecodeBody(k.text[1..|k.text| - 1])
         case Some(s) => Parsed(Str(s), k.rest)
         case None => Rejected)
      case TrueToken => Parsed(Bool(true), k.rest)
      case FalseToken => Parsed(Bool(false), k.rest)
      case NullToken => Parsed(Null, k.rest)
      case _ => Rejected
  }

  /** readArray after the opening bracket. */
  function ParseArray(f: Features, t: bytes, nodes: nat): (r: Outcome)
    ensures r.Parsed? ==> |r.rest| < |t|
    decreases |t|, 4
  {
    var u := SkipSpaces(t);
    if u != [] && u[0] == RBRACKET then Parsed(Arr([]), u[1..]) else ParseElements(f, u, nodes, [])
  }

  /** The loop of readArray with the elements read so far. */
  function ParseElements(f: Features, t: bytes, nodes: nat, items: seq<Json>): (r: Outcome)
    ensures r.Parsed? ==> |r.rest| < |t|
    decreases |t|, 3
  {
    match ParseValue(f, t, nodes + 1)
    case Rejected => Rejected
    case Thrown => Thrown
    case Parsed(v, rest) =>
      var k := NextToken(rest);
      match k.kind
      case ArraySeparator => ParseElements(f, k.rest, nodes, items + [v])
      case ArrayEnd => Parsed(Arr(items + [v]), k.rest)
      case _ => Rejected
  }

  /** The loop of readObject with the members read so far and the last key. A closing brace may follow a
      comma if that key was empty. */
  function ParseMembers(f: Features, t: bytes, nodes: nat, ms: seq<Member>, name: bytes): (r: Outcome)
    ensures r.Parsed? ==> |r.rest| < |t|
    decreases |t|, 3
  {
    var k := NextToken(t);
    if k.kind == ObjectEnd && name == [] then Parsed(Obj(ms), k.rest)
    else if k.kind != StringToken then Rejected
    else
      match DecodeBody(k.text[1..|k.text| - 1])
      case None => Rejected
      case Some(key) =>
        var colon := NextToken(k.rest);
        if colon.kind != MemberSeparator then Rejected
        else if |key| >= 0x4000_0000 then Thrown
        else if f.rejectDupKeys && Find(ms, CStr(key)).Some? then Rejected
        else
          match ParseValue(f, colon.rest, nodes + 1)
          case Rejected => Rejected
          case Thrown => Thrown
          case Parsed(v, rest) =>
            var comma := NextToken(rest);
            match comma.kind
            case ObjectEnd => Parsed(Obj(Insert(ms, CStr(key), v)), comma.rest)
            case ArraySeparator => ParseMembers(f, comma.rest, nodes, Insert(ms, CStr(key), v), key)
            case _ => Rejected
  }

  datatype ParseResult = Accepted(v: Json) | Failed | Threw

  /** parse. */
  function Parse(f: Features, t: bytes): ParseResult {
    match ParseValue(f, t, 1)
    case Rejected => Failed
    case Thrown => Threw
    case Parsed(v, rest) =>
      var k := NextToken(rest);
      if f.failIfExtra && (f.strictRoot || k.kind != ErrorToken) && k.kind != EndOfStream then Failed
      else if f.strictRoot && !v.Arr? && !v.Obj? then Failed
      else Accepted(v)
  }

  // ----- tokens of laid-out text -----

  lemma {:induction false} SkipLeading(w: bytes, t: bytes)
    requires Spaces(w) && (t == [] || !IsSpace(t[0]))
    ensures SkipSpaces(w + t) == t
  {
    if w == [] {
      assert w + t == t;
    } else {
      assert (w + t)[1..] == w[1..] + t;
      SkipLeading(w[1..], t);
    }
  }

  /** The text cannot continue a number. */
  predicate Stops(t: bytes) { t == [] || (!IsDigit(t[0]) && t[0] != DOT && !IsExponent(t[0])) }

  lemma {:induction false} CountAll(ds: bytes, t: bytes)
    requires AllDigits(ds) && Stops(t)
    ensures CountDigits(ds + t) == |ds|
  {
    if ds == [] {
      assert ds + t == t;
    } else {
      assert (ds + t)[1..] == ds[1..] + t;
      CountAll(ds[1..], t);
    }
  }

  lemma {:induction false} NumberStops(ds: bytes, t: bytes)
    requires AllDigits(ds) && Stops(t)
    ensures NumberEnd(ds + t) == |ds|
  {
    CountAll(ds, t);
  }

  lemma {:induction false} NumberTokenAt(c: byte, ds: bytes, t: bytes)
    requires (IsDigit(c) || c == MINUS) && AllDigits(ds) && Stops(t) && (c == MINUS ==> ds != [])
    ensures TokenAt([c] + ds + t) == Token(NumberToken, [c] + ds, t)
  {
    hide NumberEnd, Stops;
    var u := [c] + ds + t;
    assert u[1..] == ds + t;
    NumberStops(ds, t);
    assert (ds + t)[..|ds|] == ds && (ds + t)[|ds|..] == t;
    if c == MINUS { assert u[1] == ds[0]; }
  }

  /** A printed integer is one token. */
  lemma {:induction false} IntToken(i: int, t: bytes)
    requires Stops(t)
    ensures TokenAt(IntText(i) + t) == Token(NumberToken, IntText(i), t)
    ensures IntText(i) != [] && (IsDigit(IntText(i)[0]) || IntText(i)[0] == MINUS)
  {
    hide TokenAt;
    if i < 0 { DecimalInverse(0 - i); } else { DecimalInverse(i); }
    var c, ds := IntText(i)[0], IntText(i)[1..];
    assert [c] + ds == IntText(i);
    NumberTokenAt(c, ds, t);
  }

  /** A quoted string is one token, and decodes to what quoting keeps of it. */
  lemma {:induction false} QuotedToken(s: bytes, t: bytes)
    ensures TokenAt(Quoted(s) + t) == Token(StringToken, Quoted(s), t)
    ensures Quoted(s)[1..|Quoted(s)| - 1] == QuoteBody(s)
    ensures DecodeBody(QuoteBody(s)) == Some(ReadBack(s))
  {
    var u := Quoted(s) + t;
    var body := QuoteBody(s) + [QUOTE];
    assert u[1..] == body + t;
    StringEndOfQuoted(s, t);
    assert (body + t)[..|body|] == body && (body + t)[|body|..] == t;
    assert [QUOTE] + body == Quoted(s);
    DecodeQuoted(s);
  }

  lemma {:induction false} KeywordParses(f: Features, v: Json, t: bytes, nodes: nat)
    requires v.Null? || v.Bool?
    ensures ParseValue(f, LeafText(v) + t, nodes) == if nodes > f.stackLimit then Thrown else Parsed(v, t)
  {
    var u, word := LeafText(v) + t, LeafText(v);
    assert u[1..] == word[1..] + t;
    assert word[1..] <= u[1..];
    assert u[1..][|word| - 1..] == t;
  }

  lemma {:induction false} IntParses(f: Features, i: int, t: bytes, nodes: nat)
    requires Stops(t) && !NumberOf(IntText(i)).Real?
    ensures ParseValue(f, IntText(i) + t, nodes)
      == if nodes > f.stackLimit then Thrown else Parsed(Num(NumberOf(IntText(i))), t)
    ensures IntText(i) != [] && (IsDigit(IntText(i)[0]) || IntText(i)[0] == MINUS)
  {
    hide TokenAt, IntText, NumberOf;
    IntToken(i, t);
  }

  lemma {:induction false} StringParses(f: Features, s: bytes, t: bytes, nodes: nat)
    ensures ParseValue(f, Quoted(s) + t, nodes) == if nodes > f.stackLimit then Thrown else Parsed(Str(ReadBack(s)), t)
    ensures Quoted(s) != [] && Quoted(s)[0] == QUOTE
  {
    hide TokenAt, Quoted;
    QuotedToken(s, t);
    QuotedStarts(s);
  }

  lemma {:induction false} LeafParses(f: Features, v: Json, t: bytes, nodes: nat)
    requires Spelled(v) && !v.Arr? && !v.Obj? && Stops(t)
    ensures ParseValue(f, LeafText(v) + t, nodes) == if nodes > f.stackLimit then Thrown else Parsed(Canon(v), t)
    ensures LeafText(v) != [] && !IsSpace(LeafText(v)[0]) && LeafText(v)[0] != RBRACKET
  {
    hide ParseValue, IntText, Quoted;
    match v
    case Num(Int(i)) => NumberOfText(i); IntParses(f, i, t, nodes);
    case Num(UInt(n)) => NumberOfText(n); IntParses(f, n, t, nodes);
    case Str(s) => StringParses(f, s, t, nodes);
    case _ => KeywordParses(f, v, t, nodes);
  }

  lemma {:induction false} QuotedStarts(s: bytes)
    ensures Quoted(s) != [] && Quoted(s)[0] == QUOTE
  {
  }

  // ----- what every text reads as -----

  /** Whatever the text: a value that is read is one that a JsonValue can hold. */
  lemma {:induction false} ParsedIsHeld(f: Features, t: bytes, nodes: nat)
    ensures ParseValue(f, t, nodes).Parsed? ==> Held(ParseValue(f, t, nodes).v)
    decreases |t|, 2
  {
    hide TokenAt, SkipSpaces, DecodeBody, NumberOf, ParseMembers, ParseArray;
    var k := NextToken(t);
    if nodes <= f.stackLimit {
      if k.kind.ObjectBegin? { MembersAreHeld(f, k.rest, nodes, [], []); }
      if k.kind.ArrayBegin? { ArrayIsHeld(f, k.rest, nodes); }
    }
  }

  lemma {:induction false} ArrayIsHeld(f: Features, t: bytes, nodes: nat)
    ensures ParseArray(f, t, nodes).Parsed? ==> Held(ParseArray(f, t, nodes).v)
    decreases |t|, 4
  {
    ElementsAreHeld(f, SkipSpaces(t), nodes, []);
  }

  lemma {:induction false} ElementsAreHeld(f: Features, t: bytes, nodes: nat, items: seq<Json>)
    requires Held(Arr(items))
    ensures ParseElements(f, t, nodes, items).Parsed? ==> Held(ParseElements(f, t, nodes, items).v)
    decreases |t|, 3
  {
    hide ParseValue, NextToken;
    ParsedIsHeld(f, t, nodes + 1);
    var r := ParseValue(f, t, nodes + 1);
    if r.Parsed? {
      assert Held(Arr(items + [r.v]));
      var k := NextToken(r.rest);
      if k.kind.ArraySeparator? { ElementsAreHeld(f, k.rest, nodes, items + [r.v]); }
    }
  }

  lemma {:induction false} MembersAreHeld(f: Features, t: bytes, nodes: nat, ms: seq<Member>, name: bytes)
    requires Held(Obj(ms))
    ensures ParseMembers(f, t, nodes, ms, name).Parsed? ==> Held(ParseMembers(f, t, nodes, ms, name).v)
    decreases |t|, 3
  {
    hide ParseValue, NextToken, DecodeBody, Held, Insert, Find;
    var k := NextToken(t);
    if k.kind.StringToken? && DecodeBody(k.text[1..|k.text| - 1]).Some? {
      var key := DecodeBody(k.text[1..|k.text| - 1]).value;
      var colon := NextToken(k.rest);
      ParsedIsHeld(f, colon.rest, nodes + 1);
      var r := ParseValue(f, colon.rest, nodes + 1);
      if r.Parsed? {
        InsertHeld(ms, CStr(key), r.v);
        var comma := NextToken(r.rest);
        if comma.kind.ArraySeparator? {
          MembersAreHeld(f, comma.rest, nodes, Insert(ms, CStr(key), r.v), key);
        }
      }
    }
  }
}
