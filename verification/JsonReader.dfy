/**
  BuiltReader of src/net4cxx/common/configuration/json.{h,cpp}: a cursor over the document and a count of
  the open nodes. Each method is tied to the function of JsonParse on the text from the cursor on. Comments,
  special floats, numeric keys, single quotes and dropped nulls are off.
*/
module JsonReader {
  import opened Basics
  import opened JsonText
  import opened JsonNumber
  import opened JsonValues
  import opened JsonParse
  import opened JsonLayouts
  import opened JsonWriter

  datatype Status = Good | Bad | Raised

  /** What a method that reads a value must have done, given what the text says. */
  ghost predicate Agrees(o: Outcome, s: Status, v: Json, rest: bytes) {
    match o
    case Parsed(w, r) => s == Good && v == w && rest == r
    case Rejected => s == Bad
    case Thrown => s == Raised
  }

  lemma {:induction false} DropDrop(t: bytes, a: nat, b: nat)
    requires a <= b <= |t|
    ensures t[a..][b - a..] == t[b..]
    ensures t[a..][..b - a] == t[a..b]
  {
  }

  lemma {:induction false} Inside(t: bytes, a: nat, b: nat)
    requires a + 2 <= b <= |t|
    ensures t[a..b][1..b - a - 1] == t[a + 1..b - 1]
  {
    var x, y := t[a..b][1..b - a - 1], t[a + 1..b - 1];
    assert |x| == |y| && forall i :: 0 <= i < |x| ==> x[i] == y[i];
  }

  class BuiltReader {
    const text: bytes
    const features: Features
    var current: nat
    var nodes: nat

    constructor (text: bytes, features: Features)
      ensures this.text == text && this.features == features && current == 0 && nodes == 0
    {
      this.text, this.features := text, features;
      current, nodes := 0, 0;
    }

    ghost predicate Valid()
      reads this
    {
      current <= |text|
    }

    ghost function Rest(): bytes
      reads this
      requires Valid()
    {
      text[current..]
    }

    /** The next character, or NUL at the end. */
    method GetNextChar() returns (c: byte)
      requires Valid()
      modifies `current
      ensures Valid()
      ensures old(Rest()) == [] ==> c == 0 && current == old(current)
      ensures old(Rest()) != [] ==> c == old(Rest())[0] && Rest() == old(Rest())[1..] && current == old(current) + 1
    {
      if current == |text| {
        return 0;
      }
      c := text[current];
      DropDrop(text, current, current + 1);
      current := current + 1;
    }

    method SkipBlanks()
      requires Valid()
      modifies `current
      ensures Valid() && Rest() == SkipSpaces(old(Rest())) && current >= old(current)
    {
      while current != |text| && IsSpace(text[current])
        invariant Valid() && SkipSpaces(Rest()) == SkipSpaces(old(Rest())) && current >= old(current)
        decreases |text| - current
      {
        DropDrop(text, current, current + 1);
        current := current + 1;
      }
    }

    /** The rest of a keyword, compared from its end. */
    method Match(pattern: bytes) returns (ok: bool)
      requires Valid()
      modifies `current
      ensures Valid() && ok == (pattern <= old(Rest()))
      ensures current == old(current) + if ok then |pattern| else 0
    {
      if |text| - current < |pattern| {
        return false;
      }
      var index := |pattern|;
      while index > 0
        invariant 0 <= index <= |pattern|
        invariant forall j :: index <= j < |pattern| ==> text[current + j] == pattern[j]
      {
        index := index - 1;
        if text[current + index] != pattern[index] {
          assert Rest()[index] != pattern[index];
          return false;
        }
      }
      assert Rest()[..|pattern|] == pattern;
      current := current + |pattern|;
      ok := true;
    }

    /** Up to and with the closing quote. */
    method ReadString() returns (ok: bool)
      requires Valid()
      modifies `current
      ensures Valid()
      ensures ok == StringEnd(old(Rest())).Some?
      ensures current == if ok then old(current) + StringEnd(old(Rest())).value else |text|
    {
      var c: byte := 0;
      ghost var start := current;
      while current != |text|
        invariant start <= current <= |text| && c != QUOTE
        invariant StringEnd(text[start..]) ==
          match StringEnd(text[current..]) case None => None case Some(m) => Some(current - start + m)
        decreases |text| - current
      {
        ghost var at := current;
        c := GetNextChar();
        if c == BACKSLASH {
          var _ := GetNextChar();
          if at + 2 <= |text| { DropDrop(text, at, at + 2); }
        } else if c == QUOTE {
          break;
        } else {
          DropDrop(text, at, at + 1);
        }
      }
      ok := c == QUOTE;
    }

    /** Moves over digits. */
    method ReadDigits()
      requires Valid()
      modifies `current
      ensures Valid() && current == old(current) + CountDigits(old(Rest()))
    {
      ghost var start := current;
      while current < |text| && IsDigit(text[current])
        invariant start <= current <= |text|
        invariant CountDigits(text[start..]) == current - start + CountDigits(text[current..])
        decreases |text| - current
      {
        DropDrop(text, current, current + 1);
        current := current + 1;
      }
    }

    /** A number after its first character. False for -I. */
    method ReadNumber(checkInf: bool) returns (ok: bool)
      requires Valid()
      modifies `current
      ensures Valid()
      ensures ok == !(checkInf && old(Rest()) != [] && old(Rest())[0] == 73)
      ensures current == old(current) + if ok then NumberEnd(old(Rest())) else 1
    {
      hide CountDigits, FractionEnd, ExponentEnd;
      if checkInf && current != |text| && text[current] == 73 {
        current := current + 1;
        return false;
      }
      ghost var start := current;
      ReadDigits();
      ReadFraction(start);
      ReadExponent(start);
      ok := true;
    }

    method ReadFraction(ghost start: nat)
      requires Valid() && start <= current
      modifies `current
      ensures Valid() && start <= current
      ensures current == start + FractionEnd(text[start..], old(current) - start)
    {
      if current < |text| && text[current] == DOT {
        current := current + 1;
        DropDrop(text, start, current);
        ReadDigits();
      }
    }

    method ReadExponent(ghost start: nat)
      requires Valid() && start <= current
      modifies `current
      ensures Valid() && start <= current
      ensures current == start + ExponentEnd(text[start..], old(current) - start)
    {
      if current < |text| && IsExponent(text[current]) {
        current := current + 1;
        if current < |text| && (text[current] == 43 || text[current] == MINUS) {
          current := current + 1;
        }
        DropDrop(text, start, current);
        ReadDigits();
      }
    }

    /** The token that starts at a character just read. */
    method TokenFrom(c: byte, ghost start: nat) returns (kind: TokenType)
      requires Follows(start, c)
      modifies `current
      ensures Valid() && start < current
      ensures TokenAt(text[start..]) == Token(kind, text[start..current], Rest())
    {
      hide Keyword, StringEnd, NumberEnd, IsSpace;
      ghost var u := text[start..];
      assert u[0] == c && u[1..] == Rest() && text[start..current] == [c];
      if c == QUOTE { kind := StringFrom(start); }
      else if IsDigit(c) || c == MINUS { kind := NumberFrom(c, start); }
      else if c == 116 { kind := KeywordFrom(TrueToken, c, TRUE_TEXT[1..], start); }
      else if c == 102 { kind := KeywordFrom(FalseToken, c, FALSE_TEXT[1..], start); }
      else if c == 110 { kind := KeywordFrom(NullToken, c, NULL_TEXT[1..], start); }
      else if c == LBRACE { kind := ObjectBegin; }
      else if c == RBRACE { kind := ObjectEnd; }
      else if c == LBRACKET { kind := ArrayBegin; }
      else if c == RBRACKET { kind := ArrayEnd; }
      else if c == COMMA { kind := ArraySeparator; }
      else if c == COLON { kind := MemberSeparator; }
      else if c == 0 { kind := EndOfStream; }
      else { kind := ErrorToken; }
    }

    /** The cursor is just past the character c at start. */
    ghost predicate Follows(start: nat, c: byte)
      reads this
    {
      Valid() && current == start + 1 && text[start] == c
    }

    method StringFrom(ghost start: nat) returns (kind: TokenType)
      requires Follows(start, QUOTE)
      modifies `current
      ensures Valid() && start < current
      ensures Token(kind, text[start..current], Rest()) ==
        match StringEnd(text[start + 1..])
        case Some(n) => Token(StringToken, [QUOTE] + text[start + 1..][..n], text[start + 1..][n..])
        case None => Token(ErrorToken, text[start..], [])
    {
      hide StringEnd;
      var ok := ReadString();
      Extent(start, current);
      kind := if ok then StringToken else ErrorToken;
    }

    method NumberFrom(c: byte, ghost start: nat) returns (kind: TokenType)
      requires Follows(start, c) && (IsDigit(c) || c == MINUS)
      modifies `current
      ensures Valid() && start < current
      ensures var r := text[start + 1..];
        Token(kind, text[start..current], Rest()) ==
          if c == MINUS && r != [] && r[0] == 73 then Token(ErrorToken, text[start..][..2], r[1..])
          else Token(NumberToken, [c] + r[..NumberEnd(r)], r[NumberEnd(r)..])
    {
      hide NumberEnd;
      var ok := ReadNumber(c == MINUS);
      Extent(start, current);
      kind := if ok then NumberToken else ErrorToken;
    }

    method KeywordFrom(word: TokenType, c: byte, pattern: bytes, ghost start: nat) returns (kind: TokenType)
      requires Follows(start, c)
      modifies `current
      ensures Valid() && start < current
      ensures Keyword(word, c, pattern, text[start + 1..]) == Token(kind, text[start..current], Rest())
    {
      var ok := Match(pattern);
      Extent(start, current);
      kind := if ok then word else ErrorToken;
    }

    lemma {:induction false} Extent(start: nat, end: nat)
      requires start < end <= |text|
      ensures text[start..end] == [text[start]] + text[start + 1..][..end - start - 1]
      ensures text[end..] == text[start + 1..][end - start - 1..]
      ensures text[start..end] == text[start..][..end - start]
    {
    }

    method ReadToken() returns (kind: TokenType, start: nat, end: nat)
      requires Valid()
      modifies `current
      ensures Valid() && old(current) <= start <= end == current
      ensures NextToken(old(Rest())) == Token(kind, text[start..end], Rest())
    {
      hide TokenAt;
      SkipBlanks();
      start := current;
      if current == |text| {
        TokenAtEnd();
        return EndOfStream, start, current;
      }
      var c := GetNextChar();
      kind := TokenFrom(c, start);
      end := current;
    }

    lemma {:induction false} TokenAtEnd()
      ensures TokenAt([]) == Token(EndOfStream, [], [])
    {
    }

    /** Drops tokens up to one of the given type, or to the end. */
    method RecoverFromError(skipUntil: TokenType)
      requires Valid()
      modifies `current
      ensures Valid() && current >= old(current)
    {
      while true
        invariant Valid() && current >= old(current)
        decreases |text| - current
      {
        var kind, _, _ := ReadToken();
        if kind == skipUntil || kind == EndOfStream {
          break;
        }
      }
    }

    method ReadValue() returns (s: Status, v: Json)
      requires Valid()
      modifies `current, `nodes
      ensures Valid() && current >= old(current) && (!s.Raised? ==> nodes == old(nodes))
      ensures Agrees(ParseValue(features, old(Rest()), old(nodes)), s, v, Rest())
      decreases |text| - current, 2
    {
      hide NextToken, NumberOf, DecodeBody, ParseMembers, ParseArray;
      v := Null;
      if nodes > features.stackLimit {
        return Raised, v;
      }
      s := Good;
      var kind, start, end := ReadToken();
      match kind {
        case ObjectBegin =>
          s, v := ReadObject();
        case ArrayBegin =>
          s, v := ReadArray();
        case NumberToken =>
          var n := DecodeNumber(text[start..end]);
          if n.Real? && !features.scans(text[start..end]) {
            s := Bad;
          } else {
            v := Num(n);
          }
        case StringToken =>
          var content := text[start..end];
          var decoded := DecodeString(content[1..|content| - 1]);
          match decoded {
            case Some(str) => v := Str(str);
            case None => s := Bad;
          }
        case TrueToken => v := Bool(true);
        case FalseToken => v := Bool(false);
        case NullToken =>
        case _ => s := Bad;
      }
    }

    /** A value one level down. */
    method ReadNested() returns (s: Status, v: Json)
      requires Valid()
      modifies `current, `nodes
      ensures Valid() && current >= old(current) && (!s.Raised? ==> nodes == old(nodes))
      ensures Agrees(ParseValue(features, old(Rest()), old(nodes) + 1), s, v, Rest())
      decreases |text| - current, 3
    {
      hide ParseValue;
      nodes := nodes + 1;
      s, v := ReadValue();
      if !s.Raised? {
        nodes := nodes - 1;
      }
    }

    method ReadArray() returns (s: Status, v: Json)
      requires Valid()
      modifies `current, `nodes
      ensures Valid() && current >= old(current) && (!s.Raised? ==> nodes == old(nodes))
      ensures Agrees(ParseArray(features, old(Rest()), old(nodes)), s, v, Rest())
      decreases |text| - current, 5
    {
      hide ParseElements;
      SkipBlanks();
      if current != |text| && text[current] == RBRACKET {
        CloseAt(current);
        var _, _, _ := ReadToken();
        return Good, Arr([]);
      }
      s, v := ReadElements();
    }

    lemma {:induction false} CloseAt(at: nat)
      requires at < |text| && text[at] == RBRACKET
      ensures NextToken(text[at..]) == Token(ArrayEnd, [RBRACKET], text[at..][1..])
    {
    }

    /** The loop of readArray. */
    method ReadElements() returns (s: Status, v: Json)
      requires Valid()
      modifies `current, `nodes
      ensures Valid() && current >= old(current) && (!s.Raised? ==> nodes == old(nodes))
      ensures Agrees(ParseElements(features, old(Rest()), old(nodes), []), s, v, Rest())
      decreases |text| - current, 4
    {
      hide NextToken, ParseValue;
      var items := [];
      while true
        invariant Valid() && current >= old(current) && nodes == old(nodes)
        invariant ParseElements(features, old(Rest()), old(nodes), [])
          == ParseElements(features, Rest(), nodes, items)
        decreases |text| - current
      {
        s, v := ReadNested();
        if s.Raised? {
          return;
        }
        if s.Bad? {
          RecoverFromError(ArrayEnd);
          return;
        }
        items := items + [v];
        var kind, _, _ := ReadToken();
        if kind != ArraySeparator && kind != ArrayEnd {
          RecoverFromError(ArrayEnd);
          return Bad, v;
        }
        if kind == ArrayEnd {
          return Good, Arr(items);
        }
      }
    }

    /** From the token of a member's name to the colon after it. */
    method ReadName(start: nat, end: nat, members: seq<Member>) returns (s: Status, name: bytes)
      requires Valid() && start + 2 <= end <= |text|
      modifies `current
      ensures Valid() && current >= old(current)
      ensures match DecodeBody(text[start + 1..end - 1])
        case None => s == Bad
        case Some(key) =>
          var colon := NextToken(old(Rest()));
          if colon.kind != MemberSeparator then s == Bad
          else if |key| >= 0x4000_0000 then s == Raised
          else if features.rejectDupKeys && Find(members, CStr(key)).Some? then s == Bad
          else s == Good && name == key && Rest() == colon.rest
    {
      hide NextToken, DecodeBody, Find, CStr;
      s, name := Good, [];
      var decoded := DecodeString(text[start + 1..end - 1]);
      if decoded.None? {
        RecoverFromError(ObjectEnd);
        return Bad, name;
      }
      name := decoded.value;
      var colon, _, _ := ReadToken();
      if colon != MemberSeparator {
        RecoverFromError(ObjectEnd);
        return Bad, name;
      }
      if |name| >= 0x4000_0000 {
        return Raised, name;
      }
      if features.rejectDupKeys && Find(members, CStr(name)).Some? {
        RecoverFromError(ObjectEnd);
        return Bad, name;
      }
    }

    method ReadObject() returns (s: Status, v: Json)
      requires Valid()
      modifies `current, `nodes
      ensures Valid() && current >= old(current) && (!s.Raised? ==> nodes == old(nodes))
      ensures Agrees(ParseMembers(features, old(Rest()), old(nodes), [], []), s, v, Rest())
      decreases |text| - current, 4
    {
      hide NextToken, ParseValue, DecodeBody, Find, Insert, CStr;
      var members, name: bytes := [], [];
      v := Null;
      while true
        invariant Valid() && current >= old(current) && nodes == old(nodes)
        invariant ParseMembers(features, old(Rest()), old(nodes), [], [])
          == ParseMembers(features, Rest(), nodes, members, name)
        decreases |text| - current
      {
        var kind, start, end := ReadToken();
        if kind == ObjectEnd && name == [] {
          return Good, Obj(members);
        }
        if kind != StringToken {
          RecoverFromError(ObjectEnd);
          return Bad, v;
        }
        Inside(text, start, end);
        s, name := ReadName(start, end, members);
        if !s.Good? {
          return;
        }
        s, v := ReadNested();
        if s.Raised? {
          return;
        }
        if s.Bad? {
          RecoverFromError(ObjectEnd);
          return;
        }
        members := Insert(members, CStr(name), v);
        var comma, _, _ := ReadToken();
        if comma != ObjectEnd && comma != ArraySeparator {
          RecoverFromError(ObjectEnd);
          return Bad, v;
        }
        if comma == ObjectEnd {
          return Good, Obj(members);
        }
      }
    }

    method ParseText() returns (r: ParseResult)
      modifies this
      ensures r == Parse(features, text)
    {
      hide ParseValue, NextToken;
      current, nodes := 0, 1;
      assert text[0..] == text;
      var s, v := ReadValue();
      if s.Raised? {
        return Threw;
      }
      var kind, _, _ := ReadToken();
      if features.failIfExtra && (features.strictRoot || kind != ErrorToken) && kind != EndOfStream {
        return Failed;
      }
      if features.strictRoot && !v.Arr? && !v.Obj? {
        return Failed;
      }
      r := if s.Good? then Accepted(v) else Failed;
    }
  }

  // ----- printing, then reading -----

  /** Whatever the indentation, the comment style and the colon: reading what was printed gives the value,
      with unsigned integers that fit made signed, or throws exactly when the value is nested too deeply, or
      fails exactly when the root has to be an array or an object and is not. */
  method WriteThenParse(v: Json, indentation: bytes, style: CommentStyle, yaml: bool, f: Features)
    returns (r: ParseResult)
    requires Printable(v) && Spaces(indentation)
    ensures r == if Depth(v) > f.stackLimit then Threw
                 else if f.strictRoot && !v.Arr? && !v.Obj? then Failed
                 else Accepted(Canon(v))
  {
    hide Render, Parse, Canon, Spaced, Printable, Spelled, Overlong, Repeats;
    PrintableIsSpelled(v);
    var writer := new StyledStreamWriter(indentation, style, yaml);
    ghost var w, l := writer.Write(v);
    ParseDocument(f, w, l, []);
    var text := writer.out;
    assert text + [] == text;
    var reader := new BuiltReader(text, f);
    r := reader.ParseText();
  }

  ghost predicate IsUtf8(s: bytes) { exists cps :: AllScalar(cps) && s == Utf8(cps) }

  ghost predicate WellFormed(v: Json) {
    match v
    case Str(s) => IsUtf8(s)
    case Arr(items) => forall i :: 0 <= i < |items| ==> WellFormed(items[i])
    case Obj(ms) => Ascending(ms) && forall i :: 0 <= i < |ms| ==> KeyOk(ms[i].key) && WellFormed(ms[i].value)
    case _ => true
  }

  predicate Below(cps: seq<nat>) { forall i :: 0 <= i < |cps| ==> cps[i] < 0x40000 }

  /** No string holds a code point of U+40000 or above, and no unsigned integer fits an int64. */
  ghost predicate Narrow(v: Json) {
    match v
    case Num(UInt(u)) => u > INT64_MAX
    case Str(s) => forall cps :: AllScalar(cps) && s == Utf8(cps) ==> Below(cps)
    case Arr(items) => forall i :: 0 <= i < |items| ==> Narrow(items[i])
    case Obj(ms) => forall i :: 0 <= i < |ms| ==> Narrow(ms[i].value)
    case _ => true
  }

  /** What is read is the very value printed if and only if the value is narrow. */
  lemma {:induction false} CanonIsSame(v: Json)
    requires WellFormed(v)
    ensures Canon(v) == v <==> Narrow(v)
  {
    match v
    case Str(s) =>
      forall cps | AllScalar(cps) && s == Utf8(cps) ensures ReadBack(s) == s <==> Below(cps) {
        ReadBackExact(cps);
      }
      var cps :| AllScalar(cps) && s == Utf8(cps);
    case Arr(items) =>
      forall i | 0 <= i < |items| ensures Canon(items[i]) == items[i] <==> Narrow(items[i]) {
        CanonIsSame(items[i]);
      }
      if forall i :: 0 <= i < |items| ==> Narrow(items[i]) {
        assert CanonItems(items) == items;
      }
    case Obj(ms) =>
      forall i | 0 <= i < |ms| ensures Canon(ms[i].value) == ms[i].value <==> Narrow(ms[i].value) {
        CanonIsSame(ms[i].value);
      }
      AssignedInPlace(ms);
      if forall i :: 0 <= i < |ms| ==> Narrow(ms[i].value) {
        assert forall i :: 0 <= i < |ms| ==> Assigned(ms)[i] == ms[i];
      }
    case _ =>
  }
}
