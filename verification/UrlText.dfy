/**
  Percent and form encoding of src/net4cxx/common/httputils/urlparse.cpp. A std::string is a sequence of bytes;
  character constants are written as their codes.
*/
module UrlText {
  import opened Basics

  const PERCENT: byte := 37
  const PLUS: byte := 43
  const SPACE: byte := 32
  const AMPERSAND: byte := 38
  const SEMICOLON: byte := 59
  const EQUALS: byte := 61

  // ----- splitting and joining -----

  /** StrUtil::split: the pieces between delimiters, empty ones included. */
  function Split(s: bytes, d: byte): (r: seq<bytes>)
    ensures |r| >= 1 && forall i :: 0 <= i < |r| ==> d !in r[i]
  {
    if s == [] then [[]]
    else
      var r := Split(s[1..], d);
      if s[0] == d then [[]] + r else [[s[0]] + r[0]] + r[1..]
  }

  /** boost::join. */
  function Join(pieces: seq<bytes>, d: bytes): bytes {
    if pieces == [] then [] else if |pieces| == 1 then pieces[0] else pieces[0] + d + Join(pieces[1..], d)
  }

  lemma {:induction false} SplitStep(s: bytes, d: byte)
    requires s != []
    ensures var r := Split(s[1..], d); Split(s, d) == if s[0] == d then [[]] + r else [[s[0]] + r[0]] + r[1..]
  {
  }

  lemma {:induction false} SplitPlain(p: bytes, d: byte)
    requires d !in p
    ensures Split(p, d) == [p]
  {
    if p != [] {
      SplitPlain(p[1..], d);
      assert [p[0]] + p[1..] == p && [p[1..]][1..] == [];
    }
  }

  lemma {:induction false} SplitFirst(p: bytes, d: byte, t: bytes)
    requires d !in p
    ensures Split(p + [d] + t, d) == [p] + Split(t, d)
  {
    if p == [] {
      assert [] + [d] + t == [d] + t && ([d] + t)[1..] == t;
    } else {
      assert (p + [d] + t)[1..] == p[1..] + [d] + t;
      SplitFirst(p[1..], d, t);
      assert [p[0]] + p[1..] == p;
      assert ([p[1..]] + Split(t, d))[1..] == Split(t, d);
    }
  }

  /** Splitting what was joined gives the pieces back. */
  lemma {:induction false} SplitJoin(pieces: seq<bytes>, d: byte)
    requires pieces != [] && forall i :: 0 <= i < |pieces| ==> d !in pieces[i]
    ensures Split(Join(pieces, [d]), d) == pieces
  {
    if |pieces| == 1 {
      SplitPlain(pieces[0], d);
    } else {
      SplitJoin(pieces[1..], d);
      SplitFirst(pieces[0], d, Join(pieces[1..], [d]));
      assert [pieces[0]] + pieces[1..] == pieces;
    }
  }

  /** A delimiter separates what is before it from what is after it. */
  lemma {:induction false} SplitConcat(p: bytes, d: byte, t: bytes)
    ensures Split(p + [d] + t, d) == Split(p, d) + Split(t, d)
  {
    hide Split;
    var s, r := p + [d] + t, Split(t, d);
    SplitStep(s, d);
    if p == [] {
      assert s[1..] == t;
      SplitPlain(p, d);
    } else {
      assert s[1..] == p[1..] + [d] + t;
      SplitConcat(p[1..], d, t);
      SplitStep(p, d);
      FrontConcat(Split(p[1..], d), r, p[0]);
    }
  }

  lemma {:induction false} FrontConcat(q: seq<bytes>, r: seq<bytes>, c: byte)
    requires q != []
    ensures [[]] + (q + r) == [[]] + q + r
    ensures [[c] + (q + r)[0]] + (q + r)[1..] == [[c] + q[0]] + q[1..] + r
  {
  }

  lemma {:induction false} JoinConcat(a: seq<bytes>, b: seq<bytes>, d: bytes)
    requires a != [] && b != []
    ensures Join(a + b, d) == Join(a, d) + d + Join(b, d)
  {
    assert (a + b)[0] == a[0] && (a + b)[1..] == a[1..] + b;
    if |a| == 1 {
      assert a[1..] + b == b;
    } else {
      JoinConcat(a[1..], b, d);
      Assoc(a[0] + d, Join(a[1..], d) + d, Join(b, d));
      Assoc(a[0] + d, Join(a[1..], d), d);
    }
  }

  /** Joining what was split gives the string back. */
  lemma {:induction false} JoinSplit(s: bytes, d: byte)
    ensures Join(Split(s, d), [d]) == s
  {
    if s != [] {
      JoinSplit(s[1..], d);
      var r := Split(s[1..], d);
      if s[0] == d {
        assert ([[]] + r)[1..] == r;
        assert [] + [d] + s[1..] == s;
      } else {
        var q := [[s[0]] + r[0]] + r[1..];
        assert q[1..] == r[1..];
        if |r| == 1 {
          assert q[0] == s;
        } else {
          assert q[0] + [d] + Join(r[1..], [d]) == [s[0]] + (r[0] + [d] + Join(r[1..], [d]));
        }
      }
    }
  }

  // ----- percent encoding -----

  /** _alwaysSafe. */
  predicate AlwaysSafe(c: byte) {
    97 <= c <= 122 || 65 <= c <= 90 || 48 <= c <= 57 || c == 95 || c == 46 || c == 45
  }

  /** _safeMap. */
  function SafeMap(c: byte): bytes {
    if AlwaysSafe(c) then [c] else [PERCENT, UpperHexDigit(c / 16), UpperHexDigit(c % 16)]
  }

  /** _hexToChar. */
  function HexToChar(a: byte, b: byte): Option<byte> {
    match (HexValue(a), HexValue(b))
    case (Some(x), Some(y)) => Some(16 * x + y)
    case _ => None
  }

  predicate Safe(c: byte, safe: bytes) { c in safe || AlwaysSafe(c) }

  function Escape(c: byte, safe: bytes): bytes { if Safe(c, safe) then [c] else SafeMap(c) }

  /** What quote computes, character by character. */
  function Quoted(s: bytes, safe: bytes): bytes {
    if s == [] then [] else Escape(s[0], safe) + Quoted(s[1..], safe)
  }

  /** What unquote computes: escapes that are well formed are decoded, other percent signs stay. */
  function Unquoted(s: bytes): bytes
    decreases |s|
  {
    if s == [] then []
    else if s[0] == PERCENT && |s| >= 3 && HexToChar(s[1], s[2]).Some? then
      [HexToChar(s[1], s[2]).value] + Unquoted(s[3..])
    else [s[0]] + Unquoted(s[1..])
  }

  lemma {:induction false} UnquotedPlain(p: bytes, t: bytes)
    requires PERCENT !in p
    ensures Unquoted(p + t) == p + Unquoted(t)
  {
    if p == [] {
      assert p + t == t;
    } else {
      assert (p + t)[1..] == p[1..] + t;
      UnquotedPlain(p[1..], t);
    }
  }

  lemma {:induction false} UnquotedNothing(p: bytes)
    requires PERCENT !in p
    ensures Unquoted(p) == p
  {
    UnquotedPlain(p, []);
    assert p + [] == p;
  }

  lemma {:induction false} UnquotedEscape(c: byte, safe: bytes, t: bytes)
    requires PERCENT !in safe
    ensures Unquoted(Escape(c, safe) + t) == [c] + Unquoted(t)
  {
    var e := Escape(c, safe);
    assert (e + t)[|e|..] == t;
    if |e| == 3 {
      assert HexValue(UpperHexDigit(c / 16)) == Some(c / 16) && HexValue(UpperHexDigit(c % 16)) == Some(c % 16);
    }
  }

  lemma {:induction false} UnquotedQuoted(s: bytes, safe: bytes)
    requires PERCENT !in safe
    ensures Unquoted(Quoted(s, safe)) == s
  {
    if s != [] {
      UnquotedEscape(s[0], safe, Quoted(s[1..], safe));
      UnquotedQuoted(s[1..], safe);
    }
  }

  /** Unquoting undoes quoting on every string if and only if the percent sign is not declared safe. */
  lemma {:induction false} QuotingIsInvertible(safe: bytes)
    ensures PERCENT !in safe <==> forall s :: Unquoted(Quoted(s, safe)) == s
  {
    if PERCENT in safe {
      var s: bytes := [PERCENT, 52, 49];
      QuotedSafe(s, safe);
      assert HexToChar(52, 49) == Some(65) && Unquoted(s)[0] == 65;
    } else {
      forall s ensures Unquoted(Quoted(s, safe)) == s { UnquotedQuoted(s, safe); }
    }
  }

  lemma {:induction false} QuotedSafe(s: bytes, safe: bytes)
    requires forall i :: 0 <= i < |s| ==> Safe(s[i], safe)
    ensures Quoted(s, safe) == s
  {
    if s != [] { QuotedSafe(s[1..], safe); }
  }

  lemma {:induction false} QuotedLast(s: bytes, c: byte, safe: bytes)
    ensures Quoted(s + [c], safe) == Quoted(s, safe) + Escape(c, safe)
  {
    if s == [] {
      assert s + [c] == [c] && [c][1..] == [];
      assert Escape(c, safe) + [] == [] + Escape(c, safe);
    } else {
      assert (s + [c])[1..] == s[1..] + [c];
      QuotedLast(s[1..], c, safe);
      Assoc(Escape(s[0], safe), Quoted(s[1..], safe), Escape(c, safe));
    }
  }

  /** A string of safe characters is returned as it is, without a look at the table. */
  method Quote(s: bytes, safe: bytes) returns (r: bytes)
    ensures r == Quoted(s, safe)
  {
    if s == [] {
      return s;
    }
    var n := |s|;
    while n > 0 && Safe(s[n - 1], safe)
      invariant 0 <= n <= |s| && forall i :: n <= i < |s| ==> Safe(s[i], safe)
    {
      n := n - 1;
    }
    if n == 0 {
      QuotedSafe(s, safe);
      return s;
    }
    var pieces: seq<bytes> := [];
    for i := 0 to |s|
      invariant Flatten(pieces) == Quoted(s[..i], safe)
    {
      assert s[..i + 1] == s[..i] + [s[i]];
      QuotedLast(s[..i], s[i], safe);
      var piece := if Safe(s[i], safe) then [s[i]] else SafeMap(s[i]);
      FlattenLast(pieces, piece);
      pieces := pieces + [piece];
    }
    assert s[..|s|] == s;
    r := Flatten(pieces);
  }

  /** Letters, digits, underscores, full stops and hyphens. */
  predicate Unreserved(ch: char) {
    'A' <= ch <= 'Z' || 'a' <= ch <= 'z' || '0' <= ch <= '9' || ch == '_' || ch == '.' || ch == '-'
  }

  /** Exactly the unreserved characters and those declared safe are left as they are; any other becomes a percent
      sign and two hexadecimal digits. */
  lemma {:induction false} QuotedByte(c: byte, safe: bytes)
    ensures Quoted([c], safe) ==
      if Unreserved(c as char) || c in safe then [c]
      else ['%' as int, UpperHexDigit(c / 16), UpperHexDigit(c % 16)]
  {
    hide UpperHexDigit;
    assert [c][1..] == [];
    var e := Escape(c, safe);
    assert e + [] == e;
  }

  lemma {:induction false} QuotedConcat(a: bytes, b: bytes, safe: bytes)
    ensures Quoted(a + b, safe) == Quoted(a, safe) + Quoted(b, safe)
  {
    if a == [] {
      assert a + b == b;
    } else {
      assert (a + b)[1..] == a[1..] + b;
      QuotedConcat(a[1..], b, safe);
      Assoc(Escape(a[0], safe), Quoted(a[1..], safe), Quoted(b, safe));
    }
  }

  /** The percent signs of a string, and what follows each. */
  function Marked(bits: seq<bytes>): bytes {
    if bits == [] then [] else [PERCENT] + bits[0] + Marked(bits[1..])
  }

  lemma {:induction false} SplitMarked(s: bytes)
    ensures var r := Split(s, PERCENT); s == r[0] + Marked(r[1..])
  {
    if s != [] {
      SplitMarked(s[1..]);
      var q := Split(s[1..], PERCENT);
      if s[0] == PERCENT {
        assert ([[]] + q)[1..] == q;
        assert s == [PERCENT] + q[0] + Marked(q[1..]);
      } else {
        assert ([[s[0]] + q[0]] + q[1..])[1..] == q[1..];
        assert s == [s[0]] + (q[0] + Marked(q[1..]));
      }
    }
  }

  /** What unquoting makes of a percent sign and the bytes up to the next one. */
  lemma {:induction false} MarkedBit(bit: bytes, t: bytes)
    requires PERCENT !in bit && (t == [] || t[0] == PERCENT)
    ensures Unquoted([PERCENT] + bit + t) ==
      if |bit| >= 2 && HexToChar(bit[0], bit[1]).Some? then [HexToChar(bit[0], bit[1]).value] + bit[2..] + Unquoted(t)
      else [PERCENT] + bit + Unquoted(t)
  {
    var s := [PERCENT] + bit + t;
    if |bit| >= 2 && HexToChar(bit[0], bit[1]).Some? {
      assert s[3..] == bit[2..] + t;
      UnquotedPlain(bit[2..], t);
      Assoc([HexToChar(bit[0], bit[1]).value], bit[2..], Unquoted(t));
    } else {
      assert s[1..] == bit + t;
      UnquotedPlain(bit, t);
      Assoc([PERCENT], bit, Unquoted(t));
    }
  }

  method Unquote(s: bytes) returns (r: bytes)
    ensures r == Unquoted(s)
  {
    hide Split, HexToChar, Unquoted;
    var bits := Split(s, PERCENT);
    SplitMarked(s);
    UnquotedPlain(bits[0], Marked(bits[1..]));
    if |bits| == 1 {
      UnquotedNothing(bits[0]);
      assert bits[1..] == [] && Marked([]) == [] && bits[0] + [] == bits[0];
      return s;
    }
    var res := [bits[0]];
    assert Flatten(res) == bits[0] by { assert res[1..] == [] && bits[0] + [] == bits[0]; }
    for i := 1 to |bits|
      invariant Unquoted(s) == Flatten(res) + Unquoted(Marked(bits[i..]))
    {
      var bit := bits[i];
      var t := Marked(bits[i + 1..]);
      assert bits[i..][1..] == bits[i + 1..] && bits[i..][0] == bit;
      MarkedStart(bits[i + 1..]);
      MarkedBit(bit, t);
      ghost var before := Flatten(res);
      if |bit| < 2 {
        FlattenLast(res, [PERCENT]);
        FlattenLast(res + [[PERCENT]], bit);
        res := res + [[PERCENT]] + [bit];
        Assoc(before + [PERCENT], bit, Unquoted(t));
        Assoc(before, [PERCENT], bit + Unquoted(t));
        Assoc([PERCENT], bit, Unquoted(t));
      } else {
        var trans := HexToChar(bit[0], bit[1]);
        var head, tail := if trans.None? then [PERCENT] else [trans.value], if trans.None? then bit else bit[2..];
        FlattenLast(res, head);
        FlattenLast(res + [head], tail);
        res := res + [head] + [tail];
        Assoc(before + head, tail, Unquoted(t));
        Assoc(before, head, tail + Unquoted(t));
        Assoc(head, tail, Unquoted(t));
      }
    }
    assert bits[|bits|..] == [] && Marked([]) == [];
    UnquotedNothing([]);
    r := Flatten(res);
    assert r + [] == r;
  }

  lemma {:induction false} MarkedStart(bits: seq<bytes>)
    ensures Marked(bits) == [] || Marked(bits)[0] == PERCENT
  {
  }

  // ----- form encoding -----

  /** boost::replace_all of one character by another. */
  function Replaced(s: bytes, from: byte, to: byte): (r: bytes)
    ensures |r| == |s| && forall i :: 0 <= i < |s| ==> r[i] == if s[i] == from then to else s[i]
  {
    if s == [] then [] else [if s[0] == from then to else s[0]] + Replaced(s[1..], from, to)
  }

  function QuotedPlus(s: bytes, safe: bytes): bytes {
    if SPACE in s then Replaced(Quoted(s, safe + [SPACE]), SPACE, PLUS) else Quoted(s, safe)
  }

  function UnquotedPlus(s: bytes): bytes { Unquoted(Replaced(s, PLUS, SPACE)) }

  method QuotePlus(s: bytes, safe: bytes) returns (r: bytes)
    ensures r == QuotedPlus(s, safe)
  {
    if SPACE in s {
      var q := Quote(s, safe + [SPACE]);
      r := Replaced(q, SPACE, PLUS);
    } else {
      r := Quote(s, safe);
    }
  }

  /** The characters that quoting with some safe characters leaves or makes. */
  lemma {:induction false} QuotedChars(s: bytes, safe: bytes, c: byte)
    requires c in Quoted(s, safe)
    ensures Safe(c, safe) || c == PERCENT
  {
    var e := Escape(s[0], safe);
    if c !in e {
      assert c in Quoted(s[1..], safe);
      QuotedChars(s[1..], safe, c);
    }
  }

  lemma {:induction false} NoSpecials(s: bytes, safe: bytes)
    requires forall i :: 0 <= i < |safe| ==> safe[i] == SPACE
    ensures var q := Quoted(s, safe);
      PLUS !in q && AMPERSAND !in q && SEMICOLON !in q && EQUALS !in q && (safe == [] ==> SPACE !in q)
  {
    var q := Quoted(s, safe);
    forall c | c in q ensures Safe(c, safe) || c == PERCENT { QuotedChars(s, safe, c); }
  }

  /** Form encoding leaves none of the separators, and decodes to the string. */
  lemma {:induction false} PlusInverse(s: bytes)
    ensures UnquotedPlus(QuotedPlus(s, [])) == s
    ensures var q := QuotedPlus(s, []); AMPERSAND !in q && SEMICOLON !in q && EQUALS !in q
  {
    hide Quoted, Unquoted;
    var safe: bytes := if SPACE in s then [] + [SPACE] else [];
    NoSpecials(s, safe);
    UnquotedQuoted(s, safe);
    var q, p := Quoted(s, safe), QuotedPlus(s, []);
    var back := Replaced(p, PLUS, SPACE);
    assert |back| == |q| && forall i :: 0 <= i < |q| ==> q[i] in q && back[i] == q[i];
    assert back == q;
  }

  /** Quoting for forms works byte by byte: a space becomes a plus sign, and anything else what it is quoted to. */
  lemma {:induction false} QuotedPlusBytes(s: bytes)
    requires s != []
    ensures QuotedPlus(s, []) ==
      (if s[0] == ' ' as int then ['+' as int] else Quoted([s[0]], [])) + QuotedPlus(s[1..], [])
  {
    hide Quoted, QuotedPlus, Replaced;
    PlusQuoted(s);
    PlusQuoted(s[1..]);
    assert [s[0]] + s[1..] == s;
    QuotedConcat([s[0]], s[1..], [SPACE]);
    ReplacedConcat(Quoted([s[0]], [SPACE]), Quoted(s[1..], [SPACE]), SPACE, PLUS);
    PlusQuoted([s[0]]);
    if s[0] == SPACE {
      QuotedByte(SPACE, [SPACE]);
      assert Replaced([SPACE], SPACE, PLUS) == [PLUS];
    }
  }

  lemma {:induction false} ReplacedConcat(a: bytes, b: bytes, from: byte, to: byte)
    ensures Replaced(a + b, from, to) == Replaced(a, from, to) + Replaced(b, from, to)
  {
    hide Replaced;
  }

  lemma {:induction false} PlusQuoted(s: bytes)
    ensures QuotedPlus(s, []) == Replaced(Quoted(s, [SPACE]), SPACE, PLUS)
    ensures SPACE !in s ==> QuotedPlus(s, []) == Quoted(s, [])
  {
    hide Quoted;
    assert [] + [SPACE] == [SPACE];
    if SPACE !in s {
      SpaceUnused(s);
      NoSpecials(s, []);
      var q := Quoted(s, []);
      assert forall i :: 0 <= i < |q| ==> q[i] in q;
      assert Replaced(q, SPACE, PLUS) == q;
    }
  }

  lemma {:induction false} SpaceUnused(s: bytes)
    requires SPACE !in s
    ensures Quoted(s, [SPACE]) == Quoted(s, [])
  {
    if s != [] {
      SpaceUnused(s[1..]);
      assert s[0] in s;
    }
  }

  type Pair = (bytes, bytes)

  function Field(kv: Pair): bytes { QuotedPlus(kv.0, []) + [EQUALS] + QuotedPlus(kv.1, []) }

  function Fields(l: seq<Pair>): (r: seq<bytes>)
    ensures |r| == |l| && forall i :: 0 <= i < |l| ==> r[i] == Field(l[i])
  {
    if l == [] then [] else [Field(l[0])] + Fields(l[1..])
  }

  /** urlEncode of a list of pairs. */
  method UrlEncode(query: seq<Pair>) returns (r: bytes)
    ensures r == Join(Fields(query), [AMPERSAND])
  {
    hide QuotedPlus, Join, Fields;
    var l := [];
    for i := 0 to |query|
      invariant l == Fields(query)[..i]
    {
      var k := QuotePlus(query[i].0, []);
      var v := QuotePlus(query[i].1, []);
      l := l + [k + [EQUALS] + v];
    }
    assert l == Fields(query);
    r := Join(l, [AMPERSAND]);
  }

  // ----- parseQSL -----

  /** The first position of a character, or the length. */
  function Index(s: bytes, c: byte): (i: nat)
    ensures i <= |s| && c !in s[..i] && (i < |s| ==> s[i] == c)
  {
    if s == [] || s[0] == c then 0
    else
      var i := 1 + Index(s[1..], c);
      assert s[..i] == [s[0]] + s[1..][..i - 1];
      i
  }

  /** One field: an error, nothing, or a pair. */
  datatype Parsed = Bad | Skip | Pair(kv: Pair)

  function ParseField(f: bytes, keepBlank: bool, strict: bool): Parsed {
    if f == [] && !strict then Skip
    else
      var i := Index(f, EQUALS);
      if i == |f| && strict then Bad
      else if i == |f| && !keepBlank then Skip
      else
        var name, value := f[..i], if i == |f| then [] else f[i + 1..];
        if keepBlank || value != [] then Pair((UnquotedPlus(name), UnquotedPlus(value))) else Skip
  }

  /** None for ValueError. */
  function ParseFields(fs: seq<bytes>, keepBlank: bool, strict: bool): Option<seq<Pair>> {
    if fs == [] then Some([])
    else
      match ParseFields(fs[..|fs| - 1], keepBlank, strict)
      case None => None
      case Some(l) =>
        match ParseField(fs[|fs| - 1], keepBlank, strict)
        case Bad => None
        case Skip => Some(l)
        case Pair(kv) => Some(l + [kv])
  }

  function SplitAll(pieces: seq<bytes>): seq<bytes> {
    if pieces == [] then [] else SplitAll(pieces[..|pieces| - 1]) + Split(pieces[|pieces| - 1], SEMICOLON)
  }

  function ParsedQsl(s: bytes, keepBlank: bool, strict: bool): Option<seq<Pair>> {
    ParseFields(SplitAll(Split(s, AMPERSAND)), keepBlank, strict)
  }

  method ParseQsl(queryString: bytes, keepBlankValues: bool, strictParsing: bool) returns (r: Option<seq<Pair>>)
    ensures r == ParsedQsl(queryString, keepBlankValues, strictParsing)
  {
    hide Split, ParseField;
    var s1 := Split(queryString, AMPERSAND);
    var pairs := [];
    for i := 0 to |s1|
      invariant pairs == SplitAll(s1[..i])
    {
      assert s1[..i + 1][..i] == s1[..i];
      pairs := pairs + Split(s1[i], SEMICOLON);
    }
    assert s1[..|s1|] == s1;
    var l: seq<Pair> := [];
    for i := 0 to |pairs|
      invariant ParseFields(pairs[..i], keepBlankValues, strictParsing) == Some(l)
    {
      assert pairs[..i + 1][..i] == pairs[..i];
      var p := ParseNameValue(pairs[i], keepBlankValues, strictParsing);
      match p {
        case Bad =>
          BadField(pairs, i, keepBlankValues, strictParsing);
          return None;
        case Skip =>
        case Pair(kv) =>
          l := l + [kv];
      }
    }
    assert pairs[..|pairs|] == pairs;
    r := Some(l);
  }

  /** The body of the loop over the fields. */
  method ParseNameValue(nameValue: bytes, keepBlankValues: bool, strictParsing: bool) returns (p: Parsed)
    ensures p == ParseField(nameValue, keepBlankValues, strictParsing)
  {
    hide UnquotedPlus, Index;
    if nameValue == [] && !strictParsing {
      return Skip;
    }
    var pos := Index(nameValue, EQUALS);
    var name, value: bytes := nameValue, [];
    if pos == |nameValue| {
      if strictParsing {
        return Bad;
      }
      if !keepBlankValues {
        return Skip;
      }
      assert nameValue[..pos] == nameValue;
    } else {
      name := nameValue[..pos];
      value := nameValue[pos + 1..];
    }
    if keepBlankValues || value != [] {
      name := Decode(name);
      value := Decode(value);
      p := Pair((name, value));
    } else {
      p := Skip;
    }
  }

  method Decode(s: bytes) returns (r: bytes)
    ensures r == UnquotedPlus(s)
  {
    r := Unquote(Replaced(s, PLUS, SPACE));
  }

  lemma {:induction false} BadField(fs: seq<bytes>, i: nat, keepBlank: bool, strict: bool)
    requires i < |fs| && ParseField(fs[i], keepBlank, strict) == Bad
    ensures ParseFields(fs, keepBlank, strict) == None
  {
    hide ParseField;
    if i < |fs| - 1 { BadField(fs[..|fs| - 1], i, keepBlank, strict); }
  }

  // ----- the round trip -----

  function NonBlank(l: seq<Pair>): seq<Pair> {
    if l == [] then [] else NonBlank(l[..|l| - 1]) + if l[|l| - 1].1 != [] then [l[|l| - 1]] else []
  }

  lemma {:induction false} IndexIs(s: bytes, c: byte, i: nat)
    requires i < |s| && s[i] == c && c !in s[..i]
    ensures Index(s, c) == i
  {
    var k := Index(s, c);
    assert forall j :: 0 <= j < i ==> s[..i][j] == s[j];
    assert forall j :: 0 <= j < k ==> s[..k][j] == s[j];
  }

  lemma {:induction false} FieldRoundTrip(kv: Pair, keepBlank: bool, strict: bool)
    ensures ParseField(Field(kv), keepBlank, strict) == if keepBlank || kv.1 != [] then Pair(kv) else Skip
    ensures AMPERSAND !in Field(kv) && SEMICOLON !in Field(kv)
  {
    hide UnquotedPlus, QuotedPlus;
    var k, v := QuotedPlus(kv.0, []), QuotedPlus(kv.1, []);
    PlusInverse(kv.0);
    PlusInverse(kv.1);
    BlankValue(kv.1);
    var f := Field(kv);
    assert f[..|k|] == k && f[|k| + 1..] == v;
    IndexIs(f, EQUALS, |k|);
  }

  lemma {:induction false} BlankValue(s: bytes)
    ensures QuotedPlus(s, []) == [] <==> s == []
  {
    if s != [] {
      assert Escape(s[0], [] + [SPACE]) != [] && Escape(s[0], []) != [];
    }
  }

  lemma {:induction false} FieldsRoundTrip(l: seq<Pair>, keepBlank: bool, strict: bool)
    ensures ParseFields(Fields(l), keepBlank, strict) == Some(if keepBlank then l else NonBlank(l))
  {
    hide Field, Fields, ParseField;
    if l == [] {
      assert Fields(l) == [];
    } else {
      var front, last := l[..|l| - 1], l[|l| - 1];
      FieldsRoundTrip(front, keepBlank, strict);
      FieldRoundTrip(last, keepBlank, strict);
      assert Fields(l)[..|l| - 1] == Fields(front);
      assert front + [last] == l;
      assert NonBlank(front) + [] == NonBlank(front);
    }
  }

  lemma {:induction false} SplitAllPlain(fs: seq<bytes>)
    requires forall i :: 0 <= i < |fs| ==> SEMICOLON !in fs[i]
    ensures SplitAll(fs) == fs
  {
    if fs != [] {
      SplitAllPlain(fs[..|fs| - 1]);
      SplitPlain(fs[|fs| - 1], SEMICOLON);
    }
  }

  /** Every list of byte-string pairs survives encoding and parsing, empty names and values included; without
      keepBlankValues the pairs with an empty value are dropped; and strict parsing fails on exactly the
      empty list. */
  lemma {:induction false} FormRoundTrip(l: seq<Pair>, keepBlank: bool, strict: bool)
    ensures ParsedQsl(Join(Fields(l), [AMPERSAND]), keepBlank, strict) ==
      if l == [] && strict then None else Some(if keepBlank then l else NonBlank(l))
  {
    hide ParseField, Field;
    if l == [] {
      EmptyQuery(keepBlank, strict);
    } else {
      forall i | 0 <= i < |l| ensures AMPERSAND !in Fields(l)[i] && SEMICOLON !in Fields(l)[i] {
        FieldRoundTrip(l[i], keepBlank, strict);
      }
      SplitJoin(Fields(l), AMPERSAND);
      SplitAllPlain(Fields(l));
      FieldsRoundTrip(l, keepBlank, strict);
    }
  }

  // ----- either separator -----

  /** Fields joined by separators of either kind. */
  function JoinWith(fields: seq<bytes>, separators: seq<byte>): bytes
    requires |fields| == |separators| + 1
  {
    if separators == [] then fields[0] else fields[0] + [separators[0]] + JoinWith(fields[1..], separators[1..])
  }

  lemma {:induction false} SplitAllFront(p: bytes, pieces: seq<bytes>)
    ensures SplitAll([p] + pieces) == Split(p, SEMICOLON) + SplitAll(pieces)
  {
    hide Split;
    var all := [p] + pieces;
    if pieces == [] {
      assert all[..0] == [] && SplitAll(all[..0]) == [];
    } else {
      assert all[..|all| - 1] == [p] + pieces[..|pieces| - 1];
      SplitAllFront(p, pieces[..|pieces| - 1]);
    }
  }

  /** What holds the first piece together with a start that has no delimiter. */
  lemma {:induction false} SplitAfter(u: bytes, d: byte, t: bytes)
    requires d !in u
    ensures Split(u + t, d) == [u + Split(t, d)[0]] + Split(t, d)[1..]
  {
    hide Split;
    if u == [] {
      var r := Split(t, d);
      assert u + t == t && u + r[0] == r[0] && r == [r[0]] + r[1..];
    } else {
      SplitAfter(u[1..], d, t);
      SplitStep(u + t, d);
      assert (u + t)[0] == u[0] && (u + t)[1..] == u[1..] + t;
      FirstGrows(u, Split(t, d)[0], Split(t, d)[1..]);
    }
  }

  lemma {:induction false} FirstGrows(u: bytes, p: bytes, pieces: seq<bytes>)
    requires u != []
    ensures var q := [u[1..] + p] + pieces; [[u[0]] + q[0]] + q[1..] == [u + p] + pieces
  {
    assert [u[0]] + (u[1..] + p) == u + p;
  }

  /** Both separators end the first field. */
  lemma {:induction false} CutFirst(p: bytes, c: byte, t: bytes)
    requires AMPERSAND !in p && SEMICOLON !in p && (c == AMPERSAND || c == SEMICOLON)
    ensures SplitAll(Split(p + [c] + t, AMPERSAND)) == [p] + SplitAll(Split(t, AMPERSAND))
  {
    hide Split, SplitAll;
    var r := Split(t, AMPERSAND);
    if c == AMPERSAND {
      SplitFirst(p, AMPERSAND, t);
      SplitAllFront(p, r);
      SplitPlain(p, SEMICOLON);
    } else {
      SplitAfter(p + [c], AMPERSAND, t);
      SplitAllFront(p + [c] + r[0], r[1..]);
      SplitFirst(p, SEMICOLON, r[0]);
      SplitAllFront(r[0], r[1..]);
      assert r == [r[0]] + r[1..];
    }
  }

  lemma {:induction false} CutAll(fields: seq<bytes>, separators: seq<byte>)
    requires |fields| == |separators| + 1
    requires forall i :: 0 <= i < |fields| ==> AMPERSAND !in fields[i] && SEMICOLON !in fields[i]
    requires forall i :: 0 <= i < |separators| ==> separators[i] == AMPERSAND || separators[i] == SEMICOLON
    ensures SplitAll(Split(JoinWith(fields, separators), AMPERSAND)) == fields
  {
    hide Split, SplitAll;
    if separators == [] {
      SplitPlain(fields[0], AMPERSAND);
      SplitAllPlain(fields);
      assert fields == [fields[0]];
    } else {
      CutAll(fields[1..], separators[1..]);
      CutFirst(fields[0], separators[0], JoinWith(fields[1..], separators[1..]));
      assert fields == [fields[0]] + fields[1..];
    }
  }

  /** Encoded pairs survive whichever of the two separators is between any two of them. */
  lemma {:induction false} SeparatorsAreAlike(l: seq<Pair>, separators: seq<byte>, keepBlank: bool, strict: bool)
    requires |l| == |separators| + 1
    requires forall i :: 0 <= i < |separators| ==> separators[i] in {38, 59} // & and ;
    ensures ParsedQsl(JoinWith(Fields(l), separators), keepBlank, strict) == Some(if keepBlank then l else NonBlank(l))
  {
    hide ParseField, Field, ParseFields, SplitAll, Split;
    forall i | 0 <= i < |l| ensures AMPERSAND !in Fields(l)[i] && SEMICOLON !in Fields(l)[i] {
      FieldRoundTrip(l[i], keepBlank, strict);
    }
    CutAll(Fields(l), separators);
    FieldsRoundTrip(l, keepBlank, strict);
  }

  // ----- fields that no encoder writes -----

  lemma {:induction false} ParseFieldsConcat(a: seq<bytes>, b: seq<bytes>, keepBlank: bool, strict: bool)
    ensures ParseFields(a + b, keepBlank, strict) ==
      match (ParseFields(a, keepBlank, strict), ParseFields(b, keepBlank, strict))
      case (Some(x), Some(y)) => Some(x + y)
      case _ => None
  {
    hide ParseField;
    if b == [] {
      assert a + b == a;
      if ParseFields(a, keepBlank, strict).Some? {
        var x := ParseFields(a, keepBlank, strict).value;
        assert x + [] == x;
      }
    } else {
      var front := b[..|b| - 1];
      assert (a + b)[..|a + b| - 1] == a + front && (a + b)[|a + b| - 1] == b[|b| - 1];
      ParseFieldsConcat(a, front, keepBlank, strict);
      var p := ParseField(b[|b| - 1], keepBlank, strict);
      var x, y := ParseFields(a, keepBlank, strict), ParseFields(front, keepBlank, strict);
      if x.Some? && y.Some? && p.Pair? { Assoc(x.value, y.value, [p.kv]); }
    }
  }

  /** A field is divided at its first equals sign. */
  lemma {:induction false} FirstEqualsDivides(name: bytes, value: bytes, keepBlank: bool, strict: bool)
    requires EQUALS !in name
    ensures ParseField(name + [EQUALS] + value, keepBlank, strict) ==
      if keepBlank || value != [] then Pair((UnquotedPlus(name), UnquotedPlus(value))) else Skip
  {
    hide UnquotedPlus;
    var f := name + [EQUALS] + value;
    assert f[..|name|] == name && f[|name| + 1..] == value;
    IndexIs(f, EQUALS, |name|);
  }

  /** A field without an equals sign: strict parsing fails; otherwise it is a name with an empty value, dropped
      like every empty value without keepBlankValues, and dropped with it if there is no name either. */
  lemma {:induction false} BareName(a: seq<Pair>, name: bytes, b: seq<Pair>, keepBlank: bool, strict: bool)
    ensures
      var fields := Fields(a) + [QuotedPlus(name, [])] + Fields(b);
      ParsedQsl(Join(fields, [AMPERSAND]), keepBlank, strict) ==
        if strict then None
        else if keepBlank then Some(a + (if name == [] then [] else [(name, [])]) + b)
        else Some(NonBlank(a) + NonBlank(b))
  {
    hide ParseField, Field, Fields, SplitAll, Split, Join, NonBlank, QuotedPlus;
    var bare := QuotedPlus(name, []);
    var fields := Fields(a) + [bare] + Fields(b);
    forall i | 0 <= i < |fields| ensures AMPERSAND !in fields[i] && SEMICOLON !in fields[i] {
      PlusInverse(name);
      if i < |a| { FieldRoundTrip(a[i], keepBlank, strict); }
      if i > |a| { FieldRoundTrip(b[i - |a| - 1], keepBlank, strict); }
    }
    SplitJoin(fields, AMPERSAND);
    SplitAllPlain(fields);
    FieldsRoundTrip(a, keepBlank, strict);
    FieldsRoundTrip(b, keepBlank, strict);
    ParseFieldsConcat(Fields(a) + [bare], Fields(b), keepBlank, strict);
    ParseFieldsConcat(Fields(a), [bare], keepBlank, strict);
    BareFieldParses(name, keepBlank, strict);
    var x := if keepBlank then a else NonBlank(a);
    assert x + [] == x;
  }

  lemma {:induction false} BareFieldParses(name: bytes, keepBlank: bool, strict: bool)
    ensures ParseFields([QuotedPlus(name, [])], keepBlank, strict) ==
      if strict then None else Some(if keepBlank && name != [] then [(name, [])] else [])
  {
    hide QuotedPlus, Unquoted;
    var f := QuotedPlus(name, []);
    PlusInverse(name);
    BlankValue(name);
    assert Index(f, EQUALS) == |f| && f[..|f|] == f;
    UnquotedNothing([]);
    assert Replaced([], PLUS, SPACE) == [];
    assert UnquotedPlus([]) == [];
    OneField(f, keepBlank, strict);
  }

  lemma {:induction false} OneField(f: bytes, keepBlank: bool, strict: bool)
    ensures ParseFields([f], keepBlank, strict) ==
      match ParseField(f, keepBlank, strict) case Bad => None case Skip => Some([]) case Pair(kv) => Some([kv])
  {
    assert [f][..0] == [];
    var none: seq<Pair> := [];
    assert ParseFields([f][..0], keepBlank, strict) == Some(none);
    assert forall kv: Pair :: none + [kv] == [kv];
  }

  lemma {:induction false} OneEmpty()
    ensures SplitAll(Split([], AMPERSAND)) == [[]]
  {
    var none: seq<bytes> := [[]];
    assert none[..0] == [];
    assert SplitAll(none[..0]) + Split([], SEMICOLON) == none;
  }

  lemma {:induction false} EmptyQuery(keepBlank: bool, strict: bool)
    ensures ParsedQsl([], keepBlank, strict) == if strict then None else Some([])
  {
    hide Unquoted;
    OneEmpty();
    var none: seq<bytes> := [[]];
    assert none[..0] == [];
    assert ParseFields(none[..0], keepBlank, strict) == Some([]);
  }

  /** The same, through the methods. */
  method EncodeThenParse(l: seq<Pair>, keepBlank: bool, strict: bool) returns (r: Option<seq<Pair>>)
    ensures r == if l == [] && strict then None else Some(if keepBlank then l else NonBlank(l))
  {
    FormRoundTrip(l, keepBlank, strict);
    var s := UrlEncode(l);
    r := ParseQsl(s, keepBlank, strict);
  }
}
