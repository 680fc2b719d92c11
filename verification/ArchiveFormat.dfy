/**
  The wire format of Archive in src/net4cxx/common/serialization/archive.h, as functions: what each type of
  value is written as, and what reading that type makes of the bytes from the position on.
*/
module ArchiveFormat {
  import opened Basics
  import opened ByteConvert

  /** The types an archive can hold. Byte arrays are written like strings. */
  datatype Type =
    | TUInt(width: nat) | TInt(width: nat) | TBool | TString | TFloat | TDouble
    | TRaw(size: nat) // std::array of bytes
    | TOptional(of: Type)
    | TSequence(elem: Type)
    | TSet(elem: Type)
    | TMapping(elem: Type) // the elements are structs of a key and a value
    | TStruct(fields: seq<Type>)

  datatype Val =
    | VInt(i: int) | VBool(b: bool) | VBytes(s: bytes)
    | VReal(bits: nat) // the memory of a float or a double as an unsigned integer
    | VNone | VSome(v: Val)
    | VItems(items: seq<Val>) // of a sequence, a set or a mapping, in the order of iteration
    | VStruct(fields: seq<Val>)

  const ESCAPE: nat := 0xFF

  /** Two's complement. */
  function Unsigned(i: int, width: nat): int { if i < 0 then i + Pow256(width) else i }

  function Signed(u: int, width: nat): int { if 2 * u >= Pow256(width) then u - Pow256(width) else u }

  function RealWidth(t: Type): nat { if t.TFloat? then 4 else 8 }

  /** std::isfinite: the exponent of the IEEE 754 format is not all ones. */
  predicate IsFinite(t: Type, bits: nat) {
    if t.TFloat? then bits / 0x80_0000 % 0x100 != 0xFF else bits / 0x10_0000_0000_0000 % 0x800 != 0x7FF
  }

  /** What a set or a mapping compares. */
  function Key(t: Type, v: Val): Val {
    if t.TMapping? && v.VStruct? && v.fields != [] then v.fields[0] else v
  }

  predicate KeyAbsent(t: Type, v: Val, vs: seq<Val>) { forall i :: 0 <= i < |vs| ==> Key(t, vs[i]) != Key(t, v) }

  predicate Distinct(t: Type, vs: seq<Val>) { forall i :: 0 <= i < |vs| ==> KeyAbsent(t, vs[i], vs[..i]) }

  predicate Unique(t: Type, vs: seq<Val>) { t.TSequence? || Distinct(t, vs) }

  /** The values of a type. Lengths fit in 32 bits. */
  predicate HasType(t: Type, v: Val)
    decreases t, 0
  {
    match t
    case TUInt(w) => v.VInt? && 0 <= v.i < Pow256(w)
    case TInt(w) => v.VInt? && 0 - Pow256(w) <= 2 * v.i < Pow256(w)
    case TBool => v.VBool?
    case TString => v.VBytes? && |v.s| < TWO32
    case TFloat | TDouble => v.VReal? && v.bits < Pow256(RealWidth(t))
    case TRaw(n) => v.VBytes? && |v.s| == n
    case TOptional(u) => v.VNone? || (v.VSome? && HasType(u, v.v))
    case TStruct(ts) => v.VStruct? && AllTyped(ts, v.fields)
    case _ => v.VItems? && |v.items| < TWO32 && ItemsTyped(t.elem, v.items) && Unique(t, v.items)
  }

  predicate ItemsTyped(t: Type, vs: seq<Val>)
    decreases t, 1
  {
    forall i :: 0 <= i < |vs| ==> HasType(t, vs[i])
  }

  predicate AllTyped(ts: seq<Type>, vs: seq<Val>)
    decreases ts, 0
  {
    if ts == [] then vs == [] else vs != [] && HasType(ts[0], vs[0]) && AllTyped(ts[1..], vs[1..])
  }

  // ----- writing -----

  /** A length, cut to 32 bits if it needs the escape. */
  function EncodeLength(e: Endian, n: nat): bytes {
    if n >= ESCAPE then [ESCAPE] + Bytes(n, 4, e) else [n]
  }

  /** What a value is written as: integers in the byte order e, reals in the order of the host. */
  function Encode(e: Endian, host: Endian, t: Type, v: Val): bytes
    requires HasType(t, v)
    decreases t, 0
  {
    match t
    case TUInt(w) => Bytes(v.i, w, e)
    case TInt(w) => Bytes(Unsigned(v.i, w), w, e)
    case TBool => [if v.b then 1 else 0]
    case TString => EncodeLength(e, |v.s|) + v.s
    case TFloat | TDouble => Bytes(v.bits, RealWidth(t), host)
    case TRaw(_) => v.s
    case TOptional(u) => if v.VNone? then [0] else [1] + Encode(e, host, u, v.v)
    case TStruct(ts) => EncodeFields(e, host, ts, v.fields)
    case _ => EncodeLength(e, |v.items|) + EncodeItems(e, host, t.elem, v.items)
  }

  function EncodeItems(e: Endian, host: Endian, t: Type, vs: seq<Val>): bytes
    requires ItemsTyped(t, vs)
    decreases t, 1, |vs|
  {
    if vs == [] then [] else Encode(e, host, t, vs[0]) + EncodeItems(e, host, t, vs[1..])
  }

  function EncodeFields(e: Endian, host: Endian, ts: seq<Type>, vs: seq<Val>): bytes
    requires AllTyped(ts, vs)
    decreases ts, 0
  {
    if ts == [] then [] else Encode(e, host, ts[0], vs[0]) + EncodeFields(e, host, ts[1..], vs[1..])
  }

  // ----- reading -----

  /** ArchivePositionError, or ArchiveError for a real that is not finite. */
  datatype ArchiveError = PositionError | NotFinite

  /** A value or an error, and the bytes from the position reached. */
  datatype Outcome<T> = Read(v: T, rest: bytes) | Failed(error: ArchiveError, rest: bytes)

  function DecodeBytes(n: nat, b: bytes): Outcome<bytes> {
    if n > |b| then Failed(PositionError, b) else Read(b[..n], b[n..])
  }

  function DecodeUInt(e: Endian, w: nat, b: bytes): Outcome<nat> {
    if w > |b| then Failed(PositionError, b) else Read(Value(b[..w], e), b[w..])
  }

  function DecodeReal(host: Endian, t: Type, b: bytes): Outcome<Val> {
    match DecodeUInt(host, RealWidth(t), b)
    case Failed(x, r) => Failed(x, r)
    case Read(u, r) => if IsFinite(t, u) then Read(VReal(u), r) else Failed(NotFinite, r)
  }

  function DecodeLength(e: Endian, b: bytes): Outcome<nat> {
    match DecodeUInt(e, 1, b)
    case Failed(x, r) => Failed(x, r)
    case Read(n, rest) => if n == ESCAPE then DecodeUInt(e, 4, rest) else Read(n, rest)
  }

  function Decode(e: Endian, host: Endian, t: Type, b: bytes): Outcome<Val>
    decreases t, 0
  {
    match t
    case TUInt(w) => (match DecodeUInt(e, w, b) case Failed(x, r) => Failed(x, r) case Read(u, r) => Read(VInt(u), r))
    case TInt(w) =>
      (match DecodeUInt(e, w, b) case Failed(x, r) => Failed(x, r) case Read(u, r) => Read(VInt(Signed(u, w)), r))
    case TBool =>
      (match DecodeUInt(e, 1, b) case Failed(x, r) => Failed(x, r) case Read(u, r) => Read(VBool(u > 0), r))
    case TString =>
      (match DecodeLength(e, b)
       case Failed(x, r) => Failed(x, r)
       case Read(n, r) =>
         match DecodeBytes(n, r) case Failed(x, q) => Failed(x, q) case Read(s, q) => Read(VBytes(s), q))
    case TFloat | TDouble => DecodeReal(host, t, b)
    case TRaw(n) => (match DecodeBytes(n, b) case Failed(x, r) => Failed(x, r) case Read(s, r) => Read(VBytes(s), r))
    case TOptional(u) =>
      (match DecodeUInt(e, 1, b)
       case Failed(x, r) => Failed(x, r)
       case Read(has, r) =>
         if has == 0 then Read(VNone, r)
         else match Decode(e, host, u, r) case Failed(x, q) => Failed(x, q) case Read(w, q) => Read(VSome(w), q))
    case TStruct(ts) =>
      (match DecodeFields(e, host, ts, b) case Failed(x, r) => Failed(x, r) case Read(vs, r) => Read(VStruct(vs), r))
    case _ =>
      (match DecodeLength(e, b)
       case Failed(x, r) => Failed(x, r)
       case Read(n, r) =>
         match DecodeItems(e, host, t, t.elem, n, [], r)
         case Failed(x, q) => Failed(x, q)
         case Read(vs, q) => Read(VItems(vs), q))
  }

  /** emplace_back for a sequence; emplace for the others, which keeps an element with an equal key. */
  function Emplace(t: Type, vs: seq<Val>, v: Val): (r: seq<Val>)
    ensures vs <= r && |r| <= |vs| + 1
  {
    if t.TSequence? || KeyAbsent(t, v, vs) then vs + [v] else vs
  }

  /** n more elements after those read so far. */
  function DecodeItems(e: Endian, host: Endian, t: Type, elem: Type, n: nat, vs: seq<Val>, b: bytes):
    Outcome<seq<Val>>
    decreases elem, 1, n
  {
    if n == 0 then Read(vs, b)
    else match Decode(e, host, elem, b)
      case Failed(x, r) => Failed(x, r)
      case Read(v, r) => DecodeItems(e, host, t, elem, n - 1, Emplace(t, vs, v), r)
  }

  function DecodeFields(e: Endian, host: Endian, ts: seq<Type>, b: bytes): Outcome<seq<Val>>
    decreases ts, 0
  {
    if ts == [] then Read([], b)
    else match Decode(e, host, ts[0], b)
      case Failed(x, r) => Failed(x, r)
      case Read(v, r) =>
        match DecodeFields(e, host, ts[1..], r)
        case Failed(x, q) => Failed(x, q)
        case Read(vs, q) => Read([v] + vs, q)
  }

  // ----- the round trip -----

  lemma {:induction false} UIntRoundTrip(e: Endian, w: nat, n: nat, t: bytes)
    requires n < Pow256(w)
    ensures DecodeUInt(e, w, Bytes(n, w, e) + t) == Read(n, t)
  {
    BytesInverse(n, w, e);
    var b := Bytes(n, w, e);
    assert (b + t)[..w] == b && (b + t)[w..] == t;
  }

  lemma {:induction false} ByteRoundTrip(e: Endian, c: byte, t: bytes)
    ensures DecodeUInt(e, 1, [c] + t) == Read(c, t)
  {
    assert ([c] + t)[..1] == [c] && ([c] + t)[1..] == t;
    assert [c][1..] == [] && Reversed([c]) == [c];
    assert LittleValue([]) == 0 && LittleValue([c]) == c;
  }

  /** A length is read back, whatever follows, if and only if it fits in 32 bits. */
  lemma {:induction false} LengthRoundTrip(e: Endian, n: nat, t: bytes)
    ensures DecodeLength(e, EncodeLength(e, n) + t) == Read(n, t) <==> n < TWO32
  {
    hide Bytes, Value;
    Widths();
    if n < ESCAPE {
      ByteRoundTrip(e, n, t);
    } else {
      var b := Bytes(n, 4, e);
      Assoc([ESCAPE], b, t);
      ByteRoundTrip(e, ESCAPE, b + t);
      BytesInverse(n, 4, e);
      assert (b + t)[..4] == b && (b + t)[4..] == t;
    }
  }

  lemma {:induction false} SignedInverse(i: int, w: nat)
    requires 0 - Pow256(w) <= 2 * i < Pow256(w)
    ensures 0 <= Unsigned(i, w) < Pow256(w) && Signed(Unsigned(i, w), w) == i
  {
  }

  /** A value that can be read on a host with the other byte order too: no real in it, or only reals that read
      the same in both orders; and that can be read at all: its reals are finite. */
  predicate Survives(from: Endian, to: Endian, t: Type, v: Val)
    requires HasType(t, v)
    decreases t, 0
  {
    match t
    case TFloat | TDouble => IsFinite(t, v.bits) && (from == to || Palindrome(LittleBytes(v.bits, RealWidth(t))))
    case TOptional(u) => v.VSome? ==> Survives(from, to, u, v.v)
    case TStruct(ts) => FieldsSurvive(from, to, ts, v.fields)
    case TUInt(_) | TInt(_) | TBool | TString | TRaw(_) => true
    case _ => ItemsSurvive(from, to, t.elem, v.items)
  }

  predicate ItemsSurvive(from: Endian, to: Endian, t: Type, vs: seq<Val>)
    requires ItemsTyped(t, vs)
    decreases t, 1, |vs|
  {
    vs == [] || (Survives(from, to, t, vs[0]) && ItemsSurvive(from, to, t, vs[1..]))
  }

  predicate FieldsSurvive(from: Endian, to: Endian, ts: seq<Type>, vs: seq<Val>)
    requires AllTyped(ts, vs)
    decreases ts, 0
  {
    ts == [] || (Survives(from, to, ts[0], vs[0]) && FieldsSurvive(from, to, ts[1..], vs[1..]))
  }

  /** A real that is not finite was found, or, between hosts that differ, something else was read in its place. */
  predicate Misses<T(==)>(from: Endian, to: Endian, d: Outcome<T>, v: T, rest: bytes) {
    match d
    case Read(u, r) => from != to && u != v && r == rest
    case Failed(x, _) => x == NotFinite
  }

  lemma {:induction false} RealRoundTrip(from: Endian, to: Endian, t: Type, v: Val, rest: bytes)
    requires (t.TFloat? || t.TDouble?) && HasType(t, v)
    ensures var d := DecodeReal(to, t, Bytes(v.bits, RealWidth(t), from) + rest);
      if Survives(from, to, t, v) then d == Read(v, rest) else Misses(from, to, d, v, rest)
  {
    hide Bytes, Value, Palindrome, LittleBytes;
    var w := RealWidth(t);
    var b := Bytes(v.bits, w, from);
    assert (b + rest)[..w] == b && (b + rest)[w..] == rest;
    MisreadPalindrome(v.bits, w, from, to);
  }

  /** The bits that are refused: the infinities and what is not a number. A float takes four bytes and a double eight,
      in the order of the host. */
  lemma {:induction false} RealsOnTheWire(e: Endian, host: Endian, t: Type, bits: nat)
    requires t.TFloat? || t.TDouble?
    requires HasType(t, VReal(bits))
    ensures IsFinite(t, bits) <==>
      if t.TFloat? then !(0x7F80_0000 <= bits < 0x8000_0000) && bits < 0xFF80_0000
      else !(0x7FF0_0000_0000_0000 <= bits < 0x8000_0000_0000_0000) && bits < 0xFFF0_0000_0000_0000
    ensures Encode(e, host, t, VReal(bits)) == Bytes(bits, if t.TFloat? then 4 else 8, host)
  {
    hide Bytes, LittleBytes;
    Widths();
    if t.TFloat? {
      var q := bits / 0x80_0000;
      assert q < 0x200;
    } else {
      var q := bits / 0x10_0000_0000_0000;
      assert q < 0x1000;
    }
  }

  lemma {:induction false} StringRoundTrip(e: Endian, s: bytes, rest: bytes)
    requires |s| < TWO32
    ensures var n := |s|; var b := s + rest;
      && EncodeLength(e, n) + s + rest == EncodeLength(e, n) + b
      && DecodeLength(e, EncodeLength(e, n) + b) == Read(n, b) && DecodeBytes(n, b) == Read(s, rest)
  {
    hide EncodeLength, DecodeLength;
    Assoc(EncodeLength(e, |s|), s, rest);
    LengthRoundTrip(e, |s|, s + rest);
    assert (s + rest)[..|s|] == s && (s + rest)[|s|..] == rest;
  }

  predicate IsLeaf(t: Type) { !t.TOptional? && !t.TStruct? && !IsContainer(t) }

  predicate IsContainer(t: Type) { t.TSequence? || t.TSet? || t.TMapping? }

  lemma {:induction false} LeafRoundTrip(e: Endian, from: Endian, to: Endian, t: Type, v: Val, rest: bytes)
    requires IsLeaf(t) && HasType(t, v)
    ensures var d := Decode(e, to, t, Encode(e, from, t, v) + rest);
      if Survives(from, to, t, v) then d == Read(v, rest) else Misses(from, to, d, v, rest)
  {
    hide Bytes, DecodeUInt, EncodeLength, DecodeLength, DecodeReal, IsFinite, Palindrome;
    match t
    case TUInt(w) => UIntRoundTrip(e, w, v.i, rest);
    case TInt(w) => SignedInverse(v.i, w); UIntRoundTrip(e, w, Unsigned(v.i, w), rest);
    case TBool => ByteRoundTrip(e, if v.b then 1 else 0, rest);
    case TString => StringRoundTrip(e, v.s, rest);
    case TFloat | TDouble => RealRoundTrip(from, to, t, v, rest);
    case TRaw(n) => assert (v.s + rest)[..n] == v.s && (v.s + rest)[n..] == rest;
  }

  /** Reading at the position of a written value gives the value, whatever follows, and moves by exactly what
      was written, if and only if its reals are finite and the hosts agree on them. Otherwise it finds a real that
      is not finite, or gives another value, at the same position. */
  lemma {:induction false} RoundTrip(e: Endian, from: Endian, to: Endian, t: Type, v: Val, rest: bytes)
    requires HasType(t, v)
    ensures var d := Decode(e, to, t, Encode(e, from, t, v) + rest);
      if Survives(from, to, t, v) then d == Read(v, rest) else Misses(from, to, d, v, rest)
    decreases t, 2, 0
  {
    hide Bytes, DecodeUInt, EncodeLength, DecodeLength, DecodeReal, IsFinite, Palindrome, EncodeItems, DecodeItems,
      ItemsTyped, ItemsSurvive, Unique;
    if IsLeaf(t) {
      LeafRoundTrip(e, from, to, t, v, rest);
    } else if IsContainer(t) {
      ContainerRoundTrip(e, from, to, t, v, rest);
    } else if t.TStruct? {
      FieldsRoundTrip(e, from, to, t.fields, v.fields, rest);
    } else if v.VNone? {
      ByteRoundTrip(e, 0, rest);
    } else {
      var b := Encode(e, from, t.of, v.v);
      Assoc([1], b, rest);
      ByteRoundTrip(e, 1, b + rest);
      RoundTrip(e, from, to, t.of, v.v, rest);
    }
  }

  lemma {:induction false} ContainerRoundTrip(e: Endian, from: Endian, to: Endian, t: Type, v: Val, rest: bytes)
    requires IsContainer(t) && HasType(t, v)
    ensures var d := Decode(e, to, t, Encode(e, from, t, v) + rest);
      if Survives(from, to, t, v) then d == Read(v, rest) else Misses(from, to, d, v, rest)
    decreases t, 1, 0
  {
    hide EncodeLength, DecodeLength, EncodeItems, DecodeItems, ItemsTyped, ItemsSurvive, Unique;
    var n, b := |v.items|, EncodeItems(e, from, t.elem, v.items);
    Assoc(EncodeLength(e, n), b, rest);
    LengthRoundTrip(e, n, b + rest);
    assert [] + v.items == v.items;
    ItemsRoundTrip(e, from, to, t, t.elem, [], v.items, rest);
  }

  lemma {:induction false} ItemsStep(e: Endian, host: Endian, t: Type, elem: Type, n: nat, vs: seq<Val>, b: bytes)
    requires n > 0
    ensures var all := DecodeItems(e, host, t, elem, n, vs, b);
      match Decode(e, host, elem, b)
      case Failed(x, r) => all == Failed(x, r)
      case Read(v, r) => all == DecodeItems(e, host, t, elem, n - 1, Emplace(t, vs, v), r)
  {
  }

  lemma {:induction false} ItemsSplit(e: Endian, host: Endian, elem: Type, vs: seq<Val>, rest: bytes)
    requires ItemsTyped(elem, vs) && vs != []
    ensures HasType(elem, vs[0]) && ItemsTyped(elem, vs[1..])
    ensures EncodeItems(e, host, elem, vs) + rest
      == Encode(e, host, elem, vs[0]) + (EncodeItems(e, host, elem, vs[1..]) + rest)
  {
    hide Encode, HasType;
    assert HasType(elem, vs[0]);
    Assoc(Encode(e, host, elem, vs[0]), EncodeItems(e, host, elem, vs[1..]), rest);
  }

  lemma {:induction false} NoItems(e: Endian, from: Endian, to: Endian, t: Type, elem: Type, done: seq<Val>,
                                   rest: bytes)
    ensures ItemsTyped(elem, []) && ItemsSurvive(from, to, elem, [])
    ensures DecodeItems(e, to, t, elem, 0, done, EncodeItems(e, from, elem, []) + rest) == Read(done, rest)
  {
    assert [] + rest == rest;
  }

  /** Whatever was read before, the elements written are taken one by one. */
  lemma {:induction false} ItemsTaken(e: Endian, from: Endian, to: Endian, t: Type, elem: Type, done: seq<Val>,
                                      vs: seq<Val>, rest: bytes)
    requires ItemsTyped(elem, vs)
    ensures match DecodeItems(e, to, t, elem, |vs|, done, EncodeItems(e, from, elem, vs) + rest)
            case Read(all, r) => done <= all && |all| <= |done| + |vs| && r == rest
            case Failed(x, _) => x == NotFinite
    decreases elem, 3, |vs|
  {
    hide Encode, Decode, HasType, Survives, DecodeItems, EncodeItems, ItemsTyped, Emplace;
    if vs == [] {
      NoItems(e, from, to, t, elem, done, rest);
    } else {
      ItemsSplit(e, from, elem, vs, rest);
      var more := EncodeItems(e, from, elem, vs[1..]) + rest;
      RoundTrip(e, from, to, elem, vs[0], more);
      var b := Encode(e, from, elem, vs[0]) + more;
      ItemsStep(e, to, t, elem, |vs|, done, b);
      var d := Decode(e, to, elem, b);
      if d.Read? { ItemsTaken(e, from, to, t, elem, Emplace(t, done, d.v), vs[1..], rest); }
    }
  }

  lemma {:induction false} EmplaceNext(t: Type, done: seq<Val>, vs: seq<Val>)
    requires Unique(t, done + vs) && vs != []
    ensures Emplace(t, done, vs[0]) == done + [vs[0]] && done + [vs[0]] + vs[1..] == done + vs
  {
    hide Key;
    var all := done + vs;
    assert all[..|done|] == done && all[|done|] == vs[0];
    if !t.TSequence? { assert KeyAbsent(t, all[|done|], all[..|done|]); }
  }

  /** Once another element was read in place of the first of vs, what is read in the end is not done + vs. */
  lemma {:induction false} EmplaceOther(t: Type, done: seq<Val>, vs: seq<Val>, u: Val, all: seq<Val>)
    requires vs != [] && u != vs[0]
    requires Emplace(t, done, u) <= all && |all| <= |Emplace(t, done, u)| + |vs| - 1
    ensures all != done + vs
  {
    hide KeyAbsent;
    if |Emplace(t, done, u)| > |done| { assert all[|done|] == u; }
  }

  /** Once another element was read in place of the first of vs, the rest does not make up for it. */
  lemma {:induction false} OtherItem(e: Endian, from: Endian, to: Endian, t: Type, elem: Type, done: seq<Val>,
                                     vs: seq<Val>, u: Val, rest: bytes)
    requires ItemsTyped(elem, vs) && vs != [] && u != vs[0] && from != to
    ensures ItemsTyped(elem, vs[1..])
    ensures var all := DecodeItems(e, to, t, elem, |vs| - 1, Emplace(t, done, u),
                                   EncodeItems(e, from, elem, vs[1..]) + rest);
      Misses(from, to, all, done + vs, rest)
    decreases elem, 3, |vs|
  {
    hide HasType, Survives, DecodeItems, EncodeItems, ItemsTyped, Emplace;
    ItemsSplit(e, from, elem, vs, rest);
    var next := Emplace(t, done, u);
    ItemsTaken(e, from, to, t, elem, next, vs[1..], rest);
    var all := DecodeItems(e, to, t, elem, |vs| - 1, next, EncodeItems(e, from, elem, vs[1..]) + rest);
    if all.Read? { EmplaceOther(t, done, vs, u, all.v); }
  }

  lemma {:induction false} FirstItemMissed(e: Endian, from: Endian, to: Endian, t: Type, elem: Type,
                                           done: seq<Val>, vs: seq<Val>, rest: bytes)
    requires ItemsTyped(elem, vs) && vs != [] && HasType(elem, vs[0]) && !Survives(from, to, elem, vs[0])
    ensures var d := DecodeItems(e, to, t, elem, |vs|, done, EncodeItems(e, from, elem, vs) + rest);
      Misses(from, to, d, done + vs, rest)
    decreases elem, 4, |vs|
  {
    hide Encode, Decode, HasType, Survives, DecodeItems, EncodeItems, ItemsTyped, Emplace;
    ItemsSplit(e, from, elem, vs, rest);
    var more := EncodeItems(e, from, elem, vs[1..]) + rest;
    RoundTrip(e, from, to, elem, vs[0], more);
    var b := Encode(e, from, elem, vs[0]) + more;
    ItemsStep(e, to, t, elem, |vs|, done, b);
    var d := Decode(e, to, elem, b);
    if d.Read? { OtherItem(e, from, to, t, elem, done, vs, d.v, rest); }
  }

  lemma {:induction false} FirstItemRead(e: Endian, from: Endian, to: Endian, t: Type, elem: Type, done: seq<Val>,
                                         vs: seq<Val>, rest: bytes)
    requires ItemsTyped(elem, vs) && vs != [] && HasType(elem, vs[0]) && Survives(from, to, elem, vs[0])
    requires Unique(t, done + vs)
    ensures ItemsTyped(elem, vs[1..])
    ensures DecodeItems(e, to, t, elem, |vs|, done, EncodeItems(e, from, elem, vs) + rest)
      == DecodeItems(e, to, t, elem, |vs| - 1, done + [vs[0]], EncodeItems(e, from, elem, vs[1..]) + rest)
    decreases elem, 3, |vs|
  {
    hide Encode, Decode, HasType, Survives, DecodeItems, EncodeItems, ItemsTyped, Emplace, Unique;
    ItemsSplit(e, from, elem, vs, rest);
    var more := EncodeItems(e, from, elem, vs[1..]) + rest;
    RoundTrip(e, from, to, elem, vs[0], more);
    ItemsStep(e, to, t, elem, |vs|, done, Encode(e, from, elem, vs[0]) + more);
    EmplaceNext(t, done, vs);
  }

  lemma {:induction false} ItemsRoundTrip(e: Endian, from: Endian, to: Endian, t: Type, elem: Type, done: seq<Val>,
                                          vs: seq<Val>, rest: bytes)
    requires ItemsTyped(elem, vs) && Unique(t, done + vs)
    ensures var d := DecodeItems(e, to, t, elem, |vs|, done, EncodeItems(e, from, elem, vs) + rest);
      if ItemsSurvive(from, to, elem, vs) then d == Read(done + vs, rest) else Misses(from, to, d, done + vs, rest)
    decreases elem, 5, |vs|
  {
    hide Encode, Decode, HasType, Survives, DecodeItems, EncodeItems, ItemsTyped, Emplace, Unique;
    if vs == [] {
      NoItems(e, from, to, t, elem, done, rest);
      assert done + vs == done;
    } else {
      ItemsSplit(e, from, elem, vs, rest);
      if Survives(from, to, elem, vs[0]) {
        FirstItemRead(e, from, to, t, elem, done, vs, rest);
        EmplaceNext(t, done, vs);
        ItemsRoundTrip(e, from, to, t, elem, done + [vs[0]], vs[1..], rest);
      } else {
        FirstItemMissed(e, from, to, t, elem, done, vs, rest);
      }
    }
  }

  lemma {:induction false} FieldsRoundTrip(e: Endian, from: Endian, to: Endian, ts: seq<Type>, vs: seq<Val>,
                                           rest: bytes)
    requires AllTyped(ts, vs)
    ensures var d := DecodeFields(e, to, ts, EncodeFields(e, from, ts, vs) + rest);
      if FieldsSurvive(from, to, ts, vs) then d == Read(vs, rest) else Misses(from, to, d, vs, rest)
    decreases ts, 0, 0
  {
    hide Encode, Decode, HasType, Survives;
    if ts == [] {
      assert [] + rest == rest;
    } else {
      var more := EncodeFields(e, from, ts[1..], vs[1..]) + rest;
      Assoc(Encode(e, from, ts[0], vs[0]), EncodeFields(e, from, ts[1..], vs[1..]), rest);
      RoundTrip(e, from, to, ts[0], vs[0], more);
      FieldsRoundTrip(e, from, to, ts[1..], vs[1..], rest);
      assert [vs[0]] + vs[1..] == vs;
      var d := DecodeFields(e, to, ts, EncodeFields(e, from, ts, vs) + rest);
      if d.Read? { assert d.v[1..] == DecodeFields(e, to, ts[1..], more).v; }
    }
  }

  // ----- elements that are there already -----

  /** What reading makes of elements, whether or not some are equal. */
  function EmplaceAll(t: Type, done: seq<Val>, vs: seq<Val>): seq<Val>
    decreases |vs|
  {
    if vs == [] then done else EmplaceAll(t, Emplace(t, done, vs[0]), vs[1..])
  }

  lemma {:induction false} EmplaceLast(t: Type, done: seq<Val>, vs: seq<Val>, v: Val)
    ensures EmplaceAll(t, done, vs + [v]) == Emplace(t, EmplaceAll(t, done, vs), v)
    decreases |vs|
  {
    hide Emplace;
    if vs == [] {
      assert vs + [v] == [v] && [v][1..] == [];
    } else {
      assert (vs + [v])[1..] == vs[1..] + [v];
      EmplaceLast(t, Emplace(t, done, vs[0]), vs[1..], v);
    }
  }

  lemma {:induction false} ItemsEmplaced(e: Endian, host: Endian, t: Type, elem: Type, done: seq<Val>, vs: seq<Val>,
                                         rest: bytes)
    requires ItemsTyped(elem, vs) && ItemsSurvive(host, host, elem, vs)
    ensures DecodeItems(e, host, t, elem, |vs|, done, EncodeItems(e, host, elem, vs) + rest)
      == Read(EmplaceAll(t, done, vs), rest)
    decreases |vs|
  {
    hide Encode, Decode, HasType, Survives, DecodeItems, EncodeItems, ItemsTyped, Emplace;
    if vs == [] {
      NoItems(e, host, host, t, elem, done, rest);
    } else {
      ItemsSplit(e, host, elem, vs, rest);
      var more := EncodeItems(e, host, elem, vs[1..]) + rest;
      RoundTrip(e, host, host, elem, vs[0], more);
      ItemsStep(e, host, t, elem, |vs|, done, Encode(e, host, elem, vs[0]) + more);
      ItemsEmplaced(e, host, t, elem, Emplace(t, done, vs[0]), vs[1..], rest);
    }
  }

  /** Each value where it comes first. */
  function Firsts(vs: seq<Val>): seq<Val> {
    if vs == [] then []
    else
      var front, last := vs[..|vs| - 1], vs[|vs| - 1];
      if last in front then Firsts(front) else Firsts(front) + [last]
  }

  lemma {:induction false} FirstsAreAll(vs: seq<Val>)
    ensures forall v :: v in Firsts(vs) <==> v in vs
  {
    if vs != [] {
      var front, last := vs[..|vs| - 1], vs[|vs| - 1];
      FirstsAreAll(front);
      assert vs == front + [last];
    }
  }

  lemma {:induction false} EmplacedInSet(elem: Type, vs: seq<Val>)
    ensures EmplaceAll(TSet(elem), [], vs) == Firsts(vs)
  {
    if vs != [] {
      var front, last := vs[..|vs| - 1], vs[|vs| - 1];
      assert vs == front + [last];
      EmplaceLast(TSet(elem), [], front, last);
      EmplacedInSet(elem, front);
      FirstsAreAll(front);
    }
  }

  lemma {:induction false} ReadAs(e: Endian, host: Endian, t: Type, v: Val, rest: bytes)
    requires IsContainer(t) && HasType(TSequence(t.elem), v) && Survives(host, host, TSequence(t.elem), v)
    ensures v.VItems?
    ensures Decode(e, host, t, Encode(e, host, TSequence(t.elem), v) + rest)
      == Read(VItems(EmplaceAll(t, [], v.items)), rest)
  {
    hide EncodeLength, DecodeLength, EncodeItems, DecodeItems, ItemsTyped, ItemsSurvive, Unique;
    var n, b := |v.items|, EncodeItems(e, host, t.elem, v.items);
    Assoc(EncodeLength(e, n), b, rest);
    LengthRoundTrip(e, n, b + rest);
    ItemsEmplaced(e, host, t, t.elem, [], v.items, rest);
  }

  /** A set has each of the elements written once. */
  lemma {:induction false} SequenceReadAsSet(e: Endian, host: Endian, elem: Type, v: Val, rest: bytes)
    requires HasType(TSequence(elem), v) && Survives(host, host, TSequence(elem), v)
    ensures Decode(e, host, TSet(elem), Encode(e, host, TSequence(elem), v) + rest)
      == Read(VItems(Firsts(v.items)), rest)
  {
    hide Decode, Encode, HasType, Survives;
    ReadAs(e, host, TSet(elem), v, rest);
    EmplacedInSet(elem, v.items);
  }

  predicate ArePairs(vs: seq<Val>) { forall i :: 0 <= i < |vs| ==> vs[i].VStruct? && vs[i].fields != [] }

  predicate HasKey(vs: seq<Val>, key: Val)
    requires ArePairs(vs)
  {
    exists i :: 0 <= i < |vs| && vs[i].fields[0] == key
  }

  lemma {:induction false} HasKeyLast(vs: seq<Val>, v: Val, key: Val)
    requires ArePairs(vs) && v.VStruct? && v.fields != []
    ensures ArePairs(vs + [v]) && (HasKey(vs + [v], key) <==> HasKey(vs, key) || v.fields[0] == key)
  {
    var all := vs + [v];
    assert all[|vs|] == v && forall i :: 0 <= i < |vs| ==> all[i] == vs[i];
  }

  /** Each pair whose key has not come before. */
  function FirstsByKey(vs: seq<Val>): seq<Val>
    requires ArePairs(vs)
  {
    if vs == [] then []
    else
      var front, last := vs[..|vs| - 1], vs[|vs| - 1];
      if HasKey(front, last.fields[0]) then FirstsByKey(front) else FirstsByKey(front) + [last]
  }

  lemma {:induction false} FirstKeysAreAll(vs: seq<Val>, key: Val)
    requires ArePairs(vs)
    ensures ArePairs(FirstsByKey(vs)) && (HasKey(FirstsByKey(vs), key) <==> HasKey(vs, key))
  {
    hide HasKey;
    if vs != [] {
      var front, last := vs[..|vs| - 1], vs[|vs| - 1];
      FirstKeysAreAll(front, key);
      HasKeyLast(front, last, key);
      assert vs == front + [last];
      HasKeyLast(FirstsByKey(front), last, key);
    }
  }

  lemma {:induction false} EmplacedInMapping(elem: Type, vs: seq<Val>)
    requires ArePairs(vs)
    ensures EmplaceAll(TMapping(elem), [], vs) == FirstsByKey(vs)
  {
    if vs != [] {
      var front, last := vs[..|vs| - 1], vs[|vs| - 1];
      assert vs == front + [last];
      EmplaceLast(TMapping(elem), [], front, last);
      EmplacedInMapping(elem, front);
      FirstKeysAreAll(front, last.fields[0]);
    }
  }

  /** A mapping has the first of the pairs written with each key. */
  lemma {:induction false} SequenceReadAsMapping(e: Endian, host: Endian, elem: Type, v: Val, rest: bytes)
    requires HasType(TSequence(elem), v) && Survives(host, host, TSequence(elem), v)
    requires ArePairs(v.items)
    ensures Decode(e, host, TMapping(elem), Encode(e, host, TSequence(elem), v) + rest)
      == Read(VItems(FirstsByKey(v.items)), rest)
  {
    hide Decode, Encode, HasType, Survives;
    ReadAs(e, host, TMapping(elem), v, rest);
    EmplacedInMapping(elem, v.items);
  }

  // ----- reading does not look ahead -----

  /** Reading stopped for want of bytes. */
  predicate Short<T>(d: Outcome<T>) { d.Failed? && d.error == PositionError }

  /** The same outcome with more bytes at the end. */
  function Longer<T>(d: Outcome<T>, more: bytes): Outcome<T> {
    match d case Read(v, r) => Read(v, r + more) case Failed(x, r) => Failed(x, r + more)
  }

  lemma {:induction false} UIntExtends(e: Endian, w: nat, b: bytes, t: bytes)
    requires !Short(DecodeUInt(e, w, b))
    ensures DecodeUInt(e, w, b + t) == Longer(DecodeUInt(e, w, b), t)
  {
    assert (b + t)[..w] == b[..w] && (b + t)[w..] == b[w..] + t;
  }

  lemma {:induction false} LengthExtends(e: Endian, b: bytes, t: bytes)
    requires !Short(DecodeLength(e, b))
    ensures DecodeLength(e, b + t) == Longer(DecodeLength(e, b), t)
  {
    hide DecodeUInt;
    UIntExtends(e, 1, b, t);
    var d := DecodeUInt(e, 1, b);
    if d.Read? && d.v == ESCAPE { UIntExtends(e, 4, d.rest, t); }
  }

  lemma {:induction false} BytesExtend(n: nat, b: bytes, t: bytes)
    requires !Short(DecodeBytes(n, b))
    ensures DecodeBytes(n, b + t) == Longer(DecodeBytes(n, b), t)
  {
    assert (b + t)[..n] == b[..n] && (b + t)[n..] == b[n..] + t;
  }

  /** Unless reading stopped for want of bytes, it does not depend on the bytes after those it took. */
  lemma {:induction false} DecodeExtends(e: Endian, host: Endian, t: Type, b: bytes, more: bytes)
    requires !Short(Decode(e, host, t, b))
    ensures Decode(e, host, t, b + more) == Longer(Decode(e, host, t, b), more)
    decreases t, 0
  {
    hide DecodeUInt, DecodeLength, DecodeBytes, IsFinite;
    match t
    case TUInt(w) => UIntExtends(e, w, b, more);
    case TInt(w) => UIntExtends(e, w, b, more);
    case TBool => UIntExtends(e, 1, b, more);
    case TString =>
      LengthExtends(e, b, more);
      var d := DecodeLength(e, b);
      if d.Read? { BytesExtend(d.v, d.rest, more); }
    case TFloat | TDouble => UIntExtends(host, RealWidth(t), b, more);
    case TRaw(n) => BytesExtend(n, b, more);
    case TOptional(u) =>
      UIntExtends(e, 1, b, more);
      var d := DecodeUInt(e, 1, b);
      if d.Read? && d.v != 0 { DecodeExtends(e, host, u, d.rest, more); }
    case TStruct(ts) => FieldsExtend(e, host, ts, b, more);
    case _ =>
      LengthExtends(e, b, more);
      var d := DecodeLength(e, b);
      if d.Read? { ItemsExtend(e, host, t, t.elem, d.v, [], d.rest, more); }
  }

  lemma {:induction false} NothingToRead(e: Endian, host: Endian, t: Type, elem: Type, vs: seq<Val>, b: bytes)
    ensures DecodeItems(e, host, t, elem, 0, vs, b) == Read(vs, b)
  {
  }

  lemma {:induction false} ItemsExtend(e: Endian, host: Endian, t: Type, elem: Type, n: nat, vs: seq<Val>, b: bytes,
                                       more: bytes)
    requires !Short(DecodeItems(e, host, t, elem, n, vs, b))
    ensures DecodeItems(e, host, t, elem, n, vs, b + more) == Longer(DecodeItems(e, host, t, elem, n, vs, b), more)
    decreases elem, 1, n
  {
    hide Decode, DecodeItems, Emplace;
    if n == 0 {
      NothingToRead(e, host, t, elem, vs, b);
      NothingToRead(e, host, t, elem, vs, b + more);
    } else {
      ItemsStep(e, host, t, elem, n, vs, b);
      ItemsStep(e, host, t, elem, n, vs, b + more);
      DecodeExtends(e, host, elem, b, more);
      var d := Decode(e, host, elem, b);
      if d.Read? { ItemsExtend(e, host, t, elem, n - 1, Emplace(t, vs, d.v), d.rest, more); }
    }
  }

  lemma {:induction false} FieldsExtend(e: Endian, host: Endian, ts: seq<Type>, b: bytes, more: bytes)
    requires !Short(DecodeFields(e, host, ts, b))
    ensures DecodeFields(e, host, ts, b + more) == Longer(DecodeFields(e, host, ts, b), more)
    decreases ts, 0
  {
    hide Decode;
    if ts != [] {
      DecodeExtends(e, host, ts[0], b, more);
      var d := Decode(e, host, ts[0], b);
      if d.Read? { FieldsExtend(e, host, ts[1..], d.rest, more); }
    }
  }

  /** Cutting a written value short anywhere makes reading it fail, with ArchivePositionError unless a real is
      not finite on the way. */
  lemma {:induction false} TruncatedFails(e: Endian, from: Endian, to: Endian, t: Type, v: Val, k: nat)
    requires HasType(t, v) && k < |Encode(e, from, t, v)|
    ensures var d := Decode(e, to, t, Encode(e, from, t, v)[..k]);
      d.Failed? && (Survives(from, to, t, v) ==> d.error == PositionError)
  {
    hide Encode, Decode, Survives;
    var b := Encode(e, from, t, v);
    RoundTrip(e, from, to, t, v, []);
    assert b + [] == b && b[..k] + b[k..] == b;
    if !Short(Decode(e, to, t, b[..k])) {
      DecodeExtends(e, to, t, b[..k], b[k..]);
    }
  }
}
