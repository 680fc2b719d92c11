/**
  JSON values as JsonValue holds them, and layouts: the ways a value can be laid out as text. A layout
  fixes every run of white space, so that the printer can say exactly what it has printed and the parser
  what it accepts.
*/
module JsonValues {
  import opened Basics
  import opened JsonText
  import opened JsonNumber

  datatype Json =
    | Null
    | Bool(b: bool)
    | Num(n: Number)
    | Str(s: bytes)
    | Arr(items: seq<Json>)
    | Obj(members: seq<Member>) // a std::map: in ascending order of keys

  datatype Member = Member(key: bytes, value: Json)

  // ----- std::map<std::string, JsonValue> -----

  /** operator< of std::string. */
  predicate Less(a: bytes, b: bytes) {
    b != [] && (a == [] || a[0] < b[0] || (a[0] == b[0] && Less(a[1..], b[1..])))
  }

  lemma {:induction false} LessIsStrict(a: bytes, b: bytes)
    ensures Less(a, b) ==> a != b && !Less(b, a)
  {
    if a != [] && b != [] {
      LessIsStrict(a[1..], b[1..]);
    }
  }

  lemma {:induction false} LessIsTotal(a: bytes, b: bytes)
    ensures a == b || Less(a, b) || Less(b, a)
  {
    if a != [] && b != [] && a[0] == b[0] {
      LessIsTotal(a[1..], b[1..]);
      assert a == [a[0]] + a[1..] && b == [b[0]] + b[1..];
    }
  }

  lemma {:induction false} LessIsTransitive(a: bytes, b: bytes, c: bytes)
    requires Less(a, b) && Less(b, c)
    ensures Less(a, c)
  {
    if a != [] && a[0] == b[0] == c[0] {
      LessIsTransitive(a[1..], b[1..], c[1..]);
    }
  }

  /** a and b agree on n bytes, and then a ends or has the lower byte. */
  ghost predicate LowerFrom(a: bytes, b: bytes, n: nat) {
    n <= |a| && n < |b| && a[..n] == b[..n] && (n == |a| || a[n] < b[n])
  }

  /** A proper prefix comes first, and otherwise the first byte that differs decides. */
  lemma {:induction false} LessExactly(a: bytes, b: bytes)
    ensures Less(a, b) <==> exists n: nat :: LowerFrom(a, b, n)
  {
    if b != [] && (a == [] || a[0] != b[0]) {
      assert LowerFrom(a, b, 0) <==> a == [] || a[0] < b[0];
      assert forall n: nat :: LowerFrom(a, b, n) && n > 0 ==> a[..n][0] == b[..n][0];
    } else if b != [] {
      LessExactly(a[1..], b[1..]);
      forall n: nat ensures LowerFrom(a, b, n + 1) <==> LowerFrom(a[1..], b[1..], n) {
        if n < |a| && n + 1 < |b| { assert a[..n + 1] == [a[0]] + a[1..][..n] && b[..n + 1] == [b[0]] + b[1..][..n]; }
      }
      if n: nat :| LowerFrom(a, b, n) { assert n == 0 || LowerFrom(a[1..], b[1..], n - 1); }
      if n: nat :| LowerFrom(a[1..], b[1..], n) { assert LowerFrom(a, b, n + 1); }
    }
  }

  function Find(ms: seq<Member>, key: bytes): Option<Json> {
    if ms == [] then None else if ms[0].key == key then Some(ms[0].value) else Find(ms[1..], key)
  }

  /** operator[] followed by an assignment. */
  function Insert(ms: seq<Member>, key: bytes, value: Json): seq<Member> {
    if ms == [] then [Member(key, value)]
    else if ms[0].key == key then [Member(key, value)] + ms[1..]
    else if Less(key, ms[0].key) then [Member(key, value)] + ms
    else [ms[0]] + Insert(ms[1..], key, value)
  }

  predicate Ascending(ms: seq<Member>) {
    forall i, j :: 0 <= i < j < |ms| ==> Less(ms[i].key, ms[j].key)
  }

  /** The key has the new value, and every other key has what it had. */
  lemma {:induction false} InsertFind(ms: seq<Member>, key: bytes, value: Json, x: bytes)
    ensures Find(Insert(ms, key, value), x) == if x == key then Some(value) else Find(ms, x)
  {
    if ms != [] && ms[0].key != key && !Less(key, ms[0].key) {
      InsertFind(ms[1..], key, value, x);
    }
  }

  /** What holds of all keys and of the new one holds after. */
  lemma {:induction false} InsertBound(ms: seq<Member>, key: bytes, value: Json, low: bytes)
    requires Less(low, key) && forall i :: 0 <= i < |ms| ==> Less(low, ms[i].key)
    ensures forall i :: 0 <= i < |Insert(ms, key, value)| ==> Less(low, Insert(ms, key, value)[i].key)
  {
    if ms != [] && ms[0].key != key && !Less(key, ms[0].key) {
      InsertBound(ms[1..], key, value, low);
    }
  }

  lemma {:induction false} InsertAscending(ms: seq<Member>, key: bytes, value: Json)
    requires Ascending(ms)
    ensures Ascending(Insert(ms, key, value))
  {
    hide Less;
    if ms != [] && ms[0].key != key {
      if Less(key, ms[0].key) {
        forall i | 0 < i < |ms| ensures Less(key, ms[i].key) { LessIsTransitive(key, ms[0].key, ms[i].key); }
      } else {
        LessIsTotal(ms[0].key, key);
        InsertAscending(ms[1..], key, value);
        InsertBound(ms[1..], key, value, ms[0].key);
      }
    }
  }

  /** Ascending members are a map: what is found under each key determines them. */
  lemma {:induction false} AscendingIsMap(a: seq<Member>, b: seq<Member>)
    requires Ascending(a) && Ascending(b) && forall key :: Find(a, key) == Find(b, key)
    ensures a == b
  {
    if a != [] { assert Find(a, a[0].key) == Find(b, a[0].key); }
    if b != [] { assert Find(a, b[0].key) == Find(b, b[0].key); }
    if a != [] && b != [] {
      FirstIsLowest(a, b);
      FirstIsLowest(b, a);
      LessIsStrict(a[0].key, b[0].key);
      forall key ensures Find(a[1..], key) == Find(b[1..], key) {
        assert Find(a, key) == Find(b, key);
        if key == a[0].key { NotFoundAfter(a); NotFoundAfter(b); }
      }
      AscendingIsMap(a[1..], b[1..]);
      assert a == [a[0]] + a[1..] && b == [b[0]] + b[1..];
    }
  }

  lemma {:induction false} FirstIsLowest(a: seq<Member>, b: seq<Member>)
    requires Ascending(b) && a != [] && b != [] && Find(b, a[0].key).Some?
    ensures a[0].key == b[0].key || Less(b[0].key, a[0].key)
  {
    hide Less;
    var i := FoundAt(b, a[0].key);
  }

  lemma {:induction false} FoundAt(ms: seq<Member>, key: bytes) returns (i: nat)
    requires Find(ms, key).Some?
    ensures i < |ms| && ms[i].key == key && Find(ms, key) == Some(ms[i].value)
  {
    if ms[0].key == key { i := 0; } else { i := FoundAt(ms[1..], key); i := i + 1; }
  }

  lemma {:induction false} NotFoundAfter(ms: seq<Member>)
    requires Ascending(ms) && ms != []
    ensures Find(ms[1..], ms[0].key) == None
  {
    if Find(ms[1..], ms[0].key).Some? {
      var i := FoundAt(ms[1..], ms[0].key);
      LessIsStrict(ms[0].key, ms[i + 1].key);
    }
  }

  /** A key above all present ones goes to the end. */
  lemma {:induction false} InsertLast(ms: seq<Member>, key: bytes, value: Json)
    requires forall i :: 0 <= i < |ms| ==> Less(ms[i].key, key)
    ensures Insert(ms, key, value) == ms + [Member(key, value)]
    ensures Find(ms, key) == None
  {
    if ms != [] {
      LessIsStrict(ms[0].key, key);
      InsertLast(ms[1..], key, value);
      assert [ms[0]] + (ms[1..] + [Member(key, value)]) == ms + [Member(key, value)];
    }
  }

  lemma {:induction false} FindMember(ms: seq<Member>, i: nat)
    requires i < |ms| && Ascending(ms)
    ensures Find(ms, ms[i].key) == Some(ms[i].value)
  {
    if i > 0 {
      LessIsStrict(ms[0].key, ms[i].key);
      FindMember(ms[1..], i - 1);
    }
  }

  // ----- what can be printed, and what is read -----

  /** A key that survives printing and reading. */
  predicate KeyOk(key: bytes) {
    0 !in key && ReadBack(key) == key && |key| < 0x4000_0000
  }

  /** No reals; integers in the range of int64 and uint64; keys as a JsonValue can hold them. */
  predicate Printable(v: Json) {
    match v
    case Num(Int(i)) => -INT64_MAX - 1 <= i <= INT64_MAX
    case Num(UInt(u)) => u <= UINT64_MAX
    case Num(Real) => false
    case Arr(items) => forall i :: 0 <= i < |items| ==> Printable(items[i])
    case Obj(ms) => Ascending(ms) && forall i :: 0 <= i < |ms| ==> KeyOk(ms[i].key) && Printable(ms[i].value)
    case _ => true
  }

  /** The same numbers, with any members in any order: what a text can spell out. */
  predicate Spelled(v: Json) {
    match v
    case Num(Int(i)) => -INT64_MAX - 1 <= i <= INT64_MAX
    case Num(UInt(u)) => u <= UINT64_MAX
    case Num(Real) => false
    case Arr(items) => forall i :: 0 <= i < |items| ==> Spelled(items[i])
    case Obj(ms) => forall i :: 0 <= i < |ms| ==> Spelled(ms[i].value)
    case _ => true
  }

  /** The key under which a member is stored. */
  function StoredKey(key: bytes): bytes { CStr(ReadBack(key)) }

  /** The value that reading back gives: unsigned integers that fit become signed, strings become what
      the quoting helpers make of them, and members are assigned one after the other. */
  function Canon(v: Json): Json {
    match v
    case Num(UInt(u)) => if u <= INT64_MAX then Num(Int(u)) else v
    case Str(s) => Str(ReadBack(s))
    case Arr(items) => Arr(CanonItems(items))
    case Obj(ms) => Obj(Assigned(ms))
    case _ => v
  }

  function CanonItems(items: seq<Json>): (r: seq<Json>)
    ensures |r| == |items|
    ensures forall i :: 0 <= i < |items| ==> r[i] == Canon(items[i])
  {
    if items == [] then [] else [Canon(items[0])] + CanonItems(items[1..])
  }

  function Assigned(ms: seq<Member>): seq<Member> {
    if ms == [] then []
    else
      var last := ms[|ms| - 1];
      Insert(Assigned(ms[..|ms| - 1]), StoredKey(last.key), Canon(last.value))
  }

  /** What the last member with a key has for it. */
  function LastValue(ms: seq<Member>, key: bytes): Option<Json> {
    if ms == [] then None
    else
      var last := ms[|ms| - 1];
      if StoredKey(last.key) == key then Some(Canon(last.value)) else LastValue(ms[..|ms| - 1], key)
  }

  /** An object is read as the map in which each key has its last value. */
  lemma {:induction false} AssignedIsLast(ms: seq<Member>)
    ensures Ascending(Assigned(ms))
    ensures forall key :: Find(Assigned(ms), key) == LastValue(ms, key)
  {
    if ms != [] {
      var front, last := ms[..|ms| - 1], ms[|ms| - 1];
      AssignedIsLast(front);
      InsertAscending(Assigned(front), StoredKey(last.key), Canon(last.value));
      forall key ensures Find(Assigned(ms), key) == LastValue(ms, key) {
        InsertFind(Assigned(front), StoredKey(last.key), Canon(last.value), key);
      }
    }
  }

  lemma {:induction false} LastValueExists(ms: seq<Member>, key: bytes)
    ensures LastValue(ms, key).Some? <==> exists i :: 0 <= i < |ms| && StoredKey(ms[i].key) == key
  {
    if ms != [] {
      LastValueExists(ms[..|ms| - 1], key);
      assert forall i :: 0 <= i < |ms| - 1 ==> ms[..|ms| - 1][i] == ms[i];
    }
  }

  /** Members as a JsonValue holds them keep their places. */
  lemma {:induction false} AssignedInPlace(ms: seq<Member>)
    requires Ascending(ms) && forall i :: 0 <= i < |ms| ==> KeyOk(ms[i].key)
    ensures |Assigned(ms)| == |ms|
    ensures forall i :: 0 <= i < |ms| ==> Assigned(ms)[i] == Member(ms[i].key, Canon(ms[i].value))
  {
    if ms != [] {
      var front, last := ms[..|ms| - 1], ms[|ms| - 1];
      AssignedInPlace(front);
      assert StoredKey(last.key) == last.key;
      assert forall i :: 0 <= i < |front| ==> Assigned(front)[i].key == ms[i].key;
      InsertLast(Assigned(front), StoredKey(last.key), Canon(last.value));
    }
  }

  /** Two members of one object have the same key. */
  ghost predicate Clash(ms: seq<Member>) {
    exists i, j :: 0 <= i < j < |ms| && StoredKey(ms[i].key) == StoredKey(ms[j].key)
  }

  /** Some object in v has a repeated key. */
  ghost predicate Repeats(v: Json) {
    match v
    case Arr(items) => exists i :: 0 <= i < |items| && Repeats(items[i])
    case Obj(ms) => Clash(ms) || exists i :: 0 <= i < |ms| && Repeats(ms[i].value)
    case _ => false
  }

  /** Some key in v is too long to be held. */
  ghost predicate Overlong(v: Json) {
    match v
    case Arr(items) => exists i :: 0 <= i < |items| && Overlong(items[i])
    case Obj(ms) => exists i :: 0 <= i < |ms| && (|ReadBack(ms[i].key)| >= 0x4000_0000 || Overlong(ms[i].value))
    case _ => false
  }

  lemma {:induction false} PrintableIsSpelled(v: Json)
    requires Printable(v)
    ensures Spelled(v) && !Repeats(v) && !Overlong(v)
  {
    match v
    case Arr(items) =>
      forall i | 0 <= i < |items| ensures Spelled(items[i]) && !Repeats(items[i]) && !Overlong(items[i]) {
        PrintableIsSpelled(items[i]);
      }
    case Obj(ms) =>
      forall i | 0 <= i < |ms|
        ensures Spelled(ms[i].value) && !Repeats(ms[i].value) && !Overlong(ms[i].value)
      {
        PrintableIsSpelled(ms[i].value);
      }
      forall i, j | 0 <= i < j < |ms| ensures StoredKey(ms[i].key) != StoredKey(ms[j].key) {
        LessIsStrict(ms[i].key, ms[j].key);
      }
    case _ =>
  }

  /** Every object in v is a map whose keys end before any NUL. */
  ghost predicate Held(v: Json) {
    match v
    case Arr(items) => forall i :: 0 <= i < |items| ==> Held(items[i])
    case Obj(ms) => Ascending(ms) && forall i :: 0 <= i < |ms| ==> 0 !in ms[i].key && Held(ms[i].value)
    case _ => true
  }

  lemma {:induction false} InsertHeld(ms: seq<Member>, key: bytes, value: Json)
    requires Held(Obj(ms)) && Held(value) && 0 !in key
    ensures Held(Obj(Insert(ms, key, value)))
  {
    hide Less, Held;
    HeldParts(ms);
    InsertAscending(ms, key, value);
    InsertFrom(ms, key, value);
    var r := Insert(ms, key, value);
    forall i | 0 <= i < |r| ensures 0 !in r[i].key && Held(r[i].value) {
      assert r[i] == Member(key, value) || r[i] in ms;
    }
    HeldWhole(r);
  }

  lemma {:induction false} HeldParts(ms: seq<Member>)
    requires Held(Obj(ms))
    ensures Ascending(ms) && forall i :: 0 <= i < |ms| ==> 0 !in ms[i].key && Held(ms[i].value)
  {
  }

  lemma {:induction false} HeldWhole(ms: seq<Member>)
    requires Ascending(ms) && forall i :: 0 <= i < |ms| ==> 0 !in ms[i].key && Held(ms[i].value)
    ensures Held(Obj(ms))
  {
  }

  lemma {:induction false} InsertFrom(ms: seq<Member>, key: bytes, value: Json)
    ensures forall m :: m in Insert(ms, key, value) ==> m == Member(key, value) || m in ms
  {
    if ms != [] && ms[0].key != key && !Less(key, ms[0].key) {
      InsertFrom(ms[1..], key, value);
    }
  }

  // ----- layouts -----

  datatype Layout =
    | Leaf(v: Json)
    | Array(items: seq<Item>)
    | Object(entries: seq<Entry>)

  datatype Item = Item(lead: bytes, body: Layout, trail: bytes)

  datatype Entry = Entry(lead: bytes, key: bytes, beforeColon: bytes, afterColon: bytes, body: Layout, trail: bytes)

  predicate IsSpace(c: byte) { c == 32 || c == 9 || c == 13 || c == 10 }

  /** Blanks, tabs, carriage returns and line feeds. */
  predicate Spaces(w: bytes) { forall i :: 0 <= i < |w| ==> w[i] in {32, 9, 13, 10} }

  /** A leaf holds a scalar, and every run of white space is one. */
  predicate Spaced(l: Layout) {
    match l
    case Leaf(v) => !v.Arr? && !v.Obj?
    case Array(items) =>
      forall i :: 0 <= i < |items| ==> Spaces(items[i].lead) && Spaces(items[i].trail) && Spaced(items[i].body)
    case Object(es) =>
      forall i :: 0 <= i < |es| ==>
        && Spaces(es[i].lead) && Spaces(es[i].beforeColon) && Spaces(es[i].afterColon) && Spaces(es[i].trail)
        && Spaced(es[i].body)
  }

  function ValueOf(l: Layout): Json {
    match l
    case Leaf(v) => v
    case Array(items) => Arr(ItemValues(items))
    case Object(es) => Obj(EntryValues(es))
  }

  function ItemValues(items: seq<Item>): (r: seq<Json>)
    ensures |r| == |items|
    ensures forall i :: 0 <= i < |items| ==> r[i] == ValueOf(items[i].body)
  {
    if items == [] then [] else [ValueOf(items[0].body)] + ItemValues(items[1..])
  }

  function EntryValues(es: seq<Entry>): (r: seq<Member>)
    ensures |r| == |es|
    ensures forall i :: 0 <= i < |es| ==> r[i] == Member(es[i].key, ValueOf(es[i].body))
  {
    if es == [] then [] else [Member(es[0].key, ValueOf(es[0].body))] + EntryValues(es[1..])
  }

  /** The nesting depth of a value: one for a scalar. */
  function Depth(v: Json): nat {
    match v
    case Arr(items) => 1 + DepthItems(items)
    case Obj(ms) => 1 + DepthMembers(ms)
    case _ => 1
  }

  function Max(a: nat, b: nat): nat { if a > b then a else b }

  function DepthItems(items: seq<Json>): nat {
    if items == [] then 0 else Max(Depth(items[0]), DepthItems(items[1..]))
  }

  function DepthMembers(ms: seq<Member>): nat {
    if ms == [] then 0 else Max(Depth(ms[0].value), DepthMembers(ms[1..]))
  }

  const LBRACKET: byte := 91
  const RBRACKET: byte := 93
  const LBRACE: byte := 123
  const RBRACE: byte := 125
  const COMMA: byte := 44
  const COLON: byte := 58
  const NULL_TEXT: bytes := [110, 117, 108, 108]
  const TRUE_TEXT: bytes := [116, 114, 117, 101]
  const FALSE_TEXT: bytes := [102, 97, 108, 115, 101]

  function LeafText(v: Json): bytes {
    match v
    case Null => NULL_TEXT
    case Bool(b) => if b then TRUE_TEXT else FALSE_TEXT
    case Num(Int(i)) => IntText(i)
    case Num(UInt(u)) => IntText(u)
    case Str(s) => Quoted(s)
    case _ => []
  }

  function Render(l: Layout): bytes {
    match l
    case Leaf(v) => LeafText(v)
    case Array(items) => [LBRACKET] + if items == [] then [RBRACKET] else RenderItems(items)
    case Object(es) => [LBRACE] + if es == [] then [RBRACE] else RenderEntries(es)
  }

  /** The items from a given one on, and the closing bracket. */
  function RenderItems(items: seq<Item>): bytes
    requires items != []
  {
    items[0].lead + Render(items[0].body) + items[0].trail
      + if |items| == 1 then [RBRACKET] else [COMMA] + RenderItems(items[1..])
  }

  function RenderEntry(e: Entry): bytes {
    e.lead + Quoted(e.key) + e.beforeColon + [COLON] + e.afterColon + Render(e.body) + e.trail
  }

  function RenderEntries(es: seq<Entry>): bytes
    requires es != []
  {
    RenderEntry(es[0]) + if |es| == 1 then [RBRACE] else [COMMA] + RenderEntries(es[1..])
  }
}
