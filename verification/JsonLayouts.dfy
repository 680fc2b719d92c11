/**
  The reader on laid-out text: what every layout of a value reads as, whatever white space it has and whatever
  the order of the keys, repeated ones included.
*/
module JsonLayouts {
  import opened Basics
  import opened JsonText
  import opened JsonValues
  import opened JsonParse

  /** A read meets a reason to throw, or one to reject, or both in some order, or it gives v and leaves t. */
  ghost predicate Reads(r: Outcome, throws: bool, rejects: bool, v: Json, t: bytes) {
    if throws && rejects then !r.Parsed?
    else if throws then r == Thrown
    else if rejects then r == Rejected
    else r == Parsed(v, t)
  }

  /** What reading the text of v, followed by t, has to give. */
  ghost predicate Expected(f: Features, r: Outcome, v: Json, t: bytes, nodes: nat) {
    Reads(r, nodes - 1 + Depth(v) > f.stackLimit || Overlong(v), f.rejectDupKeys && Repeats(v), Canon(v), t)
  }

  lemma {:induction false} NextSkips(w: bytes, t: bytes)
    requires Spaces(w) && t != [] && !IsSpace(t[0])
    ensures NextToken(w + t) == TokenAt(t)
    ensures NextToken(t) == TokenAt(t)
  {
    SkipLeading(w, t);
    SkipLeading([], t);
    assert [] + t == t;
  }

  /** White space in front of a value does not matter. */
  lemma {:induction false} ParseSkips(f: Features, w: bytes, t: bytes, nodes: nat)
    requires Spaces(w) && t != [] && !IsSpace(t[0])
    ensures ParseValue(f, w + t, nodes) == ParseValue(f, t, nodes)
  {
    hide TokenAt;
    NextSkips(w, t);
  }

  /** A one-character token after white space. */
  lemma {:induction false} PunctuationAt(w: bytes, c: byte, t: bytes)
    requires Spaces(w) && c in {COMMA, COLON, RBRACKET, RBRACE}
    ensures NextToken(w + ([c] + t)) == Token(
      if c == COMMA then ArraySeparator else if c == COLON then MemberSeparator
      else if c == RBRACKET then ArrayEnd else ObjectEnd, [c], t)
    ensures Stops(w + ([c] + t))
  {
    var u := [c] + t;
    assert u[1..] == t;
    NextSkips(w, u);
    if w != [] { assert (w + u)[0] == w[0]; }
  }

  lemma {:induction false} RenderStarts(l: Layout)
    requires Spaced(l) && Spelled(ValueOf(l))
    ensures Render(l) != [] && !IsSpace(Render(l)[0]) && Render(l)[0] != RBRACKET
  {
    match l
    case Leaf(v) => LeafParses(Features(false, false, false, 0, _ => true), v, [], 0);
    case _ =>
  }

  lemma {:induction false} Assoc3(a: bytes, b: bytes, c: bytes, d: bytes)
    ensures a + b + c + d == a + (b + (c + d))
  {
  }

  lemma {:induction false} Assoc7(a: bytes, b: bytes, c: bytes, d: bytes, e: bytes, g: bytes, h: bytes, t: bytes)
    ensures a + b + c + d + e + g + h + t == a + (b + (c + (d + (e + (g + (h + t))))))
  {
    Assoc(a + b + c + d + e + g, h, t);
    Assoc(a + b + c + d + e, g, h + t);
    Assoc(a + b + c + d, e, g + (h + t));
    Assoc(a + b + c, d, e + (g + (h + t)));
    Assoc(a + b, c, d + (e + (g + (h + t))));
    Assoc(a, b, c + (d + (e + (g + (h + t)))));
  }

  lemma {:induction false} ParseLayout(f: Features, l: Layout, t: bytes, nodes: nat)
    requires Spaced(l) && Spelled(ValueOf(l)) && Stops(t)
    ensures Expected(f, ParseValue(f, Render(l) + t, nodes), ValueOf(l), t, nodes)
    decreases l, 1
  {
    match l
    case Leaf(v) => LeafParses(f, v, t, nodes);
    case Array(items) => ParseArrayLayout(f, items, t, nodes);
    case Object(es) => ParseObjectLayout(f, es, t, nodes);
  }

  lemma {:induction false} OpenArray(f: Features, x: bytes, nodes: nat)
    ensures ParseValue(f, [LBRACKET] + x, nodes) == if nodes > f.stackLimit then Thrown else ParseArray(f, x, nodes)
  {
    hide ParseArray;
    var u := [LBRACKET] + x;
    assert u[1..] == x;
    assert NextToken(u) == Token(ArrayBegin, [LBRACKET], x);
  }

  lemma {:induction false} ArrayIs(items: seq<Item>)
    ensures ValueOf(Array(items)) == Arr(ItemValues(items))
    ensures Canon(ValueOf(Array(items))) == Arr(CanonItems(ItemValues(items)))
    ensures Depth(ValueOf(Array(items))) == 1 + DepthItems(ItemValues(items))
  {
  }

  lemma {:induction false} ObjectIs(es: seq<Entry>)
    ensures ValueOf(Object(es)) == Obj(EntryValues(es))
    ensures Canon(ValueOf(Object(es))) == Obj(Assigned(EntryValues(es)))
    ensures Depth(ValueOf(Object(es))) == 1 + DepthMembers(EntryValues(es))
    ensures Repeats(ValueOf(Object(es))) <==> Clash(EntryValues(es)) || RepeatsBelow(EntryValues(es))
  {
  }

  lemma {:induction false} OpenObject(f: Features, x: bytes, nodes: nat)
    ensures ParseValue(f, [LBRACE] + x, nodes)
      == if nodes > f.stackLimit then Thrown else ParseMembers(f, x, nodes, [], [])
  {
    hide ParseMembers;
    var u := [LBRACE] + x;
    assert u[1..] == x;
    assert NextToken(u) == Token(ObjectBegin, [LBRACE], x);
  }

  lemma {:induction false} ParseArrayLayout(f: Features, items: seq<Item>, t: bytes, nodes: nat)
    requires Spaced(Array(items)) && Spelled(ValueOf(Array(items)))
    ensures Expected(f, ParseValue(f, Render(Array(items)) + t, nodes), ValueOf(Array(items)), t, nodes)
    decreases Array(items), 0
  {
    hide ParseValue, RenderItems, Canon, Depth, Overlong, Repeats;
    var body := if items == [] then [RBRACKET] else RenderItems(items);
    Assoc([LBRACKET], body, t);
    OpenArray(f, body + t, nodes);
    ArrayIs(items);
    if nodes <= f.stackLimit {
      if items == [] {
        SkipLeading([], body + t);
        assert [] + (body + t) == body + t;
        assert (body + t)[1..] == t;
        NoItems(items);
      } else {
        ItemsStart(f, items, t, nodes);
        ParseItems(f, items, t, nodes, []);
        assert [] + CanonItems(ItemValues(items)) == CanonItems(ItemValues(items));
      }
    }
  }

  /** The text after the first item. */
  function AfterItem(items: seq<Item>, t: bytes): bytes
    requires items != []
  {
    items[0].trail + (if |items| == 1 then [RBRACKET] + t else [COMMA] + (RenderItems(items[1..]) + t))
  }

  lemma {:induction false} ItemsText(items: seq<Item>, t: bytes)
    requires items != []
    ensures RenderItems(items) + t == items[0].lead + (Render(items[0].body) + AfterItem(items, t))
  {
    hide Render;
    var it := items[0];
    var tail := if |items| == 1 then [RBRACKET] else [COMMA] + RenderItems(items[1..]);
    Assoc3(it.lead, Render(it.body), it.trail, tail);
    Assoc(it.lead, Render(it.body) + (it.trail + tail), t);
    Assoc(Render(it.body), it.trail + tail, t);
    Assoc(it.trail, tail, t);
    if |items| > 1 { Assoc([COMMA], RenderItems(items[1..]), t); }
  }

  /** Skipping the white space before the first item finds no closing bracket and changes nothing. */
  lemma {:induction false} ItemsStart(f: Features, items: seq<Item>, t: bytes, nodes: nat)
    requires Spaced(Array(items)) && Spelled(ValueOf(Array(items))) && items != []
    ensures ParseArray(f, RenderItems(items) + t, nodes) == ParseElements(f, RenderItems(items) + t, nodes, [])
  {
    hide Render, ParseValue, RenderItems, AfterItem;
    var it := items[0];
    assert ValueOf(Array(items)).items[0] == ValueOf(it.body);
    RenderStarts(it.body);
    ItemsText(items, t);
    var x := Render(it.body) + AfterItem(items, t);
    assert x[0] == Render(it.body)[0];
    SkipLeading(it.lead, x);
    ParseSkips(f, it.lead, x, nodes + 1);
  }

  /** Reading one item: white space around it does not matter. */
  lemma {:induction false} ParseItem(f: Features, items: seq<Item>, t: bytes, nodes: nat)
    requires Spaced(Array(items)) && Spelled(ValueOf(Array(items))) && items != []
    ensures ParseValue(f, RenderItems(items) + t, nodes)
      == ParseValue(f, Render(items[0].body) + AfterItem(items, t), nodes)
  {
    hide Render, ParseValue, RenderItems, AfterItem;
    assert ValueOf(Array(items)).items[0] == ValueOf(items[0].body);
    RenderStarts(items[0].body);
    ItemsText(items, t);
    var x := Render(items[0].body) + AfterItem(items, t);
    assert x[0] == Render(items[0].body)[0];
    ParseSkips(f, items[0].lead, x, nodes);
  }

  /** What comes after an item is the closing bracket, or a comma and the other items. */
  lemma {:induction false} AfterItemToken(items: seq<Item>, t: bytes)
    requires Spaced(Array(items)) && Spelled(ValueOf(Array(items))) && items != []
    ensures NextToken(AfterItem(items, t)) ==
      if |items| == 1 then Token(ArrayEnd, [RBRACKET], t)
      else Token(ArraySeparator, [COMMA], RenderItems(items[1..]) + t)
    ensures Stops(AfterItem(items, t))
  {
    hide RenderItems;
    if |items| == 1 {
      PunctuationAt(items[0].trail, RBRACKET, t);
    } else {
      PunctuationAt(items[0].trail, COMMA, RenderItems(items[1..]) + t);
    }
  }

  /** An array's parts, one item and the rest. */
  lemma {:induction false} ItemsParts(items: seq<Item>)
    requires Spaced(Array(items)) && Spelled(ValueOf(Array(items))) && items != []
    ensures Spaced(items[0].body) && Spelled(ValueOf(items[0].body))
    ensures Spaced(Array(items[1..])) && Spelled(ValueOf(Array(items[1..])))
    ensures ItemValues(items) == [ValueOf(items[0].body)] + ItemValues(items[1..])
    ensures CanonItems(ItemValues(items)) == [Canon(ValueOf(items[0].body))] + CanonItems(ItemValues(items[1..]))
    ensures DepthItems(ItemValues(items)) == Max(Depth(ValueOf(items[0].body)), DepthItems(ItemValues(items[1..])))
    ensures Overlong(Arr(ItemValues(items)))
      <==> Overlong(ValueOf(items[0].body)) || Overlong(Arr(ItemValues(items[1..])))
    ensures Repeats(Arr(ItemValues(items))) <==> Repeats(ValueOf(items[0].body)) || Repeats(Arr(ItemValues(items[1..])))
  {
    hide Spaced, Spelled, Overlong, Repeats;
    var vs := ItemValues(items);
    assert vs[0] == ValueOf(items[0].body) && vs[1..] == ItemValues(items[1..]);
    ItemsTail(items);
    ItemFlags(vs);
  }

  lemma {:induction false} ItemsTail(items: seq<Item>)
    requires Spaced(Array(items)) && Spelled(Arr(ItemValues(items))) && items != []
    ensures Spaced(items[0].body) && Spelled(ItemValues(items)[0])
    ensures Spaced(Array(items[1..])) && Spelled(Arr(ItemValues(items)[1..]))
  {
    hide Spaces;
    var vs := ItemValues(items);
    assert forall i :: 0 <= i < |items[1..]| ==> items[1..][i] == items[i + 1] && vs[1..][i] == vs[i + 1];
  }

  lemma {:induction false} ItemFlags(vs: seq<Json>)
    requires vs != []
    ensures Overlong(Arr(vs)) <==> Overlong(vs[0]) || Overlong(Arr(vs[1..]))
    ensures Repeats(Arr(vs)) <==> Repeats(vs[0]) || Repeats(Arr(vs[1..]))
  {
    assert forall i :: 0 < i < |vs| ==> vs[i] == vs[1..][i - 1];
  }

  lemma {:induction false} ParseItems(f: Features, items: seq<Item>, t: bytes, nodes: nat, acc: seq<Json>)
    requires Spaced(Array(items)) && Spelled(ValueOf(Array(items))) && items != []
    ensures var vs, r := ItemValues(items), ParseElements(f, RenderItems(items) + t, nodes, acc);
      Reads(r, nodes + DepthItems(vs) > f.stackLimit || Overlong(Arr(vs)), f.rejectDupKeys && Repeats(Arr(vs)),
        Arr(acc + CanonItems(vs)), t)
    decreases items, 0
  {
    hide Overlong, Repeats, Render, RenderItems, AfterItem, ParseValue, NextToken;
    hide Spaced, Printable, ValueOf, ItemValues, Canon, CanonItems, Depth, DepthItems;
    var v, tail := Canon(ValueOf(items[0].body)), ItemValues(items[1..]);
    ItemsParts(items);
    AfterItemToken(items, t);
    ParseLayout(f, items[0].body, AfterItem(items, t), nodes + 1);
    ParseItem(f, items, t, nodes + 1);
    if |items| == 1 {
      NoItems(items[1..]);
      assert CanonItems(ItemValues(items)) == [v];
    } else {
      ParseItems(f, items[1..], t, nodes, acc + [v]);
      Assoc(acc, [v], CanonItems(tail));
    }
  }

  lemma {:induction false} NoItems(items: seq<Item>)
    requires items == []
    ensures CanonItems(ItemValues(items)) == [] && DepthItems(ItemValues(items)) == 0
    ensures !Overlong(Arr(ItemValues(items))) && !Repeats(Arr(ItemValues(items)))
  {
  }

  lemma {:induction false} ParseObjectLayout(f: Features, es: seq<Entry>, t: bytes, nodes: nat)
    requires Spaced(Object(es)) && Spelled(ValueOf(Object(es)))
    ensures Expected(f, ParseValue(f, Render(Object(es)) + t, nodes), ValueOf(Object(es)), t, nodes)
    decreases Object(es), 0
  {
    hide ParseValue, RenderEntries, Canon, Depth, Overlong, Repeats, RepeatsBelow, Assigned, ParseMembers, Clash;
    var body := if es == [] then [RBRACE] else RenderEntries(es);
    Assoc([LBRACE], body, t);
    OpenObject(f, body + t, nodes);
    ObjectIs(es);
    NoMembers();
    if nodes <= f.stackLimit {
      if es == [] {
        CloseObject(f, t, nodes);
        NoEntries(es);
      } else {
        ParseEntries(f, es, t, nodes, [], []);
        assert [] + EntryValues(es) == EntryValues(es);
      }
    }
  }

  lemma {:induction false} CloseObject(f: Features, t: bytes, nodes: nat)
    ensures ParseMembers(f, [RBRACE] + t, nodes, [], []) == Parsed(Obj([]), t)
  {
    PunctuationAt([], RBRACE, t);
    assert [] + ([RBRACE] + t) == [RBRACE] + t;
  }

  /** Some object below ms has a repeated key. */
  ghost predicate RepeatsBelow(ms: seq<Member>) { exists i :: 0 <= i < |ms| && Repeats(ms[i].value) }

  lemma {:induction false} NoMembers()
    ensures Assigned([]) == [] && !Clash([])
  {
  }

  lemma {:induction false} KeyToken(lead: bytes, key: bytes, after: bytes)
    requires Spaces(lead)
    ensures NextToken(lead + (Quoted(key) + after)) == Token(StringToken, Quoted(key), after)
    ensures |Quoted(key)| >= 2 && DecodeBody(Quoted(key)[1..|Quoted(key)| - 1]) == Some(ReadBack(key))
  {
    hide TokenAt, Quoted;
    var x := Quoted(key) + after;
    QuotedStarts(key);
    assert x[0] == Quoted(key)[0];
    NextSkips(lead, x);
    QuotedToken(key, after);
  }

  /** One key and its colon. */
  lemma {:induction false} EntryHead(f: Features, e: Entry, t: bytes, nodes: nat, ms: seq<Member>, name: bytes)
    requires Spaces(e.lead) && Spaces(e.beforeColon)
    ensures ParseMembers(f, e.lead + (Quoted(e.key) + (e.beforeColon + ([COLON] + t))), nodes, ms, name) ==
      if |ReadBack(e.key)| >= 0x4000_0000 then Thrown
      else if f.rejectDupKeys && Find(ms, StoredKey(e.key)).Some? then Rejected
      else
        match ParseValue(f, t, nodes + 1)
        case Rejected => Rejected
        case Thrown => Thrown
        case Parsed(v, rest) =>
          var comma := NextToken(rest);
          match comma.kind
          case ObjectEnd => Parsed(Obj(Insert(ms, StoredKey(e.key), v)), comma.rest)
          case ArraySeparator => ParseMembers(f, comma.rest, nodes, Insert(ms, StoredKey(e.key), v), ReadBack(e.key))
          case _ => Rejected
  {
    hide NextToken, Quoted, ParseValue, DecodeBody, Insert, Find, ReadBack, CStr;
    var after := e.beforeColon + ([COLON] + t);
    KeyToken(e.lead, e.key, after);
    PunctuationAt(e.beforeColon, COLON, t);
  }

  /** The text after the value of the first entry. */
  function AfterEntry(es: seq<Entry>, t: bytes): bytes
    requires es != []
  {
    es[0].trail + (if |es| == 1 then [RBRACE] + t else [COMMA] + (RenderEntries(es[1..]) + t))
  }

  lemma {:induction false} EntriesText(es: seq<Entry>, t: bytes)
    requires es != []
    ensures var e := es[0];
      RenderEntries(es) + t == e.lead + (Quoted(e.key) + (e.beforeColon + ([COLON] +
        (e.afterColon + (Render(e.body) + AfterEntry(es, t))))))
  {
    hide Render, Quoted, Printable, ValueOf;
    var e := es[0];
    var tail := if |es| == 1 then [RBRACE] else [COMMA] + RenderEntries(es[1..]);
    Assoc(RenderEntry(e), tail, t);
    Assoc7(e.lead, Quoted(e.key), e.beforeColon, [COLON], e.afterColon, Render(e.body), e.trail, tail + t);
    if |es| > 1 { Assoc([COMMA], RenderEntries(es[1..]), t); }
  }

  lemma {:induction false} AfterEntryToken(es: seq<Entry>, t: bytes)
    requires Spaced(Object(es)) && Spelled(ValueOf(Object(es))) && es != []
    ensures NextToken(AfterEntry(es, t)) ==
      if |es| == 1 then Token(ObjectEnd, [RBRACE], t)
      else Token(ArraySeparator, [COMMA], RenderEntries(es[1..]) + t)
    ensures Stops(AfterEntry(es, t))
  {
    hide RenderEntries;
    if |es| == 1 {
      PunctuationAt(es[0].trail, RBRACE, t);
    } else {
      PunctuationAt(es[0].trail, COMMA, RenderEntries(es[1..]) + t);
    }
  }

  lemma {:induction false} ParseEntryValue(f: Features, es: seq<Entry>, t: bytes, nodes: nat)
    requires Spaced(Object(es)) && Spelled(ValueOf(Object(es))) && es != []
    ensures ParseValue(f, es[0].afterColon + (Render(es[0].body) + AfterEntry(es, t)), nodes)
      == ParseValue(f, Render(es[0].body) + AfterEntry(es, t), nodes)
  {
    hide Render, ParseValue, AfterEntry;
    assert ValueOf(Object(es)).members[0].value == ValueOf(es[0].body);
    RenderStarts(es[0].body);
    var x := Render(es[0].body) + AfterEntry(es, t);
    assert x[0] == Render(es[0].body)[0];
    ParseSkips(f, es[0].afterColon, x, nodes);
  }

  /** An object's parts, one entry and the rest. */
  lemma {:induction false} EntriesParts(es: seq<Entry>)
    requires Spaced(Object(es)) && Spelled(ValueOf(Object(es))) && es != []
    ensures Spaces(es[0].lead) && Spaces(es[0].beforeColon)
    ensures Spaced(es[0].body) && Spelled(ValueOf(es[0].body))
    ensures Spaced(Object(es[1..])) && Spelled(ValueOf(Object(es[1..])))
    ensures EntryValues(es) == [Member(es[0].key, ValueOf(es[0].body))] + EntryValues(es[1..])
    ensures DepthMembers(EntryValues(es)) == Max(Depth(ValueOf(es[0].body)), DepthMembers(EntryValues(es[1..])))
    ensures Overlong(Obj(EntryValues(es))) <==>
      || |ReadBack(es[0].key)| >= 0x4000_0000 || Overlong(ValueOf(es[0].body)) || Overlong(Obj(EntryValues(es[1..])))
    ensures RepeatsBelow(EntryValues(es)) <==> Repeats(ValueOf(es[0].body)) || RepeatsBelow(EntryValues(es[1..]))
  {
    hide Spaces, Repeats, Overlong;
    var vs := EntryValues(es);
    assert vs[0] == Member(es[0].key, ValueOf(es[0].body)) && vs[1..] == EntryValues(es[1..]);
    SpacedTail(es);
    SpelledTail(vs);
    MemberFlags(vs);
  }

  lemma {:induction false} MemberFlags(ms: seq<Member>)
    requires ms != []
    ensures Overlong(Obj(ms)) <==>
      |ReadBack(ms[0].key)| >= 0x4000_0000 || Overlong(ms[0].value) || Overlong(Obj(ms[1..]))
    ensures RepeatsBelow(ms) <==> Repeats(ms[0].value) || RepeatsBelow(ms[1..])
  {
    assert forall i :: 0 < i < |ms| ==> ms[i] == ms[1..][i - 1];
  }

  lemma {:induction false} SpacedTail(es: seq<Entry>)
    requires Spaced(Object(es)) && es != []
    ensures Spaced(Object(es[1..]))
  {
    hide Spaces;
    assert forall i :: 0 <= i < |es[1..]| ==> es[1..][i] == es[i + 1];
  }

  lemma {:induction false} SpelledTail(ms: seq<Member>)
    requires Spelled(Obj(ms)) && ms != []
    ensures Spelled(Obj(ms[1..])) && Spelled(ms[0].value)
  {
    assert forall i :: 0 <= i < |ms[1..]| ==> ms[1..][i] == ms[i + 1];
  }

  /** One more member: whether its key is there already, and what is then assigned. */
  lemma {:induction false} NextMember(prior: seq<Member>, m: Member)
    ensures Assigned(prior + [m]) == Insert(Assigned(prior), StoredKey(m.key), Canon(m.value))
    ensures Clash(prior + [m]) <==> Clash(prior) || Find(Assigned(prior), StoredKey(m.key)).Some?
  {
    hide Insert, Canon, CStr, ReadBack;
    var ms := prior + [m];
    assert ms[..|ms| - 1] == prior;
    AssignedIsLast(prior);
    LastValueExists(prior, StoredKey(m.key));
    assert forall i :: 0 <= i < |prior| ==> ms[i] == prior[i];
  }

  /** A repeated key stays repeated. */
  lemma {:induction false} ClashStays(ms: seq<Member>, more: seq<Member>)
    requires Clash(ms)
    ensures Clash(ms + more)
  {
    hide CStr, ReadBack;
    var i, j :| 0 <= i < j < |ms| && StoredKey(ms[i].key) == StoredKey(ms[j].key);
    var all := ms + more;
    assert all[i] == ms[i] && all[j] == ms[j];
  }

  lemma {:induction false} ParseEntries(f: Features, es: seq<Entry>, t: bytes, nodes: nat, prior: seq<Member>,
                                        name: bytes)
    requires Spaced(Object(es)) && Spelled(ValueOf(Object(es))) && es != []
    requires f.rejectDupKeys ==> !Clash(prior)
    ensures var ms, r := EntryValues(es), ParseMembers(f, RenderEntries(es) + t, nodes, Assigned(prior), name);
      Reads(r, nodes + DepthMembers(ms) > f.stackLimit || Overlong(Obj(ms)),
        f.rejectDupKeys && (Clash(prior + ms) || RepeatsBelow(ms)), Obj(Assigned(prior + ms)), t)
    decreases es, 0
  {
    hide Render, Quoted, RenderEntries, AfterEntry, ParseValue, NextToken, ParseMembers, StoredKey, ReadBack;
    hide Spaced, Spelled, ValueOf, EntryValues, Canon, Assigned, Depth, DepthMembers, Insert, Find;
    hide Clash, Repeats, RepeatsBelow, Overlong;
    var e, m := es[0], Member(es[0].key, ValueOf(es[0].body));
    EntriesParts(es);
    AfterEntryToken(es, t);
    EntriesText(es, t);
    EntryHead(f, e, e.afterColon + (Render(e.body) + AfterEntry(es, t)), nodes, Assigned(prior), name);
    ParseLayout(f, e.body, AfterEntry(es, t), nodes + 1);
    ParseEntryValue(f, es, t, nodes + 1);
    NextMember(prior, m);
    Assoc(prior, [m], EntryValues(es[1..]));
    if Clash(prior + [m]) { ClashStays(prior + [m], EntryValues(es[1..])); }
    if |es| == 1 {
      NoEntries(es[1..]);
      assert EntryValues(es) == [m];
    } else if !(f.rejectDupKeys && Clash(prior + [m])) {
      ParseEntries(f, es[1..], t, nodes, prior + [m], ReadBack(e.key));
    }
  }

  lemma {:induction false} NoEntries(es: seq<Entry>)
    requires es == []
    ensures EntryValues(es) == [] && DepthMembers(EntryValues(es)) == 0
    ensures !Overlong(Obj(EntryValues(es))) && !Clash(EntryValues(es)) && !RepeatsBelow(EntryValues(es))
  {
  }

  /** Whatever the white space and the order of the keys, reading a laid-out value gives the value back, each key
      with its last value. It throws if the value is nested deeper than the stack limit or has an overlong key, and
      fails if repeated keys are to be rejected and there are some. */
  lemma {:induction false} ParseDocument(f: Features, before: bytes, l: Layout, after: bytes)
    requires Spaced(l) && Spelled(ValueOf(l)) && Spaces(before) && Spaces(after)
    ensures var v, r := ValueOf(l), Parse(f, before + Render(l) + after);
      var throws, rejects := Depth(v) > f.stackLimit || Overlong(v), f.rejectDupKeys && Repeats(v);
      if throws && rejects then !r.Accepted?
      else if throws then r == Threw
      else if rejects then r == Failed
      else if f.strictRoot && !v.Arr? && !v.Obj? then r == Failed
      else r == Accepted(Canon(v))
  {
    hide Render, ParseValue, Overlong, Repeats, Depth;
    RenderStarts(l);
    ParseLayout(f, l, after, 1);
    var x := Render(l) + after;
    assert x[0] == Render(l)[0];
    ParseSkips(f, before, x, 1);
    Assoc(before, Render(l), after);
    SkipLeading(after, []);
    assert after + [] == after;
  }
  /** No other byte is white space: a document that starts with a byte that is neither white space nor the start of
      a value is refused. */
  lemma {:induction false} StrangeStartFails(f: Features, before: bytes, c: byte, after: bytes)
    requires f.stackLimit >= 1 && Spaces(before) && c !in {32, 9, 13, 10}
    requires c !in {123, 91, 34, 45, 116, 102, 110} && !(48 <= c <= 57)
    ensures Parse(f, before + ([c] + after)) == Failed
  {
    hide Keyword, NumberEnd, StringEnd;
    NextSkips(before, [c] + after);
  }
}
