/**
  BuiltStyledStreamWriter of src/net4cxx/common/configuration/json.{h,cpp}: a printer with an indentation
  string, a flag saying whether the cursor is already indented, and a cache of printed array elements.
  Whatever these are, what it prints is a layout of the value.
*/
module JsonWriter {
  import opened Basics
  import opened JsonText
  import opened JsonValues

  datatype CommentStyle = NoComments | All

  const RIGHT_MARGIN: int := 74

  function ColonSymbol(yaml: bool, indentation: bytes): bytes {
    if yaml then [COLON, 32] else if indentation == [] then [COLON] else [32, COLON, 32]
  }

  function BeforeColon(yaml: bool, indentation: bytes): bytes {
    if yaml || indentation == [] then [] else [32]
  }

  function AfterColon(yaml: bool, indentation: bytes): bytes {
    if !yaml && indentation == [] then [] else [32]
  }

  /** A value pushed whole: a scalar or an empty container. */
  predicate Flat(v: Json) {
    !(v.Arr? && v.items != []) && !(v.Obj? && v.members != [])
  }

  // ----- joining -----

  function ItemText(it: Item): bytes { it.lead + Render(it.body) + it.trail }

  /** Items, each followed by a comma. */
  function CommaItems(items: seq<Item>): bytes {
    if items == [] then [] else CommaItems(items[..|items| - 1]) + ItemText(items[|items| - 1]) + [COMMA]
  }

  function CommaEntries(es: seq<Entry>): bytes {
    if es == [] then [] else CommaEntries(es[..|es| - 1]) + RenderEntry(es[|es| - 1]) + [COMMA]
  }

  lemma {:induction false} CommaItemsFront(items: seq<Item>)
    requires items != []
    ensures CommaItems(items) == ItemText(items[0]) + [COMMA] + CommaItems(items[1..])
  {
    hide ItemText;
    if |items| == 1 {
      assert items[..0] == [] && items[1..] == [];
      assert CommaItems(items[..0]) == [];
    } else {
      var front, last := items[..|items| - 1], items[|items| - 1];
      CommaItemsFront(front);
      assert front[1..] == items[1..][..|items| - 2];
      assert items[1..][|items| - 2] == last;
      Assoc(ItemText(items[0]) + [COMMA], CommaItems(front[1..]), ItemText(last));
      Assoc(ItemText(items[0]) + [COMMA], CommaItems(front[1..]) + ItemText(last), [COMMA]);
    }
  }

  lemma {:induction false} CommaEntriesFront(es: seq<Entry>)
    requires es != []
    ensures CommaEntries(es) == RenderEntry(es[0]) + [COMMA] + CommaEntries(es[1..])
  {
    hide RenderEntry;
    if |es| == 1 {
      assert es[..0] == [] && es[1..] == [];
      assert CommaEntries(es[..0]) == [];
    } else {
      var front, last := es[..|es| - 1], es[|es| - 1];
      CommaEntriesFront(front);
      assert front[1..] == es[1..][..|es| - 2];
      assert es[1..][|es| - 2] == last;
      Assoc(RenderEntry(es[0]) + [COMMA], CommaEntries(front[1..]), RenderEntry(last));
      Assoc(RenderEntry(es[0]) + [COMMA], CommaEntries(front[1..]) + RenderEntry(last), [COMMA]);
    }
  }

  lemma {:induction false} JoinItems(front: seq<Item>, last: Item)
    ensures RenderItems(front + [last]) == CommaItems(front) + ItemText(last) + [RBRACKET]
  {
    hide ItemText, Render;
    var items := front + [last];
    if front == [] {
      assert CommaItems(front) == [];
      assert ItemText(last) == last.lead + Render(last.body) + last.trail by { ItemTextIs(last); }
    } else {
      assert items[1..] == front[1..] + [last];
      JoinItems(front[1..], last);
      CommaItemsFront(front);
      ItemTextIs(front[0]);
      Assoc(ItemText(front[0]) + [COMMA], CommaItems(front[1..]), ItemText(last));
      Assoc(ItemText(front[0]) + [COMMA], CommaItems(front[1..]) + ItemText(last), [RBRACKET]);
      Assoc(ItemText(front[0]), [COMMA], RenderItems(items[1..]));
    }
  }

  lemma {:induction false} ItemTextIs(it: Item)
    ensures ItemText(it) == it.lead + Render(it.body) + it.trail
  {
  }

  lemma {:induction false} JoinEntries(front: seq<Entry>, last: Entry)
    ensures RenderEntries(front + [last]) == CommaEntries(front) + RenderEntry(last) + [RBRACE]
  {
    hide RenderEntry;
    var es := front + [last];
    if front == [] {
      assert CommaEntries(front) == [];
    } else {
      assert es[1..] == front[1..] + [last];
      JoinEntries(front[1..], last);
      CommaEntriesFront(front);
      Assoc(RenderEntry(front[0]) + [COMMA], CommaEntries(front[1..]), RenderEntry(last));
      Assoc(RenderEntry(front[0]) + [COMMA], CommaEntries(front[1..]) + RenderEntry(last), [RBRACE]);
      Assoc(RenderEntry(front[0]), [COMMA], RenderEntries(es[1..]));
    }
  }

  // ----- closing a container -----

  ghost function CloseItems(items: seq<Item>, trail: bytes): Layout
    requires items != []
  {
    Array(items[..|items| - 1] + [items[|items| - 1].(trail := trail)])
  }

  ghost function CloseEntries(es: seq<Entry>, trail: bytes): Layout
    requires es != []
  {
    Object(es[..|es| - 1] + [es[|es| - 1].(trail := trail)])
  }

  lemma {:induction false} CloseItemsIs(items: seq<Item>, trail: bytes)
    requires items != [] && Spaced(Array(items)) && Spaces(trail)
    ensures Spaced(CloseItems(items, trail)) && ItemValues(CloseItems(items, trail).items) == ItemValues(items)
    ensures items[|items| - 1].trail == [] ==>
      Render(CloseItems(items, trail)) ==
        [LBRACKET] + (CommaItems(items[..|items| - 1]) + ItemText(items[|items| - 1]) + trail + [RBRACKET])
  {
    var front, last := items[..|items| - 1], items[|items| - 1];
    var r := CloseItems(items, trail).items;
    assert forall i :: 0 <= i < |items| ==> r[i].body == items[i].body;
    JoinItems(front, last.(trail := trail));
    if last.trail == [] {
      assert ItemText(last) + trail == ItemText(last.(trail := trail)) by {
        assert ItemText(last) == last.lead + Render(last.body);
      }
      Assoc(CommaItems(front), ItemText(last), trail);
    }
  }

  lemma {:induction false} CloseEntriesIs(es: seq<Entry>, trail: bytes)
    requires es != [] && Spaced(Object(es)) && Spaces(trail)
    ensures Spaced(CloseEntries(es, trail)) && EntryValues(CloseEntries(es, trail).entries) == EntryValues(es)
    ensures es[|es| - 1].trail == [] ==>
      Render(CloseEntries(es, trail)) ==
        [LBRACE] + (CommaEntries(es[..|es| - 1]) + RenderEntry(es[|es| - 1]) + trail + [RBRACE])
  {
    hide Render, Quoted, RenderEntry, RenderEntries, CommaEntries;
    var front, last := es[..|es| - 1], es[|es| - 1];
    var r := CloseEntries(es, trail).entries;
    assert forall i :: 0 <= i < |es| ==> r[i].body == es[i].body && r[i].key == es[i].key;
    JoinEntries(front, last.(trail := trail));
    if last.trail == [] {
      TrailLast(last, trail);
      Assoc(CommaEntries(front), RenderEntry(last), trail);
    }
    ObjectText(r);
  }

  lemma {:induction false} TrailLast(e: Entry, trail: bytes)
    requires e.trail == []
    ensures RenderEntry(e.(trail := trail)) == RenderEntry(e) + trail
  {
    hide Render, Quoted;
    var text := e.lead + Quoted(e.key) + e.beforeColon + [COLON] + e.afterColon + Render(e.body);
    assert text + [] == text;
  }

  lemma {:induction false} ObjectText(es: seq<Entry>)
    requires es != []
    ensures Render(Object(es)) == [LBRACE] + RenderEntries(es)
  {
  }

  lemma {:induction false} Reassoc(out: bytes, open: bytes, a: bytes, b: bytes, c: bytes, d: bytes)
    ensures out + open + a + b + c + d == out + (open + (a + b + c + d))
  {
  }

  lemma {:induction false} EntryText(out: bytes, e: Entry, after: bytes, w: bytes)
    requires e.afterColon == after + w && e.trail == []
    ensures out + e.lead + Quoted(e.key) + (e.beforeColon + [COLON] + after) + w + Render(e.body)
      == out + RenderEntry(e)
  {
    hide Render, Quoted;
    var q, r := Quoted(e.key), Render(e.body);
    assert out + e.lead + q + (e.beforeColon + [COLON] + after) + w + r
        == out + (e.lead + q + e.beforeColon + [COLON] + (after + w) + r);
    assert RenderEntry(e) == e.lead + q + e.beforeColon + [COLON] + (after + w) + r;
  }

  // ----- a container that is being printed -----

  /** Items with commas, the last of n items without one. */
  function ItemsPart(items: seq<Item>, n: nat): bytes {
    if items == [] || |items| < n then CommaItems(items)
    else CommaItems(items[..|items| - 1]) + ItemText(items[|items| - 1])
  }

  function EntriesPart(es: seq<Entry>, n: nat): bytes {
    if es == [] || |es| < n then CommaEntries(es)
    else CommaEntries(es[..|es| - 1]) + RenderEntry(es[|es| - 1])
  }

  lemma {:induction false} ItemsPartStep(items: seq<Item>, it: Item, n: nat, base: bytes)
    requires |items| < n
    ensures base + ItemsPart(items + [it], n)
      == base + ItemsPart(items, n) + ItemText(it) + if |items| + 1 < n then [COMMA] else []
  {
    hide ItemText, CommaItems;
    var a, b := CommaItems(items), ItemText(it);
    CommaItemsLast(items, it);
    assert (items + [it])[..|items|] == items;
    Assoc(base, a, b);
    Assoc(base, a + b, [COMMA]);
    assert base + a + b + [] == base + a + b;
  }

  lemma {:induction false} EntriesPartStep(es: seq<Entry>, e: Entry, n: nat, base: bytes)
    requires |es| < n
    ensures base + EntriesPart(es + [e], n)
      == base + EntriesPart(es, n) + RenderEntry(e) + if |es| + 1 < n then [COMMA] else []
  {
    hide RenderEntry, CommaEntries;
    var a, b := CommaEntries(es), RenderEntry(e);
    CommaEntriesLast(es, e);
    assert (es + [e])[..|es|] == es;
    Assoc(base, a, b);
    Assoc(base, a + b, [COMMA]);
    assert base + a + b + [] == base + a + b;
  }

  /** The first k items of an array are out, after base, each but the array's last with its comma. */
  ghost predicate ItemsOut(items: seq<Item>, vs: seq<Json>, k: nat, base: bytes, out: bytes) {
    && |items| == k <= |vs|
    && Spaced(Array(items)) && ItemValues(items) == vs[..k]
    && (k > 0 ==> items[k - 1].trail == [])
    && out == base + ItemsPart(items, |vs|)
  }

  ghost predicate EntriesOut(es: seq<Entry>, ms: seq<Member>, k: nat, base: bytes, out: bytes) {
    && |es| == k <= |ms|
    && Spaced(Object(es)) && EntryValues(es) == ms[..k]
    && (k > 0 ==> es[k - 1].trail == [])
    && out == base + EntriesPart(es, |ms|)
  }

  lemma {:induction false} SpacedItems(items: seq<Item>, it: Item)
    requires Spaced(Array(items)) && Spaces(it.lead) && it.trail == [] && Spaced(it.body)
    ensures Spaced(Array(items + [it]))
  {
    var all := items + [it];
    forall i | 0 <= i < |all|
      ensures Spaces(all[i].lead) && Spaces(all[i].trail) && Spaced(all[i].body)
    {
      if i < |items| { assert all[i] == items[i]; }
    }
  }

  lemma {:induction false} SpacedEntries(es: seq<Entry>, e: Entry)
    requires Spaced(Object(es)) && Spaced(e.body)
    requires Spaces(e.lead) && Spaces(e.beforeColon) && Spaces(e.afterColon) && e.trail == []
    ensures Spaced(Object(es + [e]))
  {
    var all := es + [e];
    forall i | 0 <= i < |all|
      ensures Spaces(all[i].lead) && Spaces(all[i].beforeColon) && Spaces(all[i].afterColon)
      ensures Spaces(all[i].trail) && Spaced(all[i].body)
    {
      if i < |es| { assert all[i] == es[i]; }
    }
  }

  lemma {:induction false} ItemsStep(items: seq<Item>, vs: seq<Json>, k: nat, base: bytes, out: bytes, it: Item)
    requires ItemsOut(items, vs, k, base, out) && k < |vs|
    requires Spaces(it.lead) && it.trail == [] && Spaced(it.body) && ValueOf(it.body) == vs[k]
    ensures ItemsOut(items + [it], vs, k + 1, base,
      out + ItemText(it) + if k + 1 < |vs| then [COMMA] else [])
  {
    hide ItemText, Render, Spaces, ItemsPart;
    assert ItemValues(items + [it]) == vs[..k + 1];
    SpacedItems(items, it);
    ItemsPartStep(items, it, |vs|, base);
  }

  lemma {:induction false} CommaItemsLast(items: seq<Item>, it: Item)
    ensures CommaItems(items + [it]) == CommaItems(items) + ItemText(it) + [COMMA]
  {
    hide ItemText;
    assert (items + [it])[..|items|] == items;
  }

  lemma {:induction false} CommaEntriesLast(es: seq<Entry>, e: Entry)
    ensures CommaEntries(es + [e]) == CommaEntries(es) + RenderEntry(e) + [COMMA]
  {
    hide RenderEntry;
    assert (es + [e])[..|es|] == es;
  }

  lemma {:induction false} EntriesStep(es: seq<Entry>, ms: seq<Member>, k: nat, base: bytes, out: bytes, e: Entry)
    requires EntriesOut(es, ms, k, base, out) && k < |ms|
    requires Spaces(e.lead) && Spaces(e.beforeColon) && Spaces(e.afterColon) && e.trail == []
    requires Spaced(e.body) && e.key == ms[k].key && ValueOf(e.body) == ms[k].value
    ensures EntriesOut(es + [e], ms, k + 1, base,
      out + RenderEntry(e) + if k + 1 < |ms| then [COMMA] else [])
  {
    hide RenderEntry, Spaces, EntriesPart;
    assert EntryValues(es + [e]) == ms[..k + 1];
    SpacedEntries(es, e);
    EntriesPartStep(es, e, |ms|, base);
  }

  lemma {:induction false} ItemsOutStart(vs: seq<Json>, base: bytes)
    ensures ItemsOut([], vs, 0, base, base)
  {
    assert base + [] == base && ItemValues([]) == [] == vs[..0];
  }

  lemma {:induction false} EntriesOutStart(ms: seq<Member>, base: bytes)
    ensures EntriesOut([], ms, 0, base, base)
  {
    assert base + [] == base && EntryValues([]) == [] == ms[..0];
  }

  lemma {:induction false} PlainItem(out: bytes, it: Item)
    requires it.trail == []
    ensures out + it.lead + Render(it.body) == out + ItemText(it)
  {
    hide Render;
    assert it.lead + Render(it.body) + [] == it.lead + Render(it.body);
    Assoc(out, it.lead, Render(it.body));
  }

  lemma {:induction false} ItemsDone(items: seq<Item>, vs: seq<Json>, before: bytes, out: bytes, trail: bytes)
    requires vs != [] && ItemsOut(items, vs, |vs|, before + [LBRACKET], out) && Spaces(trail)
    ensures Spaced(CloseItems(items, trail)) && ValueOf(CloseItems(items, trail)) == Arr(vs)
    ensures out + trail + [RBRACKET] == before + Render(CloseItems(items, trail))
  {
    hide ItemText, Render, CommaItems;
    assert vs[..|vs|] == vs;
    CloseItemsIs(items, trail);
    var a, b := CommaItems(items[..|items| - 1]), ItemText(items[|items| - 1]);
    Reassoc(before, [LBRACKET], a, b, trail, [RBRACKET]);
    Assoc(before + [LBRACKET], a, b);
  }

  lemma {:induction false} EntriesDone(es: seq<Entry>, ms: seq<Member>, before: bytes, out: bytes, trail: bytes)
    requires ms != [] && EntriesOut(es, ms, |ms|, before + [LBRACE], out) && Spaces(trail)
    ensures Spaced(CloseEntries(es, trail)) && ValueOf(CloseEntries(es, trail)) == Obj(ms)
    ensures out + trail + [RBRACE] == before + Render(CloseEntries(es, trail))
  {
    hide RenderEntry, Render, CommaEntries;
    assert ms[..|ms|] == ms;
    CloseEntriesIs(es, trail);
    var a, b := CommaEntries(es[..|es| - 1]), RenderEntry(es[|es| - 1]);
    Reassoc(before, [LBRACE], a, b, trail, [RBRACE]);
    Assoc(before + [LBRACE], a, b);
  }

  // ----- the printer -----

  /** The cache holds the text of every item. */
  ghost predicate Cached(texts: seq<bytes>, layouts: seq<Layout>, items: seq<Json>) {
    && |texts| == |layouts| == |items|
    && forall i :: 0 <= i < |items| ==>
         texts[i] == Render(layouts[i]) && Spaced(layouts[i]) && ValueOf(layouts[i]) == items[i]
  }

  /** A key leads back to the value printed after it. */
  lemma {:induction false} MemberFound(members: seq<Member>, k: nat)
    requires Printable(Obj(members)) && k < |members|
    ensures Find(members, CStr(members[k].key)) == Some(members[k].value) && Printable(members[k].value)
  {
    FindMember(members, k);
  }

  lemma {:induction false} ColonParts(yaml: bool, indentation: bytes)
    ensures ColonSymbol(yaml, indentation) == BeforeColon(yaml, indentation) + [COLON] + AfterColon(yaml, indentation)
    ensures Spaces(BeforeColon(yaml, indentation)) && Spaces(AfterColon(yaml, indentation))
  {
  }

  class StyledStreamWriter {
    const indentation: bytes
    const style: CommentStyle
    const yaml: bool
    var out: bytes
    var childValues: seq<bytes>
    var indentString: bytes
    var addChildValues: bool
    var indented: bool

    constructor (indentation: bytes, style: CommentStyle, yaml: bool)
      requires Spaces(indentation)
      ensures Valid() && !addChildValues
      ensures this.indentation == indentation && this.style == style && this.yaml == yaml
    {
      this.indentation, this.style, this.yaml := indentation, style, yaml;
      out, childValues, indentString, addChildValues, indented := [], [], [], false, false;
    }

    ghost predicate Valid()
      reads this
    {
      && Spaces(indentation) && Spaces(indentString)
      && (style.All? ==> childValues == [] && !addChildValues)
    }

    method PushValue(text: bytes)
      requires Valid() && (addChildValues ==> !style.All?)
      modifies `out, `childValues
      ensures Valid()
      ensures out == if addChildValues then old(out) else old(out) + text
      ensures childValues == if addChildValues then old(childValues) + [text] else old(childValues)
    {
      if addChildValues {
        childValues := childValues + [text];
      } else {
        out := out + text;
      }
    }

    method WriteIndent() returns (ghost w: bytes)
      requires Valid()
      modifies `out
      ensures Spaces(w) && out == old(out) + w
    {
      w := [];
      if indentString != [] {
        w := [10] + indentString;
        out := out + ([10] + indentString);
      } else {
        assert out + [] == out;
      }
    }

    /** Goes to a fresh line unless the cursor is already indented. */
    method IndentOnce() returns (ghost w: bytes)
      requires Valid()
      modifies `out
      ensures Spaces(w) && out == old(out) + w
    {
      w := [];
      if !indented {
        w := WriteIndent();
      } else {
        assert out + [] == out;
      }
    }

    method WriteWithIndent(text: bytes) returns (ghost w: bytes)
      requires Valid()
      modifies `out, `indented
      ensures Spaces(w) && out == old(out) + w + text && !indented
    {
      w := IndentOnce();
      out := out + text;
      indented := false;
    }

    method Indent()
      requires Valid()
      modifies `indentString
      ensures indentString == old(indentString) + indentation && Valid()
    {
      indentString := indentString + indentation;
    }

    method Unindent()
      requires Valid() && |indentString| >= |indentation|
      modifies `indentString
      ensures indentString == old(indentString)[..|old(indentString)| - |indentation|] && Valid()
    {
      indentString := indentString[..|indentString| - |indentation|];
    }

    method Write(root: Json) returns (ghost w: bytes, ghost l: Layout)
      requires Valid() && Printable(root)
      modifies this
      ensures Spaces(w) && Spaced(l) && ValueOf(l) == root && out == w + Render(l)
    {
      out, addChildValues, indented, indentString := [], false, true, [];
      w, l := WriteValue(root);
      assert [] + w == w;
    }

    /** Prints a value, or pushes a flat one on the cache. */
    method WriteValue(v: Json) returns (ghost w: bytes, ghost l: Layout)
      requires Valid() && Printable(v) && (addChildValues ==> Flat(v) && !style.All?)
      modifies this
      ensures Valid() && addChildValues == old(addChildValues) && indentString == old(indentString)
      ensures Spaces(w) && Spaced(l) && ValueOf(l) == v
      ensures old(addChildValues) ==> out == old(out) && childValues == old(childValues) + [Render(l)]
      ensures !old(addChildValues) ==> out == old(out) + w + Render(l)
      decreases v, 5
    {
      w := [];
      match v {
        case Arr(items) =>
          w, l := WriteArrayValue(v);
        case Obj(members) =>
          w, l := WriteObjectValue(v);
        case Str(s) =>
          l := Leaf(v);
          var text := ValueToQuotedString(s);
          assert out + [] == out;
          PushValue(text);
        case _ =>
          l := Leaf(v);
          assert out + [] == out;
          PushValue(LeafText(v));
      }
    }

    method WriteObjectValue(v: Json) returns (ghost w: bytes, ghost l: Layout)
      requires Valid() && v.Obj? && Printable(v) && (addChildValues ==> Flat(v) && !style.All?)
      modifies this
      ensures Valid() && addChildValues == old(addChildValues) && indentString == old(indentString)
      ensures Spaces(w) && Spaced(l) && ValueOf(l) == v
      ensures old(addChildValues) ==> out == old(out) && childValues == old(childValues) + [Render(l)]
      ensures !old(addChildValues) ==> out == old(out) + w + Render(l)
      decreases v, 4
    {
      if v.members == [] {
        w, l := [], Object([]);
        assert out + [] == out && Render(l) == [LBRACE, RBRACE];
        PushValue([LBRACE, RBRACE]);
        return;
      }
      w, l := WriteMembers(v);
    }

    method WriteComma(more: bool)
      requires Valid()
      modifies `out
      ensures out == old(out) + if more then [COMMA] else []
    {
      if more {
        out := out + [COMMA];
      } else {
        assert out + [] == out;
      }
    }

    method WriteMemberAndComma(v: Json, k: nat, ghost es: seq<Entry>, ghost base: bytes) returns (ghost e: Entry)
      requires Valid() && !addChildValues && v.Obj? && Printable(v) && k < |v.members|
      requires EntriesOut(es, v.members, k, base, out)
      modifies this
      ensures Valid() && !addChildValues && indentString == old(indentString)
      ensures EntriesOut(es + [e], v.members, k + 1, base, out)
      decreases v, 2
    {
      hide Render, RenderEntry, Spaced, EntriesOut, Printable, Spaces, ValueOf;
      e := WriteMember(v.members, k, v);
      EntriesStep(es, v.members, k, base, old(out), e);
      WriteComma(k + 1 != |v.members|);
    }

    method WriteMembers(v: Json) returns (ghost w: bytes, ghost l: Layout)
      requires Valid() && !addChildValues && v.Obj? && v.members != [] && Printable(v)
      modifies this
      ensures Valid() && !addChildValues && indentString == old(indentString)
      ensures Spaces(w) && Spaced(l) && ValueOf(l) == v && out == old(out) + w + Render(l)
      decreases v, 3
    {
      var members := v.members;
      hide Render, RenderEntry, CloseEntries, Spaced, EntriesOut, ColonSymbol, Printable, Spaces, ValueOf;
      w := WriteWithIndent([LBRACE]);
      Indent();
      ghost var before, base, es: seq<Entry> := old(out) + w, out, [];
      EntriesOutStart(members, base);
      var k := 0;
      while k < |members|
        invariant base == before + [LBRACE]
        invariant Valid() && !addChildValues && indentString == old(indentString) + indentation
        invariant |es| == k <= |members| && EntriesOut(es, members, k, base, out)
      {
        ghost var e := WriteMemberAndComma(v, k, es, base);
        es := es + [e];
        k := k + 1;
      }
      Unindent();
      ghost var out1 := out;
      ghost var trail := WriteWithIndent([RBRACE]);
      l := CloseEntries(es, trail);
      EntriesDone(es, members, before, out1, trail);
    }

    method WriteArrayValue(v: Json) returns (ghost w: bytes, ghost l: Layout)
      requires Valid() && v.Arr? && Printable(v) && (addChildValues ==> Flat(v) && !style.All?)
      modifies this
      ensures Valid() && addChildValues == old(addChildValues) && indentString == old(indentString)
      ensures Spaces(w) && Spaced(l) && ValueOf(l) == v
      ensures old(addChildValues) ==> out == old(out) && childValues == old(childValues) + [Render(l)]
      ensures !old(addChildValues) ==> out == old(out) + w + Render(l)
      decreases v, 2
    {
      if v.items == [] {
        w, l := [], Array([]);
        assert out + [] == out && Render(l) == [LBRACKET, RBRACKET];
        PushValue([LBRACKET, RBRACKET]);
        return;
      }
      var isMultiLine := style.All?;
      ghost var layouts := [];
      if !isMultiLine {
        isMultiLine, layouts := IsMultilineArray(v);
      }
      if isMultiLine {
        w, l := WriteMultiLine(v, layouts);
      } else {
        w := [];
        l := WriteSingleLine(v, layouts);
        assert old(out) + [] == old(out);
      }
    }

    /** Decides the form of an array. Unless a glance shows that it needs several lines, the text of every
        item, all of them flat, is cached. */
    method IsMultilineArray(v: Json) returns (isMultiLine: bool, ghost layouts: seq<Layout>)
      requires Valid() && !addChildValues && !style.All? && v.Arr? && v.items != [] && Printable(v)
      modifies this
      ensures Valid() && !addChildValues && out == old(out) && indentString == old(indentString)
      ensures childValues == [] || Cached(childValues, layouts, v.items)
      ensures !isMultiLine ==> Cached(childValues, layouts, v.items)
      decreases v, 1
    {
      var items := v.items;
      var size := |items|;
      isMultiLine := size * 3 >= RIGHT_MARGIN;
      childValues, layouts := [], [];
      var index := 0;
      while index < size && !isMultiLine
        invariant 0 <= index <= size
        invariant !isMultiLine ==> forall i :: 0 <= i < index ==> Flat(items[i])
      {
        isMultiLine := !Flat(items[index]);
        index := index + 1;
      }
      if !isMultiLine {
        addChildValues := true;
        var lineLength := 4 + (size - 1) * 2;
        for k := 0 to size
          invariant Valid() && addChildValues && out == old(out) && indentString == old(indentString)
          invariant Cached(childValues, layouts, items[..k])
        {
          assert items[k] in items;
          ghost var _, l := WriteValue(items[k]);
          layouts := layouts + [l];
          lineLength := lineLength + |childValues[k]|;
        }
        assert items[..size] == items;
        addChildValues := false;
        isMultiLine := lineLength >= RIGHT_MARGIN;
      }
    }

    method WriteMultiLine(v: Json, ghost layouts: seq<Layout>) returns (ghost w: bytes, ghost l: Layout)
      requires Valid() && !addChildValues && v.Arr? && v.items != [] && Printable(v)
      requires childValues == [] || Cached(childValues, layouts, v.items)
      modifies this
      ensures Valid() && !addChildValues && indentString == old(indentString)
      ensures Spaces(w) && Spaced(l) && ValueOf(l) == v && out == old(out) + w + Render(l)
      decreases v, 1
    {
      hide Render, CloseItems, ItemsOut, Spaced, ItemText;
      var size := |v.items|;
      w := WriteWithIndent([LBRACKET]);
      Indent();
      var hasChildValue := childValues != [];
      ghost var base, items: seq<Item> := out, [];
      ItemsOutStart(v.items, base);
      var index := 0;
      while index < size
        invariant 0 <= index <= size
        invariant Valid() && !addChildValues && indentString == old(indentString) + indentation
        invariant hasChildValue ==> Cached(childValues, layouts, v.items)
        invariant |items| == index && ItemsOut(items, v.items, index, base, out)
      {
        ghost var out0, lead, body := out, [], Leaf(Null);
        if hasChildValue {
          lead := WriteWithIndent(childValues[index]);
          body := layouts[index];
        } else {
          lead, body := WriteItem(v, index);
        }
        ghost var it := Item(lead, body, []);
        PlainItem(out0, it);
        ItemsStep(items, v.items, index, base, out0, it);
        items := items + [it];
        index := index + 1;
        assert out + [] == out;
        if index != size {
          out := out + [COMMA];
        }
      }
      Unindent();
      ghost var out1 := out;
      ghost var trail := WriteWithIndent([RBRACKET]);
      l := CloseItems(items, trail);
      ItemsDone(items, v.items, old(out) + w, out1, trail);
    }

    /** One item of an array over several lines. */
    method WriteItem(v: Json, index: nat) returns (ghost lead: bytes, ghost body: Layout)
      requires Valid() && !addChildValues && v.Arr? && index < |v.items| && Printable(v)
      modifies this
      ensures Valid() && !addChildValues && indentString == old(indentString)
      ensures Spaces(lead) && Spaced(body) && ValueOf(body) == v.items[index] && out == old(out) + lead + Render(body)
      decreases v, 0
    {
      lead := IndentOnce();
      indented := true;
      ghost var w;
      w, body := WriteValue(v.items[index]);
      Assoc(old(out), lead, w);
      lead := lead + w;
      indented := false;
    }

    method WriteSingleLine(v: Json, ghost layouts: seq<Layout>) returns (ghost l: Layout)
      requires Valid() && !addChildValues && v.Arr? && v.items != [] && Cached(childValues, layouts, v.items)
      modifies `out
      ensures Valid() && Spaced(l) && ValueOf(l) == v && out == old(out) + Render(l)
    {
      hide Render, CloseItems, ItemsOut, Spaced, ItemText;
      var size := |v.items|;
      out := out + [LBRACKET];
      ghost var base := out;
      var gap: bytes := if indentation == [] then [] else [32];
      out := out + gap;
      ghost var items: seq<Item>, sent := [], base;  // sent: out up to the last comma
      ItemsOutStart(v.items, base);
      for index := 0 to size
        invariant |items| == index && ItemsOut(items, v.items, index, base, sent)
        invariant index == 0 ==> out == sent + gap
        invariant 0 < index < size ==> sent == out + [COMMA]
        invariant index == size ==> out == sent
      {
        ghost var it := Item(gap, layouts[index], []);
        if index > 0 {
          Assoc(out, [COMMA], gap);
          out := out + ([COMMA] + gap);
        }
        out := out + childValues[index];
        PlainItem(sent, it);
        ItemsStep(items, v.items, index, base, sent, it);
        items := items + [it];
        assert out + [] == out;
        sent := if index + 1 < size then out + [COMMA] else out;
      }
      out := out + gap + [RBRACKET];
      l := CloseItems(items, gap);
      ItemsDone(items, v.items, old(out), sent, gap);
    }

    /** One key, the colon, and the value found under that key. */
    method WriteMember(members: seq<Member>, k: nat, ghost parent: Json) returns (ghost e: Entry)
      requires Valid() && !addChildValues && parent == Obj(members) && Printable(parent) && k < |members|
      modifies this
      ensures Valid() && !addChildValues && indentString == old(indentString)
      ensures Spaces(e.lead) && Spaces(e.beforeColon) && Spaces(e.afterColon) && e.trail == [] && Spaced(e.body)
      ensures e.key == members[k].key && ValueOf(e.body) == members[k].value
      ensures out == old(out) + RenderEntry(e)
      decreases parent, 1
    {
      var name := members[k].key;
      hide Printable, RenderEntry, Render, Quoted, Spaced, ValueOf, Find, CStr, ColonSymbol, BeforeColon, AfterColon;
      MemberFound(members, k);
      var childValue := Find(members, CStr(name)).value;
      var quoted := ValueToQuotedString(name);
      ghost var out0 := out;
      ghost var lead := WriteWithIndent(quoted);
      out := out + ColonSymbol(yaml, indentation);
      ghost var before, after := BeforeColon(yaml, indentation), AfterColon(yaml, indentation);
      ColonParts(yaml, indentation);
      ghost var w, l := WriteValue(childValue);
      e := Entry(lead, name, before, after + w, l, []);
      EntryText(out0, e, after, w);
    }
  }
}
