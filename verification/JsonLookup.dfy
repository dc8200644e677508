/** Looking a value up in a parsed object, by its kind and name: the linked nodes and the strings ended in the buffer
    give what the text says. */
module JsonLookup {
  import opened JsonText
  import opened JsonNodes

  predicate OfKind(v: Json, kind: Kind) {
    match v
    case Number(_) => kind == NumberKind
    case Str(_, _) => kind == StringKind
    case Bool(_) => kind == BoolKind
    case Null => kind == NullKind
    case Compound(isObject, _) => kind == if isObject then ObjectKind else ArrayKind
  }

  /** The text between these places. */
  function Between(raw: Text, at: int, len: int): string {
    if 0 <= at <= at + len <= |raw| then raw[at..at + len] else ""
  }

  /** The item is of that kind and has that name in the text. */
  predicate Answers(item: Item, raw: Text, kind: Kind, key: string) {
    OfKind(item.value, kind) && Between(raw, item.nameAt, item.nameLen) == key
  }

  /** Item i is the first one that answers; there is none if i is their number. */
  predicate First(items: seq<Item>, raw: Text, kind: Kind, key: string, i: int) {
    && 0 <= i <= |items| && (forall k :: 0 <= k < i ==> !Answers(items[k], raw, kind, key))
    && (i < |items| ==> Answers(items[i], raw, kind, key))
  }

  /** The place of the first item that answers, or their number. */
  function Where(items: seq<Item>, raw: Text, kind: Kind, key: string): (i: int)
    ensures First(items, raw, kind, key, i)
  {
    if items == [] || Answers(items[0], raw, kind, key) then 0
    else
      var i := 1 + Where(items[1..], raw, kind, key);
      assert forall k :: 1 <= k < i ==> items[k] == items[1..][k - 1];
      i
  }

  /** A parsed object with its buffer. */
  ghost predicate Parsed(p: Parser, root: Node, items: seq<Item>)
    reads p, p.buf, root`kind, root`data, root`child, root`kids, root`below, root.below
  {
    Shows(root, Compound(true, items)) && AllReadBack(Compound(true, items), p.raw, p.buf[..])
  }

  lemma Children(p: Parser, root: Node, items: seq<Item>)
    requires Parsed(p, root, items)
    ensures |root.kids| == |items| && root.child == if items == [] then null else root.kids[0]
  {
  }

  lemma Child(p: Parser, root: Node, items: seq<Item>, i: int)
    requires Parsed(p, root, items) && 0 <= i < |items|
    ensures |root.kids| == |items| && Shows(root.kids[i], items[i].value)
    ensures root.kids[i].next == if i + 1 < |items| then root.kids[i + 1] else null
    ensures CString(p.buf[..], root.kids[i].name) == Between(p.raw, items[i].nameAt, items[i].nameLen)
    ensures AllReadBack(items[i].value, p.raw, p.buf[..])
  {
    Children(p, root, items);
    NameInBuffer(items, i, p.raw, p.buf[..]);
    hide CString, AllReadBack, Between;
    FamilyHas(root, true, items, root.kids[|root.kids| - 1]);
    hide Shows, Parsed;
    ChildShows(root, items, i);
  }

  lemma NameInBuffer(items: seq<Item>, i: int, raw: Text, buf: string)
    requires 0 <= i < |items| && AllReadBack(Compound(true, items), raw, buf)
    ensures CString(buf, items[i].nameAt) == Between(raw, items[i].nameAt, items[i].nameLen)
    ensures AllReadBack(items[i].value, raw, buf)
  {
    hide CString;
    assert Compound(true, items).items == items;
    assert NameReadBack(true, items[i], raw, buf);
  }

  lemma ChildShows(root: Node, items: seq<Item>, i: int)
    requires root.kids != [] && 0 <= i < |items| && Has(root, true, items, root.kids[|root.kids| - 1])
    ensures |root.kids| == |items| && Shows(root.kids[i], items[i].value) && root.kids[i].name == items[i].nameAt
    ensures root.kids[i].next == if i + 1 < |items| then root.kids[i + 1] else null
  {
    hide Shows;
    assert Compound(true, items).items == items;
  }

  lemma KindShown(n: Node, v: Json, kind: Kind)
    requires Shows(n, v)
    ensures n.kind == kind <==> OfKind(v, kind)
  {
  }

  lemma Answering(item: Item, raw: Text, kind: Kind, key: string, n: Node, name: string)
    requires Shows(n, item.value) && name == Between(raw, item.nameAt, item.nameLen)
    ensures n.kind == kind && name == key <==> Answers(item, raw, kind, key)
  {
    KindShown(n, item.value, kind);
    hide Shows, Between, OfKind;
  }

  lemma FirstIs(items: seq<Item>, raw: Text, kind: Kind, key: string, i: int)
    requires 0 <= i <= |items| && (forall k :: 0 <= k < i ==> !Answers(items[k], raw, kind, key))
    requires i < |items| ==> Answers(items[i], raw, kind, key)
    ensures First(items, raw, kind, key, i) && i == Where(items, raw, kind, key)
  {
    var w := Where(items, raw, kind, key);
    assert !(w < i) && !(i < w);
  }

  /** Goes along the children to the first one of that kind and name. */
  method FindItem(p: Parser, root: Node, kind: Kind, key: string, ghost items: seq<Item>)
    returns (found: Node?)
    requires Parsed(p, root, items)
    ensures var i := Where(items, p.raw, kind, key);
            if i < |items| then
              found != null && Shows(found, items[i].value) && AllReadBack(items[i].value, p.raw, p.buf[..])
            else found == null
  {
    hide *;
    Children(p, root, items);
    found := root.child;
    ghost var i := 0;
    while found != null
      invariant 0 <= i <= |items| == |root.kids| && found == if i < |items| then root.kids[i] else null
      invariant forall k :: 0 <= k < i ==> !Answers(items[k], p.raw, kind, key)
      decreases |items| - i
    {
      Child(p, root, items, i);
      Answering(items[i], p.raw, kind, key, found, CString(p.buf[..], found.name));
      if found.kind == kind && CString(p.buf[..], found.name) == key {
        FirstIs(items, p.raw, kind, key, i);
        return;
      }
      found, i := found.next, i + 1;
    }
    FirstIs(items, p.raw, kind, key, i);
  }

  /** An int takes the 32 bits of the number. */
  method GetInt(p: Parser, root: Node, key: string, ghost items: seq<Item>) returns (ok: bool, value: int)
    requires Parsed(p, root, items)
    ensures var i := Where(items, p.raw, NumberKind, key);
            if i < |items| then
              ok && -0x8000_0000 <= value < 0x8000_0000 && (items[i].value.value - value) % 0x1_0000_0000 == 0
            else !ok
  {
    var found := FindItem(p, root, NumberKind, key, items);
    ok, value := found != null, 0;
    if ok {
      Shown(found, items[Where(items, p.raw, NumberKind, key)].value);
      value := found.data.value % 0x1_0000_0000;
      if value >= 0x8000_0000 {
        value := value - 0x1_0000_0000;
      }
    }
  }

  /** A truth value is 1 exactly where the text says true. */
  method GetBool(p: Parser, root: Node, key: string, ghost items: seq<Item>) returns (ok: bool, value: int)
    requires Parsed(p, root, items)
    ensures var i := Where(items, p.raw, BoolKind, key);
            if i < |items| then
              ok && (value == 1 <==> items[i].value == Bool(true)) && (value == 0 <==> items[i].value == Bool(false))
            else !ok
  {
    var found := FindItem(p, root, BoolKind, key, items);
    ok, value := found != null, 0;
    if ok {
      Shown(found, items[Where(items, p.raw, BoolKind, key)].value);
      value := if found.data.value > 0 then 1 else 0;
    }
  }

  /** A string is the text between its quotes. */
  method GetString(p: Parser, root: Node, key: string, ghost items: seq<Item>) returns (ok: bool, value: string)
    requires Parsed(p, root, items)
    ensures var i := Where(items, p.raw, StringKind, key);
            if i < |items| then
              ok && value == Between(p.raw, items[i].value.at, items[i].value.len)
            else !ok
  {
    var found := FindItem(p, root, StringKind, key, items);
    ok, value := found != null, "";
    if ok {
      Shown(found, items[Where(items, p.raw, StringKind, key)].value);
      value := CString(p.buf[..], found.data.at);
    }
  }

  lemma Shown(n: Node, v: Json)
    requires Shows(n, v)
    ensures v.Number? ==> n.data == Value(v.value)
    ensures v.Str? ==> n.data == Place(v.at)
    ensures v.Bool? ==> n.data == Value(if v.flag then 1 else 0)
  {
  }

  /** The string of the first answering item of an object, or none. */
  ghost predicate Read(r: Result<Json>, text: Text, key: string, ok: bool, value: string) {
    if r.Done? && r.value.Compound? && r.value.isObject then
      (if ok then exists i :: ReadAt(r.value.items, text, key, i, value)
       else First(r.value.items, text, StringKind, key, |r.value.items|))
    else !ok
  }

  predicate ReadAt(items: seq<Item>, text: Text, key: string, i: int, value: string) {
    && First(items, text, StringKind, key, i) && i < |items|
    && items[i].value.Str? && value == Between(text, items[i].value.at, items[i].value.len)
  }

  /** A string of a whole configuration text: parsed and looked up, it is the text between the quotes behind the first
      name like it, and there is none if the text is no object or has no such name with a string. */
  method ReadString(text: Text, key: string) returns (ok: bool, value: string)
    requires |text| < 0xFFFF_FFFF
    ensures Read(ParseValue(text, 0), text, key, ok, value)
  {
    ok, value := false, "";
    var done, root, parser, end;
    ghost var v;
    done, root, parser, end, v := Parse(text);
    if done && root.kind == ObjectKind {
      assert v.Compound? && v.isObject;
      ok, value := GetString(parser, root, key, v.items);
      assert ok ==> ReadAt(v.items, text, key, Where(v.items, text, StringKind, key), value);
    } else if done {
      assert !(v.Compound? && v.isObject);
    }
  }
}
