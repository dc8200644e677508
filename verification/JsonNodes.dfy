/** The parser over linked nodes: it scans the text and ends its strings in a copy of it. */
module JsonNodes {
  import opened Decimals
  import opened JsonText

  datatype Kind = NumberKind | StringKind | BoolKind | ArrayKind | ObjectKind | NullKind

  /** The union of a node: nothing yet, a number, or a place in the copied buffer. */
  datatype Data = Nothing | Value(value: int) | Place(at: int)

  class Node {
    var prev: Node?
    var next: Node?
    var child: Node?
    var kind: Kind
    var data: Data
    var name: int
    ghost var kids: seq<Node>
    ghost var below: set<Node>

    constructor ()
      ensures Empty() && prev == null && next == null
    {
      prev, next, child, kind, data, name, kids, below := null, null, null, NumberKind, Nothing, -1, [], {};
    }

    ghost predicate Empty()
      reads this
    {
      child == null && kids == [] && below == {} && name == -1
    }
  }

  /** The node stands for the value: its children are the linked list of its items, and no node is shared. */
  ghost predicate Shows(n: Node, v: Json)
    reads n`kind, n`data, n`child, n`kids, n`below, n.below
    decreases v, 1
  {
    n !in n.below &&
    match v
    case Number(x) => n.kind == NumberKind && n.data == Value(x)
    case Str(at, _) => n.kind == StringKind && n.data == Place(at)
    case Bool(b) => n.kind == BoolKind && n.data == Value(if b then 1 else 0)
    case Null => n.kind == NullKind
    case Compound(isObject, items) =>
      && n.kind == (if isObject then ObjectKind else ArrayKind)
      && |n.kids| == |items| && n.child == (if n.kids == [] then null else n.kids[0])
      && Separate(n.kids, n.below) && Linked(n.kids, n.below, null) && Match(n.kids, v, n.below)
  }

  /** Each child has the name of its item and shows its value. */
  ghost predicate Match(kids: seq<Node>, v: Json, below: set<Node>)
    requires v.Compound? && |kids| == |v.items|
    requires forall i :: 0 <= i < |kids| ==> kids[i] in below && kids[i].below <= below
    reads below
    decreases v, 0
  {
    forall i :: 0 <= i < |kids| ==> kids[i].name == v.items[i].nameAt && Shows(kids[i], v.items[i].value)
  }

  /** Children and what is below them are all different. */
  ghost predicate Separate(kids: seq<Node>, below: set<Node>)
    reads below`below
  {
    && (forall i :: 0 <= i < |kids| ==> kids[i] in below && kids[i].below <= below)
    && (forall i, j :: 0 <= i < |kids| && 0 <= j < |kids| ==> kids[i] !in kids[j].below)
    && (forall i, j :: 0 <= i < j < |kids| ==> kids[i] != kids[j] && kids[i].below !! kids[j].below)
  }

  /** The children are linked both ways, and the last one leads to `after`. */
  ghost predicate Linked(kids: seq<Node>, below: set<Node>, after: Node?)
    requires forall i :: 0 <= i < |kids| ==> kids[i] in below
    reads below`prev, below`next
  {
    forall i :: 0 <= i < |kids| ==> kids[i].prev == Before(kids, i) && kids[i].next == After(kids, i, after)
  }

  function Before(kids: seq<Node>, i: int): Node? {
    if 0 < i <= |kids| then kids[i - 1] else null
  }

  function After(kids: seq<Node>, i: int, after: Node?): Node? {
    if 0 <= i < |kids| - 1 then kids[i + 1] else after
  }

  /** The copied buffer: the text, with some quotes overwritten by NUL, and a NUL at its end. */
  ghost predicate Terminated(buf: string, raw: Text) {
    && |buf| == |raw| + 1 && buf[|raw|] == '\0'
    && forall k :: 0 <= k < |raw| ==> buf[k] == raw[k] || (raw[k] == '"' && buf[k] == '\0')
  }

  /** A string of the text is ended in the buffer. */
  predicate Ended(at: int, len: int, raw: Text, buf: string) {
    && 0 <= at && 0 <= len && at + len < |raw| && at + len < |buf| && buf[at + len] == '\0'
    && forall k :: at <= k < at + len ==> raw[k] != '"'
  }

  /** All the names and strings of a value are. */
  predicate AllEnded(v: Json, raw: Text, buf: string)
    decreases v
  {
    match v
    case Str(at, len) => Ended(at, len, raw, buf)
    case Compound(isObject, items) =>
      forall i :: 0 <= i < |items| ==>
        ItemEnded(isObject, items[i], raw, buf)
    case _ => true
  }

  predicate ItemEnded(isObject: bool, item: Item, raw: Text, buf: string)
    decreases item
  {
    (isObject ==> Ended(item.nameAt, item.nameLen, raw, buf)) && AllEnded(item.value, raw, buf)
  }

  /** No NUL of the buffer goes away. */
  predicate Keeps(before: string, after: string) {
    && |before| == |after|
    && forall k :: 0 <= k < |before| && before[k] == '\0' ==> after[k] == '\0'
  }

  lemma {:induction false} EndedKept(v: Json, raw: Text, before: string, after: string)
    requires AllEnded(v, raw, before) && Keeps(before, after)
    ensures AllEnded(v, raw, after)
    decreases v
  {
    if v.Compound? {
      forall i | 0 <= i < |v.items| ensures AllEnded(v.items[i].value, raw, after) {
        EndedKept(v.items[i].value, raw, before, after);
      }
    }
  }

  /** What the C library reads at a place of the buffer. */
  function CString(buf: string, at: int): string
    decreases |buf| - at
  {
    if 0 <= at < |buf| && buf[at] != '\0' then [buf[at]] + CString(buf, at + 1) else ""
  }

  /** A string ended in the buffer reads as the text between its quotes. */
  lemma {:induction false} ReadsBack(at: int, len: int, raw: Text, buf: string)
    requires Terminated(buf, raw) && Ended(at, len, raw, buf)
    ensures CString(buf, at) == raw[at..at + len]
    decreases len
  {
    if len > 0 {
      ReadsBack(at + 1, len - 1, raw, buf);
      assert buf[at] == raw[at] != '\0';
      assert raw[at..at + len] == [raw[at]] + raw[at + 1..at + len];
    }
  }

  /** A node with at least one item, the last of them shown by `last`. */
  ghost predicate Family(n: Node, isObject: bool, items: seq<Item>, last: Node)
    reads n`kind, n`data, n`child, n`kids, n`below, n.below
  {
    n.kids != [] && n.kids[|n.kids| - 1] == last && Shows(n, Compound(isObject, items))
  }

  /** One more child: apart from the others, linked behind the last. */
  lemma SeparateGrown(kids: seq<Node>, below: set<Node>, item: Node, grown: set<Node>)
    requires Separate(kids, below) && grown == below + {item} + item.below
    requires item !in below && item.below !! below && item !in item.below
    ensures Separate(kids + [item], grown)
  {
    var all := kids + [item];
    assert forall i :: 0 <= i < |kids| ==> all[i] == kids[i];
  }

  lemma LinkedGrown(kids: seq<Node>, below: set<Node>, item: Node, grown: set<Node>)
    requires kids != [] && Separate(kids, below) && Separate(kids + [item], grown)
    requires Linked(kids, below, item) && item.prev == kids[|kids| - 1]
    ensures Linked(kids + [item], grown, item.next)
  {
    var all := kids + [item];
    forall i | 0 <= i < |all| ensures all[i].prev == Before(all, i) && all[i].next == After(all, i, item.next) {
      if i < |kids| {
        assert all[i] == kids[i] && kids[i].prev == Before(kids, i) && kids[i].next == After(kids, i, item);
      }
    }
  }

  lemma MatchGrown(kids: seq<Node>, v: Json, below: set<Node>, item: Node, v': Json, grown: set<Node>)
    requires v.Compound? && v'.Compound? && v'.items != [] && v'.items[..|v'.items| - 1] == v.items
    requires |kids| == |v.items| && Separate(kids, below) && Match(kids, v, below)
    requires Separate(kids + [item], grown)
    requires item.name == v'.items[|v.items|].nameAt && Shows(item, v'.items[|v.items|].value)
    ensures Match(kids + [item], v', grown)
  {
    hide Shows, Separate;
    var all := kids + [item];
    assert forall i :: 0 <= i < |kids| ==> all[i] == kids[i] && v'.items[i] == v.items[i];
  }

  /** The last child leads to the new node; what the children show stays. */
  method SetNext(last: Node, item: Node, ghost kids: seq<Node>, ghost below: set<Node>, ghost v: Json)
    requires kids != [] && last == kids[|kids| - 1] && v.Compound? && |kids| == |v.items|
    requires Separate(kids, below) && Linked(kids, below, null) && Match(kids, v, below)
    modifies last`next
    ensures last.next == item
    ensures Separate(kids, below) && Linked(kids, below, item) && Match(kids, v, below)
  {
    hide Shows, Separate;
    LastApart(kids, below);
    assert forall i :: 0 <= i < |kids| ==> Shows(kids[i], v.items[i].value);
    last.next := item;
    forall i | 0 <= i < |kids| ensures kids[i].name == v.items[i].nameAt && Shows(kids[i], v.items[i].value) {
      assert last !in kids[i].below;
    }
    forall i | 0 <= i < |kids| ensures kids[i].prev == Before(kids, i) && kids[i].next == After(kids, i, item) {
      assert i < |kids| - 1 ==> kids[i] != last;
    }
  }

  /** Links a new node behind the last child. */
  method LinkItem(last: Node, item: Node, ghost kids: seq<Node>, ghost below: set<Node>, ghost v: Json)
    requires kids != [] && last == kids[|kids| - 1] && item !in below
    requires v.Compound? && |kids| == |v.items|
    requires Separate(kids, below) && Linked(kids, below, null) && Match(kids, v, below)
    modifies last`next, item`prev
    ensures last.next == item && item.prev == last
    ensures Separate(kids, below) && Linked(kids, below, item) && Match(kids, v, below)
  {
    LastApart(kids, below);
    hide Separate, Linked, Match;
    SetNext(last, item, kids, below, v);
    item.prev := last;
  }

  lemma LastApart(kids: seq<Node>, below: set<Node>)
    requires kids != [] && Separate(kids, below)
    ensures forall i :: 0 <= i < |kids| ==> kids[i] in below && kids[i].below <= below
    ensures forall i :: 0 <= i < |kids| ==> kids[|kids| - 1] !in kids[i].below
    ensures forall i :: 0 <= i < |kids| - 1 ==> kids[i] != kids[|kids| - 1]
  {
  }

  class Parser {
    const raw: Text
    const buf: array<char>

    ghost predicate Valid()
      reads this, buf
    {
      Terminated(buf[..], raw)
    }

    /** Copies the text, with a NUL behind it. */
    constructor (text: Text)
      ensures raw == text && Valid() && fresh(buf)
    {
      raw := text;
      buf := new char[|text| + 1];
      new;
      for i := 0 to |text|
        invariant forall k :: 0 <= k < i ==> buf[k] == text[k]
      {
        buf[i] := text[i];
      }
      buf[|text|] := '\0';
    }

    method SkipBlanks(i: int) returns (p: int)
      ensures p == Skip(raw, i) && !Space(At(raw, p))
      ensures i <= p && forall k :: i <= k < p ==> Space(At(raw, k))
    {
      p := i;
      while Blank(At(raw, p))
        invariant Skip(raw, p) == Skip(raw, i)
        decreases |raw| - p
      {
        p := p + 1;
      }
    }

    method ParseNumberInto(n: Node, p: int) returns (ok: bool, end: int, ghost v: Json)
      modifies n`kind, n`data
      ensures ParseNumber(raw, p) == if ok then Done(v, end) else Fail
      ensures ok ==> v.Number? && n.kind == NumberKind && n.data == Value(v.value)
    {
      var r := ParseNumber(raw, p);
      ok, end, v := r.Done?, p, Null;
      if ok {
        n.kind, n.data := NumberKind, Value(r.value.value);
        end, v := r.end, r.value;
      }
    }

    /** Puts the string's place into the node and ends it in the buffer. */
    method ParseStringInto(n: Node, p: int) returns (ok: bool, end: int, ghost v: Json)
      requires Valid()
      modifies n`kind, n`data, buf
      ensures Valid() && Keeps(old(buf[..]), buf[..])
      ensures ParseString(raw, p) == if ok then Done(v, end) else Fail
      ensures ok ==> v.Str? && n.kind == StringKind && n.data == Place(v.at) && Ended(v.at, v.len, raw, buf[..])
    {
      ok, end, v := false, p, Null;
      if At(raw, p) != '"' {
        return;
      }
      var q := FindQuote(raw, p + 1);
      if At(raw, q) != '"' {
        return;
      }
      ok, end, v := true, q + 1, Str(p + 1, q - (p + 1));
      n.kind, n.data := StringKind, Place(p + 1);
      buf[q] := '\0';
      assert forall k :: p + 1 <= k < q ==> raw[k] == At(raw, k);
    }

    method ParseItemInto(n: Node, t: int, isObject: bool) returns (ok: bool, end: int, ghost it: Item)
      requires Valid() && n.Empty()
      modifies n`kind, n`data, n`child, n`kids, n`below, n`name, buf
      ensures Valid() && Keeps(old(buf[..]), buf[..])
      ensures ParseItem(raw, t, isObject) == if ok then Done(it, end) else Fail
      ensures ok ==> n.name == it.nameAt && Shows(n, it.value) && fresh(n.below)
      ensures ok ==> ItemEnded(isObject, it, raw, buf[..])
      decreases |raw| - t, 1
    {
      if isObject {
        ok, end, it := ParseMemberInto(n, t);
      } else {
        hide Terminated, Keeps, Shows, AllEnded, ParseValue;
        ghost var v: Json;
        ok, end, v := ParseValueInto(n, t);
        it := Item(-1, 0, v);
      }
    }

    /** A name, a colon and a value. */
    method ParseMemberInto(n: Node, t: int) returns (ok: bool, end: int, ghost it: Item)
      requires Valid() && n.Empty()
      modifies n`kind, n`data, n`child, n`kids, n`below, n`name, buf
      ensures Valid() && Keeps(old(buf[..]), buf[..])
      ensures ParseItem(raw, t, true) == if ok then Done(it, end) else Fail
      ensures ok ==> n.name == it.nameAt && Shows(n, it.value) && fresh(n.below) && ItemEnded(true, it, raw, buf[..])
      decreases |raw| - t, 0
    {
      hide Terminated, Keeps, Shows, AllEnded, ParseValue, ParseString, Skip, Ended;
      ghost var before := buf[..];
      it := Item(0, 0, Null);
      ghost var name: Json;
      ok, end, name := ParseStringInto(n, t);
      if !ok {
        return;
      }
      n.name, n.data := n.data.at, Nothing;
      ghost var between := buf[..];
      var u := SkipBlanks(end);
      if At(raw, u) != ':' {
        return false, u, it;
      }
      var v := SkipBlanks(u + 1);
      ghost var value: Json;
      ok, end, value := ParseValueInto(n, v);
      it := Item(name.at, name.len, value);
      KeepsBoth(before, between, buf[..]);
      NameKept(name.at, name.len, raw, between, buf[..]);
    }

    method ParseValueInto(n: Node, i: int) returns (ok: bool, end: int, ghost v: Json)
      requires Valid() && n.child == null && n.kids == [] && n.below == {}
      modifies n`kind, n`data, n`child, n`kids, n`below, buf
      ensures Valid() && Keeps(old(buf[..]), buf[..])
      ensures ParseValue(raw, i) == if ok then Done(v, end) else Fail
      ensures ok ==> Shows(n, v) && fresh(n.below) && AllEnded(v, raw, buf[..])
      decreases |raw| - i, 0
    {
      var p := SkipBlanks(i);
      var c := At(raw, p);
      if c == 'n' && Spells(raw, p, "null") {
        n.kind := NullKind;
        return true, p + 4, Null;
      } else if c == 'f' && Spells(raw, p, "false") {
        n.kind, n.data := BoolKind, Value(0);
        return true, p + 5, Bool(false);
      } else if c == 't' && Spells(raw, p, "true") {
        n.kind, n.data := BoolKind, Value(1);
        return true, p + 4, Bool(true);
      } else if c == '"' {
        ok, end, v := ParseStringInto(n, p);
      } else if c == '[' || c == '{' {
        ok, end, v := ParseCompoundInto(n, p);
      } else if c == '-' || Digit(c) {
        ok, end, v := ParseNumberInto(n, p);
      } else {
        return false, p, Null;
      }
    }

    /** The array and the object parser: an item, and then more of them behind commas. */
    method ParseCompoundInto(n: Node, p: int) returns (ok: bool, end: int, ghost v: Json)
      requires Valid() && n.child == null && n.kids == [] && n.below == {}
      requires At(raw, p) == '[' || At(raw, p) == '{'
      modifies n`kind, n`data, n`child, n`kids, n`below, buf
      ensures Valid() && Keeps(old(buf[..]), buf[..])
      ensures ParseCompound(raw, p) == if ok then Done(v, end) else Fail
      ensures ok ==> Shows(n, v) && fresh(n.below) && AllEnded(v, raw, buf[..])
      decreases |raw| - p - 1, 4
    {
      var isObject := At(raw, p) == '{';
      n.kind := if isObject then ObjectKind else ArrayKind;
      v := Compound(isObject, []);
      var t := SkipBlanks(p + 1);
      if At(raw, t) == Close(isObject) {
        return true, t + 1, v;
      }
      hide Terminated, Keeps, Shows, AllEnded, ParseItems, Skip;
      ghost var items;
      ok, end, items := ParseItemsInto(n, t, isObject);
      v := Compound(isObject, items);
    }

    method ParseItemsInto(n: Node, t: int, isObject: bool) returns (ok: bool, end: int, ghost items: seq<Item>)
      requires Valid() && n.child == null && n.kids == [] && n.below == {}
      requires n.kind == if isObject then ObjectKind else ArrayKind
      modifies n`child, n`kids, n`below, buf
      ensures Valid() && Keeps(old(buf[..]), buf[..])
      ensures ParseItems(raw, t, isObject) == if ok then Done(items, end) else Fail
      ensures ok ==> Shows(n, Compound(isObject, items)) && fresh(n.below)
      ensures ok ==> AllEnded(Compound(isObject, items), raw, buf[..])
      decreases |raw| - t, 3
    {
      hide *;
      ghost var it: Item;
      var last: Node;
      ok, end, last, it := FirstItem(n, t, isObject);
      items := [it];
      ItemsUnfold(raw, t, isObject);
      if !ok {
        return;
      }
      var u := SkipBlanks(end);
      ghost var first := old(buf[..]);
      while At(raw, u) == ','
        invariant Valid() && Keeps(first, buf[..])
        invariant t <= u && Family(n, isObject, items, last) && fresh(n.below)
        invariant AllEnded(Compound(isObject, items), raw, buf[..])
        invariant ParseItems(raw, t, isObject) == Continued(raw, u, isObject, items)
        decreases |raw| - u
      {
        ContinuedNext(raw, u, isObject, items);
        FamilyShows(n, isObject, items, last);
        ghost var before := buf[..];
        var t' := SkipBlanks(u + 1);
        ok, end, last, it := NextItem(n, last, t', isObject, items);
        KeepsBoth(first, before, buf[..]);
        if !ok {
          return;
        }
        items := items + [it];
        u := SkipBlanks(end);
      }
      ok := At(raw, u) == Close(isObject);
      end := if ok then u + 1 else u;
      ContinuedEnd(raw, u, isObject, items);
      FamilyShows(n, isObject, items, last);
    }

    /** The first item becomes the child of the node. */
    method FirstItem(n: Node, t: int, isObject: bool) returns (ok: bool, end: int, item: Node, ghost it: Item)
      requires Valid() && n.child == null && n.kids == [] && n.below == {}
      requires n.kind == if isObject then ObjectKind else ArrayKind
      modifies n`child, n`kids, n`below, buf
      ensures Valid() && Keeps(old(buf[..]), buf[..])
      ensures ParseItem(raw, t, isObject) == if ok then Done(it, end) else Fail
      ensures ok ==> Family(n, isObject, [it], item) && fresh(n.below)
      ensures ok ==> AllEnded(Compound(isObject, [it]), raw, buf[..])
      decreases |raw| - t, 2
    {
      hide Terminated, Keeps, Ended, ParseItem;
      item := new Node();
      n.child := item;
      ok, end, it := ParseItemInto(item, t, isObject);
      if ok {
        n.kids, n.below := [item], {item} + item.below;
        OneChild(n, isObject, item, it);
      }
    }

    /** A further item is linked behind the last one. */
    method NextItem(n: Node, last: Node, t: int, isObject: bool, ghost items: seq<Item>)
      returns (ok: bool, end: int, item: Node, ghost it: Item)
      requires Valid() && Family(n, isObject, items, last)
      requires AllEnded(Compound(isObject, items), raw, buf[..])
      modifies last`next, n`kids, n`below, buf
      ensures Valid() && Keeps(old(buf[..]), buf[..])
      ensures ParseItem(raw, t, isObject) == if ok then Done(it, end) else Fail
      ensures ok ==> Family(n, isObject, items + [it], item) && fresh(n.below - old(n.below))
      ensures ok ==> AllEnded(Compound(isObject, items + [it]), raw, buf[..])
      decreases |raw| - t, 2
    {
      hide Terminated, AllEnded, ItemEnded, Ended, Keeps, ParseItem, Separate, Match, Linked, Family, Shows;
      FamilyHas(n, isObject, items, last);
      ghost var before := buf[..];
      ghost var kids, below, v := n.kids, n.below, Compound(isObject, items);
      item := new Node();
      LinkItem(last, item, kids, below, v);
      ok, end, it := ParseItemInto(item, t, isObject);
      if ok {
        ghost var grown := below + {item} + item.below;
        EndedMore(isObject, items, it, raw, before, buf[..]);
        SeparateGrown(kids, below, item, grown);
        LinkedGrown(kids, below, item, grown);
        MatchGrown(kids, v, below, item, Compound(isObject, items + [it]), grown);
        n.kids, n.below := kids + [item], grown;
        HasFamily(n, isObject, items + [it], item);
      }
    }
  }

  lemma KeepsBoth(a: string, b: string, c: string)
    requires Keeps(a, b) && Keeps(b, c)
    ensures Keeps(a, c)
  {
  }

  lemma NameKept(at: int, len: int, raw: Text, before: string, after: string)
    requires Ended(at, len, raw, before) && Keeps(before, after)
    ensures Ended(at, len, raw, after)
  {
  }

  /** A family in full. */
  ghost predicate Has(n: Node, isObject: bool, items: seq<Item>, last: Node)
    reads n`kind, n`child, n`kids, n`below, n.below
  {
    && n.kids != [] && n.kids[|n.kids| - 1] == last && |n.kids| == |items|
    && n !in n.below && n.child == n.kids[0] && n.kind == (if isObject then ObjectKind else ArrayKind)
    && Separate(n.kids, n.below) && Linked(n.kids, n.below, null) && Match(n.kids, Compound(isObject, items), n.below)
  }

  lemma FamilyHas(n: Node, isObject: bool, items: seq<Item>, last: Node)
    requires Family(n, isObject, items, last)
    ensures Has(n, isObject, items, last) && last in n.below
  {
    hide Match, Linked;
  }

  lemma HasFamily(n: Node, isObject: bool, items: seq<Item>, last: Node)
    requires Has(n, isObject, items, last)
    ensures Family(n, isObject, items, last)
  {
    hide Shows, Match, Linked, Separate;
    ShowsCompound(n, Compound(isObject, items));
  }

  lemma FamilyShows(n: Node, isObject: bool, items: seq<Item>, last: Node)
    requires Family(n, isObject, items, last)
    ensures Shows(n, Compound(isObject, items)) && last in n.below
  {
  }

  lemma OneChild(n: Node, isObject: bool, item: Node, it: Item)
    requires n.kids == [item] && n.below == {item} + item.below && n !in n.below && n.child == item
    requires n.kind == (if isObject then ObjectKind else ArrayKind)
    requires item.prev == null && item.next == null && item.name == it.nameAt && Shows(item, it.value)
    ensures Family(n, isObject, [it], item)
  {
    var v := Compound(isObject, [it]);
    assert item !in item.below;
    hide Shows;
    assert Separate(n.kids, n.below) && Linked(n.kids, n.below, null);
    assert Match(n.kids, v, n.below);
    ShowsCompound(n, v);
  }

  lemma ShowsCompound(n: Node, v: Json)
    requires v.Compound? && n !in n.below && n.kind == (if v.isObject then ObjectKind else ArrayKind)
    requires |n.kids| == |v.items| && n.child == (if n.kids == [] then null else n.kids[0])
    requires Separate(n.kids, n.below) && Linked(n.kids, n.below, null) && Match(n.kids, v, n.below)
    ensures Shows(n, v)
  {
  }

  lemma ItemsUnfold(text: Text, t: int, isObject: bool)
    ensures match ParseItem(text, t, isObject)
            case Fail => ParseItems(text, t, isObject) == Fail
            case Done(item, e) =>
              t < e && ParseItems(text, t, isObject) == Continued(text, Skip(text, e), isObject, [item])
  {
    hide ParseItem, Skip;
  }

  lemma ContinuedEnd(text: Text, u: int, isObject: bool, items: seq<Item>)
    requires At(text, u) != ','
    ensures Continued(text, u, isObject, items) == if At(text, u) == Close(isObject) then Done(items, u + 1) else Fail
  {
  }

  lemma EndedMore(isObject: bool, items: seq<Item>, item: Item, raw: Text, before: string, after: string)
    requires AllEnded(Compound(isObject, items), raw, before) && Keeps(before, after)
    requires ItemEnded(isObject, item, raw, after)
    ensures AllEnded(Compound(isObject, items + [item]), raw, after)
  {
    EndedKept(Compound(isObject, items), raw, before, after);
    hide ItemEnded;
    var v := Compound(isObject, items + [item]);
    forall i | 0 <= i < |v.items| ensures ItemEnded(isObject, v.items[i], raw, after) {
      if i < |items| {
        assert v.items[i] == Compound(isObject, items).items[i];
      }
    }
  }

  /** What parsing on gives when some items are done and u is behind the last of them. */
  function Continued(text: Text, u: int, isObject: bool, items: seq<Item>): Result<seq<Item>> {
    if At(text, u) == ',' then
      match ParseItems(text, Skip(text, u + 1), isObject)
      case Fail => Fail
      case Done(rest, end) => Done(items + rest, end)
    else if At(text, u) == Close(isObject) then Done(items, u + 1)
    else Fail
  }

  lemma ContinuedNext(text: Text, u: int, isObject: bool, items: seq<Item>)
    requires At(text, u) == ','
    ensures var t := Skip(text, u + 1);
            && t > u
            && match ParseItem(text, t, isObject)
               case Fail => Continued(text, u, isObject, items) == Fail
               case Done(item, e) =>
                 Continued(text, u, isObject, items) == Continued(text, Skip(text, e), isObject, items + [item])
  {
    hide ParseItem, Skip, ParseItems;
    var t := Skip(text, u + 1);
    ItemsUnfold(text, t, isObject);
    var r := ParseItem(text, t, isObject);
    if r.Done? {
      ContinuedPast(text, Skip(text, r.end), isObject, items, r.value);
    }
  }

  /** Items done earlier come first. */
  lemma ContinuedPast(text: Text, u: int, isObject: bool, items: seq<Item>, item: Item)
    ensures match Continued(text, u, isObject, [item])
            case Fail => Continued(text, u, isObject, items + [item]) == Fail
            case Done(rest, end) => Continued(text, u, isObject, items + [item]) == Done(items + rest, end)
  {
    hide ParseItem, ParseItems, Skip;
    if At(text, u) == ',' {
      var more := ParseItems(text, Skip(text, u + 1), isObject);
      if more.Done? {
        assert items + ([item] + more.value) == items + [item] + more.value;
      }
    }
  }

  /** Every name and string of a value, read from the buffer up to its first NUL, is the text between its quotes. */
  ghost predicate AllReadBack(v: Json, raw: Text, buf: string)
    decreases v
  {
    match v
    case Str(at, len) => 0 <= at <= at + len <= |raw| && CString(buf, at) == raw[at..at + len]
    case Compound(isObject, items) =>
      forall i :: 0 <= i < |items| ==>
        NameReadBack(isObject, items[i], raw, buf) && AllReadBack(items[i].value, raw, buf)
    case _ => true
  }

  ghost predicate NameReadBack(isObject: bool, item: Item, raw: Text, buf: string) {
    isObject ==>
      && 0 <= item.nameAt <= item.nameAt + item.nameLen <= |raw|
      && CString(buf, item.nameAt) == raw[item.nameAt..item.nameAt + item.nameLen]
  }

  lemma {:induction false} EndedReadsBack(v: Json, raw: Text, buf: string)
    requires Terminated(buf, raw) && AllEnded(v, raw, buf)
    ensures AllReadBack(v, raw, buf)
    decreases v
  {
    hide Terminated, CString;
    match v
    case Str(at, len) =>
      ReadsBack(at, len, raw, buf);
    case Compound(isObject, items) =>
      forall i | 0 <= i < |items|
        ensures NameReadBack(isObject, items[i], raw, buf) && AllReadBack(items[i].value, raw, buf)
      {
        EndedReadsBack(items[i].value, raw, buf);
        if isObject {
          ReadsBack(items[i].nameAt, items[i].nameLen, raw, buf);
        }
      }
    case _ =>
  }

  /** Parses a text into a fresh tree: it succeeds exactly when the grammar does, and then the tree shows the value. */
  method Parse(text: Text) returns (ok: bool, root: Node, parser: Parser, end: int, ghost v: Json)
    requires |text| < 0xFFFF_FFFF
    ensures fresh(root) && fresh(parser) && parser.raw == text && Terminated(parser.buf[..], text)
    ensures ParseValue(text, 0) == if ok then Done(v, end) else Fail
    ensures ok ==> Shows(root, v) && fresh(root.below) && AllReadBack(v, text, parser.buf[..])
  {
    hide Terminated, AllEnded, Shows, ParseValue, AllReadBack;
    root := new Node();
    parser := new Parser(text);
    ok, end, v := parser.ParseValueInto(root, 0);
    if ok {
      EndedReadsBack(v, text, parser.buf[..]);
    }
  }
}
