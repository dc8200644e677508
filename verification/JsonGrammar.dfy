/** The grammar the parser accepts, with every blank in its place, and what a document means. */
module JsonGrammar {
  import opened Decimals
  import opened JsonText

  datatype Doc =
    | Num(negative: bool, digits: string)
    | Quoted(chars: string)
    | Literal(value: Json)
    | Comp(isObject: bool, space: string, items: Docs)

  /** Items with the blanks around them; names and colons are empty in an array. */
  datatype Docs =
    | End
    | More(before: string, head: Head, doc: Doc, after: string, rest: Docs)

  datatype Head = Head(name: string, colonBefore: string, colonAfter: string)

  predicate AllBlank(s: string) {
    forall i :: 0 <= i < |s| ==> Space(s[i])
  }

  predicate Unquoted(s: string) {
    forall i :: 0 <= i < |s| ==> s[i] != '"'
  }

  predicate AllDigits(s: string) {
    forall i :: 0 <= i < |s| ==> 48 <= s[i] as int <= 57
  }

  predicate WellFormed(d: Doc) {
    match d
    case Num(_, digits) => digits != [] && AllDigits(digits)
    case Quoted(chars) => Unquoted(chars)
    case Literal(v) => v == Null || v == Bool(true) || v == Bool(false)
    case Comp(isObject, space, items) => AllBlank(space) && WellFormedItems(items, isObject)
  }

  predicate WellFormedItems(ds: Docs, isObject: bool) {
    match ds
    case End => true
    case More(before, head, doc, after, rest) =>
      && AllBlank(before) && AllBlank(after) && WellFormedHead(head, isObject)
      && WellFormed(doc) && WellFormedItems(rest, isObject)
  }

  predicate WellFormedHead(h: Head, isObject: bool) {
    if isObject then Unquoted(h.name) && AllBlank(h.colonBefore) && AllBlank(h.colonAfter)
    else h == Head("", "", "")
  }

  function Word(v: Json): string {
    if v == Null then "null" else if v == Bool(true) then "true" else "false"
  }

  function Opening(isObject: bool): char {
    if isObject then '{' else '['
  }

  function Closing(isObject: bool): char {
    if isObject then '}' else ']'
  }

  /** The text of a document. */
  function Show(d: Doc): (s: string)
    ensures WellFormed(d) ==> |s| > 0
  {
    match d
    case Num(negative, digits) => (if negative then "-" else "") + digits
    case Quoted(chars) => ['"'] + chars + ['"']
    case Literal(v) => Word(v)
    case Comp(isObject, space, items) =>
      [Opening(isObject)] + (if items.End? then space + [Closing(isObject)] else ShowItems(items, isObject))
  }

  function ShowHead(h: Head, isObject: bool): string {
    if isObject then ['"'] + h.name + ['"'] + (h.colonBefore + ([':'] + h.colonAfter)) else ""
  }

  function ShowItems(ds: Docs, isObject: bool): string
    decreases ds, 0
  {
    match ds
    case End => ""
    case More(before, head, doc, after, rest) =>
      before + (ShowHead(head, isObject) + (Show(doc) + (after + ShowRest(rest, isObject))))
  }

  function ShowRest(ds: Docs, isObject: bool): (s: string)
    ensures |s| > 0
    decreases ds, 1
  {
    if ds.End? then [Closing(isObject)] else [','] + ShowItems(ds, isObject)
  }

  /** What 32 bits keep of a number: itself, or its negative in two's complement; numbers too large become the largest
      one, whatever their sign. */
  function Kept(n: int, negative: bool): int {
    if n >= 0x1_0000_0000 then 0x1_0000_0000 - 1
    else if negative then (0x1_0000_0000 - n) % 0x1_0000_0000
    else n
  }

  lemma KeptIs(s: string, negative: bool)
    requires AllDigits(s)
    ensures Unsigned(DigitsValue(s), negative) == Kept(DigitsValue(s), negative)
  {
    DigitsCount(s);
  }

  lemma {:induction false} DigitsCount(s: string)
    requires AllDigits(s)
    ensures DigitsValue(s) >= 0
  {
    if s != [] {
      DigitsCount(s[..|s| - 1]);
    }
  }

  /** What a document that begins at position i means. */
  function Meaning(d: Doc, i: int): Json {
    match d
    case Num(negative, digits) => Number(Kept(DigitsValue(digits), negative))
    case Quoted(chars) => Str(i + 1, |chars|)
    case Literal(v) => v
    case Comp(isObject, space, items) => Compound(isObject, MeaningItems(items, isObject, i + 1))
  }

  function MeaningItems(ds: Docs, isObject: bool, i: int): seq<Item> {
    match ds
    case End => []
    case More(before, head, doc, after, rest) =>
      var t := i + |before|;
      var v := t + |ShowHead(head, isObject)|;
      [Item(if isObject then t + 1 else -1, |head.name|, Meaning(doc, v))]
      + MeaningItems(rest, isObject, v + |Show(doc)| + |after| + 1)
  }

  lemma SpellsSplit(text: Text, i: int, a: string, b: string)
    requires Spells(text, i, a + b)
    ensures Spells(text, i, a) && Spells(text, i + |a|, b)
  {
    var t := text[i..i + |a + b|];
    assert a == t[..|a|] == text[i..i + |a|];
    assert b == t[|a|..] == text[i + |a|..i + |a| + |b|];
  }

  lemma SpellsJoin(text: Text, i: int, a: string, b: string)
    requires Spells(text, i, a) && Spells(text, i + |a|, b)
    ensures Spells(text, i, a + b)
  {
    assert text[i..i + |a| + |b|] == text[i..i + |a|] + text[i + |a|..i + |a| + |b|];
  }

  lemma SpellsFirst(text: Text, i: int, s: string)
    requires Spells(text, i, s) && s != []
    ensures At(text, i) == s[0]
  {
    assert text[i..i + |s|][0] == s[0];
  }

  lemma SpellsAt(text: Text, i: int, s: string, k: int)
    requires Spells(text, i, s) && 0 <= k < |s|
    ensures At(text, i + k) == s[k]
  {
    assert text[i..i + |s|][k] == s[k];
  }

  lemma SkipOver(text: Text, i: int, w: string)
    requires Spells(text, i, w) && AllBlank(w) && !Blank(At(text, i + |w|))
    ensures Skip(text, i) == i + |w|
  {
    var p := Skip(text, i);
    if p < i + |w| {
      SpellsAt(text, i, w, p - i);
    }
  }

  lemma QuoteAfter(text: Text, i: int, s: string)
    requires Spells(text, i, s) && Unquoted(s) && At(text, i + |s|) == '"'
    ensures FindQuote(text, i) == i + |s|
  {
    var q := FindQuote(text, i);
    if q < i + |s| {
      SpellsAt(text, i, s, q - i);
    }
  }

  lemma DigitsAfter(text: Text, i: int, s: string)
    requires Spells(text, i, s) && AllDigits(s) && !Digit(At(text, i + |s|))
    ensures DigitsEnd(text, i) == i + |s|
  {
    var e := DigitsEnd(text, i);
    if e < i + |s| {
      SpellsAt(text, i, s, e - i);
    }
  }

  lemma ShowStarts(d: Doc)
    requires WellFormed(d)
    ensures !Blank(Show(d)[0])
  {
  }

  lemma StringComplete(text: Text, p: int, chars: string)
    requires Unquoted(chars) && Spells(text, p, ['"'] + chars + ['"'])
    ensures ParseString(text, p) == Done(Str(p + 1, |chars|), p + |chars| + 2)
  {
    SpellsFirst(text, p, ['"'] + chars + ['"']);
    SpellsSplit(text, p, ['"'] + chars, ['"']);
    SpellsSplit(text, p, ['"'], chars);
    SpellsFirst(text, p + 1 + |chars|, ['"']);
    QuoteAfter(text, p + 1, chars);
  }

  lemma NumberComplete(text: Text, p: int, negative: bool, digits: string)
    requires digits != [] && AllDigits(digits) && Spells(text, p, (if negative then "-" else "") + digits)
    requires !Digit(At(text, p + |digits| + if negative then 1 else 0))
    ensures ParseNumber(text, p)
         == Done(Number(Unsigned(DigitsValue(digits), negative)), p + |digits| + if negative then 1 else 0)
  {
    hide *;
    var from := if negative then p + 1 else p;
    var sign := if negative then "-" else "";
    SpellsSplit(text, p, sign, digits);
    if negative {
      SpellsFirst(text, p, sign);
    } else {
      SpellsFirst(text, p, digits);
      DigitFirst(digits);
    }
    DigitsAfter(text, from, digits);
    SpellsIs(text, from, digits);
    NumberAt(text, p, negative, from, from + |digits|);
  }

  lemma DigitFirst(s: string)
    requires s != [] && AllDigits(s)
    ensures s[0] != '-'
  {
  }

  lemma SpellsIs(text: Text, i: int, s: string)
    requires Spells(text, i, s)
    ensures i + |s| <= |text| && text[i..i + |s|] == s
  {
  }

  lemma NumberAt(text: Text, p: int, negative: bool, from: int, e: int)
    requires (At(text, p) == '-') == negative && from == if negative then p + 1 else p
    requires DigitsEnd(text, from) == e > from
    ensures ParseNumber(text, p) == Done(Number(Unsigned(DigitsValue(text[from..e]), negative)), e)
  {
    hide DigitsValue, Unsigned;
  }

  /** How a value that begins at p is told by its first byte. */
  lemma Dispatch(text: Text, p: int)
    ensures At(text, p) == '"' ==> ParseValue(text, p) == ParseString(text, p)
    ensures At(text, p) == '[' || At(text, p) == '{' ==> ParseValue(text, p) == ParseCompound(text, p)
    ensures At(text, p) == '-' || Digit(At(text, p)) ==> ParseValue(text, p) == ParseNumber(text, p)
  {
    hide ParseString, ParseCompound, ParseNumber, Spells;
  }

  lemma LiteralComplete(text: Text, p: int, v: Json)
    requires v == Null || v == Bool(true) || v == Bool(false)
    requires Spells(text, p, Word(v))
    ensures ParseValue(text, p) == Done(v, p + |Word(v)|)
  {
    SpellsFirst(text, p, Word(v));
    hide ParseString, ParseCompound, ParseNumber, Spells;
  }

  lemma SkippedValue(text: Text, i: int, p: int)
    requires Skip(text, i) == p
    ensures ParseValue(text, i) == ParseValue(text, p)
  {
    hide ParseString, ParseCompound, ParseNumber, Spells;
  }

  /** A document is parsed to exactly its meaning, with the end just past it. */
  lemma {:induction false} Complete(text: Text, i: int, w: string, d: Doc)
    requires WellFormed(d) && AllBlank(w) && Spells(text, i, w + Show(d))
    requires d.Num? ==> !Digit(At(text, i + |w| + |Show(d)|))
    ensures ParseValue(text, i) == Done(Meaning(d, i + |w|), i + |w| + |Show(d)|)
    decreases d, 1
  {
    hide *;
    var p := i + |w|;
    SpellsSplit(text, i, w, Show(d));
    SpellsFirst(text, p, Show(d));
    ShowStarts(d);
    SkipOver(text, i, w);
    CompleteAt(text, p, d);
    SkippedValue(text, i, p);
  }

  lemma {:induction false} CompleteAt(text: Text, p: int, d: Doc)
    requires WellFormed(d) && Spells(text, p, Show(d))
    requires d.Num? ==> !Digit(At(text, p + |Show(d)|))
    ensures ParseValue(text, p) == Done(Meaning(d, p), p + |Show(d)|)
    decreases d, 0
  {
    hide Spells, ParseValue, ParseString, ParseNumber, ParseCompound, DigitsValue, Unsigned, Kept;
    hide WellFormedItems, MeaningItems, ShowItems, Skip;
    SpellsFirst(text, p, Show(d));
    Dispatch(text, p);
    match d
    case Num(negative, digits) =>
      NumberComplete(text, p, negative, digits);
      KeptIs(digits, negative);
    case Quoted(chars) =>
      StringComplete(text, p, chars);
    case Literal(v) =>
      LiteralComplete(text, p, v);
    case Comp(isObject, space, items) =>
      CompoundComplete(text, p, isObject, space, items);
  }

  lemma {:induction false} CompoundComplete(text: Text, p: int, isObject: bool, space: string, items: Docs)
    requires AllBlank(space) && WellFormedItems(items, isObject)
    requires Spells(text, p,
                    [Opening(isObject)]
                    + (if items.End? then space + [Close(isObject)] else ShowItems(items, isObject)))
    ensures ParseCompound(text, p)
         == Done(Compound(isObject, MeaningItems(items, isObject, p + 1)),
                 p + 1 + if items.End? then |space| + 1 else |ShowItems(items, isObject)|)
    decreases items, 2
  {
    hide Spells, ParseItems, Skip, ShowItems, WellFormedItems, AllBlank;
    var inside := if items.End? then space + [Close(isObject)] else ShowItems(items, isObject);
    SpellsSplit(text, p, [Opening(isObject)], inside);
    SpellsFirst(text, p, [Opening(isObject)]);
    if items.End? {
      SpellsSplit(text, p + 1, space, [Close(isObject)]);
      SpellsFirst(text, p + 1 + |space|, [Close(isObject)]);
      SkipOver(text, p + 1, space);
    } else {
      hide MeaningItems;
      ItemsComplete(text, p + 1, items, isObject);
    }
  }

  lemma LastItem(text: Text, t: int, isObject: bool, item: Item, e: int)
    requires ParseItem(text, t, isObject) == Done(item, e)
    requires At(text, Skip(text, e)) == Close(isObject)
    ensures ParseItems(text, t, isObject) == Done([item], Skip(text, e) + 1)
  {
    hide ParseItem, Skip;
  }

  lemma NextItem(text: Text, t: int, isObject: bool, item: Item, e: int, items: seq<Item>, end: int)
    requires ParseItem(text, t, isObject) == Done(item, e)
    requires At(text, Skip(text, e)) == ','
    requires ParseItems(text, Skip(text, Skip(text, e) + 1), isObject) == Done(items, end)
    ensures ParseItems(text, t, isObject) == Done([item] + items, end)
  {
    hide ParseItem, Skip;
  }

  /** One item: what begins at t is neither blank nor the closing bracket. */
  lemma {:induction false} ItemComplete(text: Text, t: int, h: Head, d: Doc, isObject: bool)
    requires WellFormedHead(h, isObject) && WellFormed(d)
    requires Spells(text, t, ShowHead(h, isObject)) && Spells(text, t + |ShowHead(h, isObject)|, Show(d))
    requires !Digit(At(text, t + |ShowHead(h, isObject)| + |Show(d)|))
    ensures !Blank(At(text, t)) && At(text, t) != Close(isObject)
    ensures ParseItem(text, t, isObject)
         == Done(Item(if isObject then t + 1 else -1, |h.name|, Meaning(d, t + |ShowHead(h, isObject)|)),
                 t + |ShowHead(h, isObject)| + |Show(d)|)
    decreases d, 3
  {
    hide Spells, ParseValue, ParseString, Show, ShowHead, Meaning, WellFormed, WellFormedHead, Skip;
    var v := t + |ShowHead(h, isObject)|;
    CompleteAt(text, v, d);
    StartsItem(text, v, d);
    if isObject {
      MemberHead(text, t, h, v);
    } else {
      NoHead(h);
    }
  }

  lemma NoHead(h: Head)
    requires WellFormedHead(h, false)
    ensures |ShowHead(h, false)| == 0 && |h.name| == 0
  {
  }

  /** A name and its colon are read up to the value. */
  lemma MemberHead(text: Text, t: int, h: Head, v: int)
    requires WellFormedHead(h, true) && Spells(text, t, ShowHead(h, true)) && v == t + |ShowHead(h, true)|
    requires !Blank(At(text, v))
    ensures At(text, t) == '"' && ParseString(text, t) == Done(Str(t + 1, |h.name|), t + |h.name| + 2)
    ensures var colon := Skip(text, t + |h.name| + 2);
            At(text, colon) == ':' && Skip(text, colon + 1) == v
  {
    hide Spells, ParseString, Skip, AllBlank, Unquoted;
    var colon := h.colonBefore + ([':'] + h.colonAfter);
    SpellsSplit(text, t, ['"'] + h.name + ['"'], colon);
    StringComplete(text, t, h.name);
    SpellsFirst(text, t, ['"'] + h.name + ['"']);
    var c := t + |h.name| + 2;
    SpellsSplit(text, c, h.colonBefore, [':'] + h.colonAfter);
    SpellsSplit(text, c + |h.colonBefore|, [':'], h.colonAfter);
    SpellsFirst(text, c + |h.colonBefore|, [':']);
    SkipOver(text, c, h.colonBefore);
    SkipOver(text, c + |h.colonBefore| + 1, h.colonAfter);
  }

  lemma StartsItem(text: Text, p: int, d: Doc)
    requires WellFormed(d) && Spells(text, p, Show(d))
    ensures !Blank(At(text, p)) && At(text, p) !in "]},"
  {
    SpellsFirst(text, p, Show(d));
    hide Spells, WellFormedItems, ShowItems;
  }

  /** The parts of a list of items, and where they are. */
  lemma ItemsParts(text: Text, i: int, ds: Docs, isObject: bool, t: int, v: int, e: int, u: int)
    requires ds.More? && WellFormedItems(ds, isObject) && Spells(text, i, ShowItems(ds, isObject))
    requires t == i + |ds.before| && v == t + |ShowHead(ds.head, isObject)|
    requires e == v + |Show(ds.doc)| && u == e + |ds.after|
    ensures Spells(text, i, ds.before) && Spells(text, t, ShowHead(ds.head, isObject)) && Spells(text, v, Show(ds.doc))
    ensures Spells(text, e, ds.after) && Spells(text, u, ShowRest(ds.rest, isObject))
    ensures i + |ShowItems(ds, isObject)| == u + |ShowRest(ds.rest, isObject)|
  {
    hide Spells, Show, WellFormed, WellFormedHead, ShowHead, ShowRest;
    var head, doc, rest := ShowHead(ds.head, isObject), Show(ds.doc), ShowRest(ds.rest, isObject);
    SpellsSplit(text, i, ds.before, head + (doc + (ds.after + rest)));
    SpellsSplit(text, t, head, doc + (ds.after + rest));
    SpellsSplit(text, v, doc, ds.after + rest);
    SpellsSplit(text, e, ds.after, rest);
  }

  lemma MeaningUnfold(ds: Docs, isObject: bool, i: int, item: Item, next: int)
    requires ds.More? && WellFormedItems(ds, isObject)
    requires var v := i + |ds.before| + |ShowHead(ds.head, isObject)|;
             && next == v + |Show(ds.doc)| + |ds.after| + 1
             && item == Item(if isObject then i + |ds.before| + 1 else -1, |ds.head.name|, Meaning(ds.doc, v))
    ensures MeaningItems(ds, isObject, i) == [item] + MeaningItems(ds.rest, isObject, next)
    ensures ds.rest.End? ==> MeaningItems(ds, isObject, i) == [item]
  {
    hide Show, ShowHead, Meaning, WellFormed;
  }

  lemma ItemsWellFormed(ds: Docs, isObject: bool)
    requires ds.More? && WellFormedItems(ds, isObject)
    ensures AllBlank(ds.before) && WellFormedHead(ds.head, isObject) && WellFormed(ds.doc)
    ensures AllBlank(ds.after) && WellFormedItems(ds.rest, isObject)
  {
  }

  /** The first item is parsed to its meaning, and then a comma or the closing bracket is found. */
  lemma {:induction false} FirstComplete(text: Text, i: int, ds: Docs, isObject: bool, t: int, v: int, e: int, u: int)
    requires ds.More? && WellFormedItems(ds, isObject) && Spells(text, i, ShowItems(ds, isObject))
    requires t == i + |ds.before| && v == t + |ShowHead(ds.head, isObject)|
    requires e == v + |Show(ds.doc)| && u == e + |ds.after|
    ensures Skip(text, i) == t && At(text, t) != Close(isObject)
    ensures ParseItem(text, t, isObject)
         == Done(Item(if isObject then t + 1 else -1, |ds.head.name|, Meaning(ds.doc, v)), e)
    ensures Skip(text, e) == u && At(text, u) == if ds.rest.End? then Close(isObject) else ','
    decreases ds, 0
  {
    hide *;
    ItemsWellFormed(ds, isObject);
    ItemsParts(text, i, ds, isObject, t, v, e, u);
    AfterItem(text, e, ds.after, ShowRest(ds.rest, isObject), isObject, ds.rest);
    ItemComplete(text, t, ds.head, ds.doc, isObject);
    SkipOver(text, i, ds.before);
    SpellsFirst(text, u, ShowRest(ds.rest, isObject));
  }

  lemma RestParts(text: Text, i: int, ds: Docs, isObject: bool, u: int)
    requires ds.More? && WellFormedItems(ds, isObject) && Spells(text, i, ShowItems(ds, isObject))
    requires u == i + |ds.before| + |ShowHead(ds.head, isObject)| + |Show(ds.doc)| + |ds.after|
    ensures WellFormedItems(ds.rest, isObject)
    ensures ds.rest.More? ==> Spells(text, u + 1, ShowItems(ds.rest, isObject))
    ensures i + |ShowItems(ds, isObject)| == u + 1 + if ds.rest.More? then |ShowItems(ds.rest, isObject)| else 0
  {
    hide *;
    var t := i + |ds.before|;
    var v := t + |ShowHead(ds.head, isObject)|;
    ItemsParts(text, i, ds, isObject, t, v, v + |Show(ds.doc)|, u);
    ItemsWellFormed(ds, isObject);
    RestIs(ds.rest, isObject);
    if ds.rest.More? {
      SpellsSplit(text, u, [','], ShowItems(ds.rest, isObject));
    }
  }

  lemma RestIs(ds: Docs, isObject: bool)
    ensures ShowRest(ds, isObject) == if ds.End? then [Close(isObject)] else [','] + ShowItems(ds, isObject)
  {
  }

  lemma {:induction false} ItemsComplete(text: Text, i: int, ds: Docs, isObject: bool)
    requires ds.More? && WellFormedItems(ds, isObject) && Spells(text, i, ShowItems(ds, isObject))
    ensures At(text, Skip(text, i)) != Close(isObject)
    ensures ParseItems(text, Skip(text, i), isObject)
         == Done(MeaningItems(ds, isObject, i), i + |ShowItems(ds, isObject)|)
    decreases ds, 1
  {
    hide *;
    var t := i + |ds.before|;
    var v := t + |ShowHead(ds.head, isObject)|;
    var e := v + |Show(ds.doc)|;
    var u := e + |ds.after|;
    var item := Item(if isObject then t + 1 else -1, |ds.head.name|, Meaning(ds.doc, v));
    FirstComplete(text, i, ds, isObject, t, v, e, u);
    RestParts(text, i, ds, isObject, u);
    MeaningUnfold(ds, isObject, i, item, u + 1);
    if ds.rest.End? {
      LastItem(text, t, isObject, item, e);
    } else {
      ItemsComplete(text, u + 1, ds.rest, isObject);
      NextItem(text, t, isObject, item, e, MeaningItems(ds.rest, isObject, u + 1),
               u + 1 + |ShowItems(ds.rest, isObject)|);
    }
  }

  /** What follows an item: blanks, and then a comma or the closing bracket. */
  lemma AfterItem(text: Text, e: int, after: string, rest: string, isObject: bool, ds: Docs)
    requires AllBlank(after) && Spells(text, e, after) && Spells(text, e + |after|, rest)
    requires WellFormedItems(ds, isObject) && rest == ShowRest(ds, isObject)
    ensures !Digit(At(text, e)) && Skip(text, e) == e + |after|
    ensures At(text, e + |after|) == if ds.End? then Close(isObject) else ','
  {
    SpellsFirst(text, e + |after|, rest);
    if after != [] {
      SpellsFirst(text, e, after);
    }
    hide Spells, WellFormedItems, ShowItems;
    SkipOver(text, e, after);
  }
}
