/** Everything the parser accepts is a document of the grammar, and the parsed value is its meaning. */
module JsonSound {
  import opened Decimals
  import opened JsonText
  import opened JsonGrammar

  lemma PieceSpells(text: Text, i: int, p: int)
    requires 0 <= i <= p <= |text|
    ensures Spells(text, i, text[i..p])
  {
  }

  lemma Skipped(text: Text, i: int) returns (w: string)
    requires 0 <= i <= |text|
    ensures AllBlank(w) && Spells(text, i, w) && Skip(text, i) == i + |w| <= |text|
  {
    w := text[i..Skip(text, i)];
    forall k | 0 <= k < |w| ensures Blank(w[k]) {
      assert w[k] == At(text, i + k);
    }
  }

  lemma CharSpells(text: Text, i: int, c: char)
    requires At(text, i) == c != '\0'
    ensures Spells(text, i, [c]) && 0 <= i < |text|
  {
  }

  lemma StringSound(text: Text, p: int) returns (chars: string)
    requires ParseString(text, p).Done?
    ensures Unquoted(chars) && Spells(text, p, ['"'] + chars + ['"'])
    ensures ParseString(text, p) == Done(Str(p + 1, |chars|), p + |chars| + 2)
  {
    var q := FindQuote(text, p + 1);
    CharSpells(text, p, '"');
    CharSpells(text, q, '"');
    chars := text[p + 1..q];
    forall k | 0 <= k < |chars| ensures chars[k] != '"' {
      assert chars[k] == At(text, p + 1 + k);
    }
    PieceSpells(text, p + 1, q);
    hide Spells, Unquoted;
    SpellsJoin(text, p, ['"'], chars);
    SpellsJoin(text, p, ['"'] + chars, ['"']);
  }

  lemma DigitsSound(text: Text, from: int, e: int)
    requires 0 <= from < DigitsEnd(text, from) == e <= |text|
    ensures AllDigits(text[from..e]) && Spells(text, from, text[from..e])
  {
    forall k | 0 <= k < e - from ensures Digit(text[from..e][k]) {
      assert text[from..e][k] == At(text, from + k);
    }
  }

  lemma NumberSound(text: Text, p: int, v: Json, e: int) returns (d: Doc)
    requires ParseNumber(text, p) == Done(v, e)
    ensures d.Num? && WellFormed(d) && Spells(text, p, Show(d)) && e == p + |Show(d)|
    ensures v == Meaning(d, p) && !Digit(At(text, e))
  {
    hide DigitsValue, Unsigned, Kept, AllDigits, Spells;
    var negative := At(text, p) == '-';
    var from := if negative then p + 1 else p;
    var digits := text[from..e];
    DigitsSound(text, from, e);
    d := Num(negative, digits);
    KeptIs(digits, negative);
    if negative {
      CharSpells(text, p, '-');
      assert ['-'] == "-";
      SpellsJoin(text, p, "-", digits);
    } else {
      assert "" + digits == digits;
    }
  }

  /** What a value that begins at p, and is not blank there, was parsed as. */
  lemma ValueCases(text: Text, p: int)
    requires ParseValue(text, p).Done? && !Blank(At(text, p))
    ensures || (At(text, p) == '"' && ParseValue(text, p) == ParseString(text, p))
            || ((At(text, p) == '[' || At(text, p) == '{') && ParseValue(text, p) == ParseCompound(text, p))
            || ParseValue(text, p) == ParseNumber(text, p)
            || (Spells(text, p, "null") && ParseValue(text, p) == Done(Null, p + 4))
            || (Spells(text, p, "false") && ParseValue(text, p) == Done(Bool(false), p + 5))
            || (Spells(text, p, "true") && ParseValue(text, p) == Done(Bool(true), p + 4))
  {
    hide ParseString, ParseCompound, ParseNumber, Spells;
  }

  lemma {:induction false} Sound(text: Text, i: int, v: Json, e: int) returns (w: string, d: Doc)
    requires 0 <= i <= |text| && ParseValue(text, i) == Done(v, e)
    ensures AllBlank(w) && WellFormed(d) && Spells(text, i, w + Show(d))
    ensures v == Meaning(d, i + |w|) && e == i + |w| + |Show(d)|
    ensures d.Num? ==> !Digit(At(text, e))
    decreases |text| - i, 0
  {
    hide *;
    w := Skipped(text, i);
    var p := i + |w|;
    SkippedValue(text, i, p);
    NotBlankAfter(text, i);
    d := SoundAt(text, p, v, e);
    SpellsJoin(text, i, w, Show(d));
  }

  lemma NotBlankAfter(text: Text, i: int)
    ensures !Blank(At(text, Skip(text, i)))
  {
  }

  lemma {:induction false} SoundAt(text: Text, p: int, v: Json, e: int) returns (d: Doc)
    requires 0 <= p <= |text| && !Blank(At(text, p)) && ParseValue(text, p) == Done(v, e)
    ensures WellFormed(d) && Spells(text, p, Show(d)) && v == Meaning(d, p) && e == p + |Show(d)|
    ensures d.Num? ==> !Digit(At(text, e))
    decreases |text| - p, -1
  {
    ValueCases(text, p);
    hide Spells, ParseValue, ParseString, ParseNumber, ParseCompound;
    hide WellFormedItems, MeaningItems, ShowItems, AllDigits, Unquoted;
    if At(text, p) == '"' && ParseValue(text, p) == ParseString(text, p) {
      var chars := StringSound(text, p);
      d := Quoted(chars);
    } else if (At(text, p) == '[' || At(text, p) == '{') && ParseValue(text, p) == ParseCompound(text, p) {
      d := CompoundSound(text, p, v, e);
    } else if ParseValue(text, p) == ParseNumber(text, p) {
      d := NumberSound(text, p, v, e);
    } else {
      d := Literal(v);
    }
  }

  lemma {:induction false} CompoundSound(text: Text, p: int, v: Json, e: int) returns (d: Doc)
    requires 0 <= p <= |text| && (At(text, p) == '[' || At(text, p) == '{')
    requires ParseCompound(text, p) == Done(v, e)
    ensures d.Comp? && WellFormed(d) && Spells(text, p, Show(d)) && v == Meaning(d, p) && e == p + |Show(d)|
    decreases |text| - p - 1, 3
  {
    hide Spells, ParseItems, Skip, WellFormedItems, MeaningItems, ShowItems, AllBlank;
    var isObject := At(text, p) == '{';
    CharSpells(text, p, Opening(isObject));
    var space := Skipped(text, p + 1);
    var t := p + 1 + |space|;
    if At(text, t) == Close(isObject) {
      CharSpells(text, t, Close(isObject));
      SpellsJoin(text, p + 1, space, [Close(isObject)]);
      SpellsJoin(text, p, [Opening(isObject)], space + [Close(isObject)]);
      d := Comp(isObject, space, End);
      NoItems(isObject, p + 1);
    } else {
      var items := ItemsSound(text, p + 1, isObject, v.items, e);
      SpellsJoin(text, p, [Opening(isObject)], ShowItems(items, isObject));
      d := Comp(isObject, space, items);
    }
  }

  lemma NoItems(isObject: bool, i: int)
    ensures WellFormedItems(End, isObject) && MeaningItems(End, isObject, i) == []
  {
  }

  lemma {:induction false} ItemSound(text: Text, t: int, isObject: bool, item: Item, e: int) returns (h: Head, d: Doc)
    requires 0 <= t <= |text| && !Blank(At(text, t)) && ParseItem(text, t, isObject) == Done(item, e)
    ensures WellFormedHead(h, isObject) && WellFormed(d)
    ensures Spells(text, t, ShowHead(h, isObject)) && Spells(text, t + |ShowHead(h, isObject)|, Show(d))
    ensures item == Item(if isObject then t + 1 else -1, |h.name|, Meaning(d, t + |ShowHead(h, isObject)|))
    ensures e == t + |ShowHead(h, isObject)| + |Show(d)|
    decreases |text| - t, 1
  {
    hide Spells, ParseValue, ParseString, Show, Meaning, WellFormed, Skip, AllBlank, Unquoted;
    if !isObject {
      h := Head("", "", "");
      d := SoundAt(text, t, item.value, e);
      PieceSpells(text, t, t);
      assert text[t..t] == "";
    } else {
      var name := StringSound(text, t);
      var c := t + |name| + 2;
      var before := Skipped(text, c);
      var colon := c + |before|;
      CharSpells(text, colon, ':');
      var after := Skipped(text, colon + 1);
      NotBlankAfter(text, colon + 1);
      d := SoundAt(text, colon + 1 + |after|, item.value, e);
      h := Head(name, before, after);
      SpellsJoin(text, colon, [':'], after);
      SpellsJoin(text, c, before, [':'] + after);
      SpellsJoin(text, t, ['"'] + name + ['"'], before + ([':'] + after));
    }
  }

  /** How a list of items was parsed: one item, and then either the closing bracket or more of them. */
  lemma ItemsCases(text: Text, t: int, isObject: bool, items: seq<Item>, end: int) returns (e: int)
    requires ParseItems(text, t, isObject) == Done(items, end)
    ensures items != [] && ParseItem(text, t, isObject) == Done(items[0], e) && t < e <= |text|
    ensures var u := Skip(text, e);
            if At(text, u) == ',' then ParseItems(text, Skip(text, u + 1), isObject) == Done(items[1..], end)
            else At(text, u) == Close(isObject) && items == [items[0]] && end == u + 1
  {
    hide ParseItem, Skip;
    e := ParseItem(text, t, isObject).end;
  }

  lemma {:induction false} ItemsSound(text: Text, i: int, isObject: bool, items: seq<Item>, end: int) returns (ds: Docs)
    requires 0 <= i <= |text| && ParseItems(text, Skip(text, i), isObject) == Done(items, end)
    ensures ds.More? && WellFormedItems(ds, isObject) && Spells(text, i, ShowItems(ds, isObject))
    ensures items == MeaningItems(ds, isObject, i) && end == i + |ShowItems(ds, isObject)|
    decreases |text| - i, 2
  {
    hide *;
    var before := Skipped(text, i);
    var t := i + |before|;
    NotBlankAfter(text, i);
    var e := ItemsCases(text, t, isObject, items, end);
    var h, d := ItemSound(text, t, isObject, items[0], e);
    var after := Skipped(text, e);
    var u := e + |after|;
    var rest := RestSound(text, u, isObject, items[1..], end);
    ds := More(before, h, d, after, rest);
    ItemsJoin(text, i, ds, isObject, t, t + |ShowHead(h, isObject)|, e, u);
    MeaningUnfold(ds, isObject, i, items[0], u + 1);
    assert items == [items[0]] + items[1..];
  }

  /** The comma and the items behind it, or the closing bracket. */
  lemma {:induction false} RestSound(text: Text, u: int, isObject: bool, items: seq<Item>, end: int) returns (ds: Docs)
    requires 0 <= u <= |text|
    requires if At(text, u) == ',' then ParseItems(text, Skip(text, u + 1), isObject) == Done(items, end)
             else At(text, u) == Close(isObject) && items == [] && end == u + 1
    ensures WellFormedItems(ds, isObject) && Spells(text, u, ShowRest(ds, isObject))
    ensures items == MeaningItems(ds, isObject, u + 1) && end == u + |ShowRest(ds, isObject)|
    decreases |text| - u, 0
  {
    hide Spells, WellFormedItems, MeaningItems, ShowItems, ParseItems, Skip;
    if At(text, u) == ',' {
      CharSpells(text, u, ',');
      ds := ItemsSound(text, u + 1, isObject, items, end);
      SpellsJoin(text, u, [','], ShowItems(ds, isObject));
    } else {
      CharSpells(text, u, Close(isObject));
      NoItems(isObject, u + 1);
      ds := End;
    }
  }

  lemma ItemsJoin(text: Text, i: int, ds: Docs, isObject: bool, t: int, v: int, e: int, u: int)
    requires ds.More? && AllBlank(ds.before) && WellFormedHead(ds.head, isObject) && WellFormed(ds.doc)
    requires AllBlank(ds.after) && WellFormedItems(ds.rest, isObject)
    requires t == i + |ds.before| && v == t + |ShowHead(ds.head, isObject)|
    requires e == v + |Show(ds.doc)| && u == e + |ds.after|
    requires Spells(text, i, ds.before) && Spells(text, t, ShowHead(ds.head, isObject)) && Spells(text, v, Show(ds.doc))
    requires Spells(text, e, ds.after) && Spells(text, u, ShowRest(ds.rest, isObject))
    ensures WellFormedItems(ds, isObject) && Spells(text, i, ShowItems(ds, isObject))
    ensures i + |ShowItems(ds, isObject)| == u + |ShowRest(ds.rest, isObject)|
  {
    hide Spells, Show, WellFormed, WellFormedHead, ShowHead, ShowRest, AllBlank;
    var head, doc, rest := ShowHead(ds.head, isObject), Show(ds.doc), ShowRest(ds.rest, isObject);
    SpellsJoin(text, e, ds.after, rest);
    SpellsJoin(text, v, doc, ds.after + rest);
    SpellsJoin(text, t, head, doc + (ds.after + rest));
    SpellsJoin(text, i, ds.before, head + (doc + (ds.after + rest)));
  }

  /** Parsing succeeds exactly on the documents of the grammar, with exactly their meaning and end. */
  lemma ParsesIff(text: Text, i: int, v: Json, e: int)
    requires 0 <= i <= |text|
    ensures ParseValue(text, i) == Done(v, e) <==>
            exists w, d :: Reads(text, i, w, d, v, e)
  {
    if ParseValue(text, i) == Done(v, e) {
      var w, d := Sound(text, i, v, e);
      assert Reads(text, i, w, d, v, e);
    }
    if w, d :| Reads(text, i, w, d, v, e) {
      Complete(text, i, w, d);
    }
  }

  /** From i on the text is blanks w and document d, which ends at e and means v. */
  ghost predicate Reads(text: Text, i: int, w: string, d: Doc, v: Json, e: int) {
    && AllBlank(w) && WellFormed(d) && Spells(text, i, w + Show(d))
    && (d.Num? ==> !(48 <= At(text, e) as int <= 57))
    && v == Meaning(d, i + |w|) && e == i + |w| + |Show(d)|
  }
}
