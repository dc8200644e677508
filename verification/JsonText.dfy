/** JSON texts as the configuration parser reads them: bytes, one char each, up to the first NUL. */
module JsonText {
  import opened Decimals

  type Text = s: string | forall i :: 0 <= i < |s| ==> '\0' < s[i] < '\U{100}'

  /** White space: the C char is signed, so bytes from 128 on compare below 33. */
  predicate Blank(c: char) {
    '\0' < c <= ' ' || '\U{80}' <= c < '\U{100}'
  }

  /** A byte as a C char, which is signed. */
  function Signed(c: char): int {
    if c as int < 128 then c as int else c as int - 256
  }

  /** White space: every byte but NUL that compares below 33. */
  predicate Space(c: char) {
    c as int < 256 && c as int != 0 && Signed(c) <= 32
  }

  /** The byte at a position; NUL behind the end. */
  function At(text: Text, i: int): char {
    if 0 <= i < |text| then text[i] else '\0'
  }

  /** Parsed values; strings are named by their position in the text. */
  datatype Json =
    | Number(value: int)
    | Str(at: int, len: int)
    | Bool(flag: bool)
    | Null
    | Compound(isObject: bool, items: seq<Item>)

  /** A child of an array, or a member of an object with the position of its name. */
  datatype Item = Item(nameAt: int, nameLen: int, value: Json)

  datatype Result<T> = Fail | Done(value: T, end: int)

  function Skip(text: Text, i: int): (p: int)
    ensures i <= p && (i <= |text| ==> p <= |text|) && !Blank(At(text, p))
    ensures forall k :: i <= k < p ==> Blank(At(text, k))
    decreases |text| - i
  {
    if Blank(At(text, i)) then Skip(text, i + 1) else i
  }

  /** The next quote from i on, or the end of the text. */
  function FindQuote(text: Text, i: int): (q: int)
    ensures i <= q && (i <= |text| ==> q <= |text|)
    ensures forall k :: i <= k < q ==> At(text, k) != '"'
    ensures At(text, q) == '"' || At(text, q) == '\0'
    decreases |text| - i
  {
    if At(text, i) != '"' && At(text, i) != '\0' then FindQuote(text, i + 1) else i
  }

  predicate Spells(text: Text, i: int, s: string) {
    0 <= i && i + |s| <= |text| && text[i..i + |s|] == s
  }

  /** Where the digits that begin at i end. */
  function DigitsEnd(text: Text, i: int): (e: int)
    ensures i <= e && (i <= |text| ==> e <= |text|) && !Digit(At(text, e))
    ensures forall k :: i <= k < e ==> Digit(At(text, k))
    ensures i < e ==> 0 <= i && e <= |text|
    decreases |text| - i
  {
    if Digit(At(text, i)) then DigitsEnd(text, i + 1) else i
  }

  /** What strtoul makes of a decimal number, with an unsigned long of 32 bits. */
  function Unsigned(v: int, negative: bool): int {
    if v > 0xFFFF_FFFF then 0xFFFF_FFFF else if negative && v > 0 then 0x1_0000_0000 - v else v
  }

  function ParseNumber(text: Text, p: int): (r: Result<Json>)
    ensures r.Done? ==> p < r.end <= |text|
  {
    var negative := At(text, p) == '-';
    var from := if negative then p + 1 else p;
    var e := DigitsEnd(text, from);
    if e == from then Fail
    else Done(Number(Unsigned(DigitsValue(text[from..e]), negative)), e)
  }

  function ParseString(text: Text, p: int): (r: Result<Json>)
    ensures r.Done? ==> p < r.end <= |text| && r.value.Str?
  {
    if At(text, p) != '"' then Fail
    else
      var q := FindQuote(text, p + 1);
      if At(text, q) != '"' then Fail else Done(Str(p + 1, q - (p + 1)), q + 1)
  }

  function ParseValue(text: Text, i: int): (r: Result<Json>)
    ensures r.Done? ==> i < r.end <= |text|
    decreases |text| - i, 0
  {
    var p := Skip(text, i);
    var c := At(text, p);
    if c == 'n' && Spells(text, p, "null") then Done(Null, p + 4)
    else if c == 'f' && Spells(text, p, "false") then Done(Bool(false), p + 5)
    else if c == 't' && Spells(text, p, "true") then Done(Bool(true), p + 4)
    else if c == '"' then ParseString(text, p)
    else if c == '[' || c == '{' then ParseCompound(text, p)
    else if c == '-' || Digit(c) then ParseNumber(text, p)
    else Fail
  }

  function Close(isObject: bool): char {
    if isObject then '}' else ']'
  }

  function ParseCompound(text: Text, p: int): (r: Result<Json>)
    ensures r.Done? ==> p < r.end <= |text|
    decreases |text| - p - 1, 3
  {
    var isObject := At(text, p) == '{';
    var t := Skip(text, p + 1);
    if At(text, t) == Close(isObject) then Done(Compound(isObject, []), t + 1)
    else
      match ParseItems(text, t, isObject)
      case Fail => Fail
      case Done(items, e) => Done(Compound(isObject, items), e)
  }

  function ParseItem(text: Text, t: int, isObject: bool): (r: Result<Item>)
    ensures r.Done? ==> t < r.end <= |text|
    decreases |text| - t, 1
  {
    if !isObject then
      match ParseValue(text, t)
      case Fail => Fail
      case Done(v, e) => Done(Item(-1, 0, v), e)
    else
      match ParseString(text, t)
      case Fail => Fail
      case Done(name, e) =>
        var u := Skip(text, e);
        if At(text, u) != ':' then Fail
        else
          match ParseValue(text, Skip(text, u + 1))
          case Fail => Fail
          case Done(v, e') => Done(Item(name.at, name.len, v), e')
  }

  /** Items separated by commas, and the closing bracket. */
  function ParseItems(text: Text, t: int, isObject: bool): (r: Result<seq<Item>>)
    ensures r.Done? ==> t < r.end <= |text|
    decreases |text| - t, 2
  {
    match ParseItem(text, t, isObject)
    case Fail => Fail
    case Done(item, e) =>
      var u := Skip(text, e);
      if At(text, u) == ',' then
        match ParseItems(text, Skip(text, u + 1), isObject)
        case Fail => Fail
        case Done(rest, end) => Done([item] + rest, end)
      else if At(text, u) == Close(isObject) then Done([item], u + 1)
      else Fail
  }
}
