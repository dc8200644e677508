/** What the reader of device-mapper tables takes of any text: how it cuts it into lines, which fields it finds between
    any white space, and which device names the printer writes. */
module TableText {
  import opened Decimals
  import opened FuseIso
  import opened DmTable

  // ----- Lines -----

  function Concat(pieces: seq<string>): string {
    if pieces == [] then "" else pieces[0] + Concat(pieces[1..])
  }

  /** A piece that fits the buffer of 256 bytes and has no line feed but at its end. */
  predicate Piece(s: string) {
    0 < |s| <= 255 && forall i :: 0 <= i < |s| - 1 ==> s[i] != '\n'
  }

  /** It is full, or ends in a line feed. */
  predicate Complete(s: string) {
    s != [] && (|s| == 255 || s[|s| - 1] == '\n')
  }

  lemma {:induction false} TakeShape(text: string, room: nat)
    ensures var n := TakeCount(text, room);
            && (forall i :: 0 <= i < n - 1 ==> text[i] != '\n')
            && (n < |text| && room > 0 ==> n == room || (n > 0 && text[n - 1] == '\n'))
  {
    if text != [] && room > 0 && text[0] != '\n' {
      TakeShape(text[1..], room - 1);
      assert forall i :: 0 < i < |text| ==> text[i] == text[1..][i - 1];
    }
  }

  /** The pieces make up the text; each is a piece, and all but the last one are complete. */
  lemma {:induction false} PiecesInFull(text: string)
    ensures Concat(Pieces(text)) == text
    ensures forall i :: 0 <= i < |Pieces(text)| ==> Piece(Pieces(text)[i])
    ensures forall i :: 0 <= i < |Pieces(text)| - 1 ==> Complete(Pieces(text)[i])
  {
    if text != [] {
      var n := TakeCount(text, 255);
      TakeShape(text, 255);
      PiecesInFull(text[n..]);
      assert Pieces(text) == [text[..n]] + Pieces(text[n..]);
      assert Pieces(text)[1..] == Pieces(text[n..]);
      assert text[..n] + text[n..] == text;
    }
  }

  // ----- Fields -----

  /** The white space of the C locale: space, and tab to carriage return. */
  predicate White(s: string) {
    forall i :: 0 <= i < |s| ==> s[i] as int == 32 || 9 <= s[i] as int <= 13
  }

  predicate Black(s: string) {
    s != [] && forall i :: 0 <= i < |s| ==> s[i] as int != 32 && !(9 <= s[i] as int <= 13)
  }

  predicate Digits(s: string) {
    s != [] && forall i :: 0 <= i < |s| ==> 48 <= s[i] as int <= 57
  }

  /** A number with the white space and the sign before it. */
  datatype Field = Field(before: string, sign: string, digits: string)

  predicate Proper(f: Field) {
    White(f.before) && f.sign in {"", "+", "-"} && Digits(f.digits)
  }

  function Shown(f: Field): string {
    f.before + (f.sign + f.digits)
  }

  /** What a field of that many values keeps of it: the number, or its negative, modulo that; all ones of a number that
      does not fit 64 bits. */
  function Kept(f: Field, values: int): int
    requires values > 0
  {
    var n := DigitsValue(f.digits);
    if n >= 0x1_0000_0000_0000_0000 then values - 1
    else if f.sign == "-" then -n % values
    else n % values
  }

  lemma {:induction false} SkipWhite(s: string, t: string)
    requires White(s) && (t == [] || !White([t[0]]))
    ensures SkipBlanks(s + t) == t
  {
    if s == [] {
      assert s + t == t;
      if t != [] {
        assert [t[0]][0] == t[0];
      }
    } else {
      assert (s + t)[1..] == s[1..] + t;
      SkipWhite(s[1..], t);
    }
  }

  lemma NotWhite(s: string)
    requires s != [] && (s[0] as int > 32)
    ensures !White([s[0]])
  {
    assert [s[0]][0] == s[0];
  }

  lemma DigitsRead(digits: string, rest: string)
    requires Digits(digits) && (rest == [] || !Digits([rest[0]]))
    ensures ScanDigits(digits + rest) == Got(DigitsValue(digits), rest)
  {
    if rest != [] {
      assert [rest[0]][0] == rest[0];
      assert !Digit(rest[0]);
    }
    CountOf(digits, rest);
    hide DigitsValue;
    assert (digits + rest)[..|digits|] == digits && (digits + rest)[|digits|..] == rest;
  }

  lemma StoredIs(n: int, negative: bool, wide: bool)
    ensures Stored(n, negative, wide)
         == var values := if wide then 0x1_0000_0000_0000_0000 else 0x1_0000_0000;
            if n >= 0x1_0000_0000_0000_0000 then values - 1 else if negative then -n % values else n % values
  {
  }

  /** A number is read to its last digit, with its sign, and what is kept of it is that. */
  lemma NumberRead(f: Field, rest: string, wide: bool)
    requires Proper(f) && (rest == [] || !Digits([rest[0]]))
    ensures ScanNumber(Shown(f) + rest, wide)
         == Got(Kept(f, if wide then 0x1_0000_0000_0000_0000 else 0x1_0000_0000), rest)
  {
    var t := f.sign + (f.digits + rest);
    ShownParts(f, rest);
    DigitsRead(f.digits, rest);
    StoredIs(DigitsValue(f.digits), f.sign == "-", wide);
    assert Kept(f, if wide then 0x1_0000_0000_0000_0000 else 0x1_0000_0000)
        == Stored(DigitsValue(f.digits), f.sign == "-", wide);
    hide *;
    SkipWhite(f.before, t);
    SignRead(f.before + t, f.sign, f.digits + rest, DigitsValue(f.digits), rest, wide);
  }

  lemma ShownParts(f: Field, rest: string)
    requires Proper(f)
    ensures var t := f.sign + (f.digits + rest);
            && Shown(f) + rest == f.before + t && t != [] && !White([t[0]]) && White(f.before)
            && f.sign in {"", "+", "-"} && f.digits + rest != [] && Digits(f.digits)
            && (f.digits + rest)[0] != '+' && (f.digits + rest)[0] != '-'
  {
    var t := f.sign + (f.digits + rest);
    assert Shown(f) + rest == f.before + t;
    assert (f.digits + rest)[0] == f.digits[0];
    assert t[0] == if f.sign != "" then f.sign[0] else f.digits[0];
    NotWhite(t);
  }

  /** The sign is taken off before the digits are read. */
  lemma SignRead(s: string, sign: string, digits: string, n: int, rest: string, wide: bool)
    requires sign in {"", "+", "-"} && SkipBlanks(s) == sign + digits
    requires digits != [] && digits[0] != '+' && digits[0] != '-' && ScanDigits(digits) == Got(n, rest)
    ensures ScanNumber(s, wide) == Got(Stored(n, sign == "-", wide), rest)
  {
    hide SkipBlanks, ScanDigits, Stored;
    var t := sign + digits;
    if sign == "" {
      assert t == digits;
    } else {
      assert t[0] == sign[0] && t[1..] == digits;
    }
  }

  lemma NameRead(before: string, name: string, rest: string)
    requires White(before) && Black(name) && rest != [] && White([rest[0]])
    ensures ScanWord(before + name + rest) == Got(name, rest)
  {
    assert [rest[0]][0] == rest[0];
    var t := name + rest;
    assert before + name + rest == before + t;
    assert [t[0]][0] == name[0];
    SkipWhite(before, t);
    CountBlack(name, rest);
    assert t[..|name|] == name && t[|name|..] == rest;
  }

  lemma LinearRead(before: string, rest: string)
    requires White(before)
    ensures ScanLiteral(before + "linear" + rest, "linear") == Got("linear", rest)
  {
    var t := "linear" + rest;
    assert before + "linear" + rest == before + t;
    NotWhite(t);
    SkipWhite(before, t);
    assert t[6..] == rest;
  }

  /** A line in general: three numbers, the word and the name, with any white space where there must or may be some. */
  lemma LineRead(a: Field, b: Field, gap: string, space: string, name: string, c: Field, rest: string, e: Entry,
                 name0: string)
    requires Proper(a) && Proper(b) && Proper(c) && White(gap) && White(space) && Black(name)
    requires (b.before != "" || b.sign != "") && c.before != "" && (rest == [] || !Digits([rest[0]]))
    ensures ScanLine(Shown(a) + (Shown(b) + (gap + "linear" + (space + name + (Shown(c) + rest)))), e, name0)
         == (Entry(Kept(a, 0x1_0000_0000), Kept(b, 0x1_0000_0000), Kept(c, 0x1_0000_0000_0000_0000)), name)
  {
    var r4 := Shown(c) + rest;
    var r3 := space + name + r4;
    var r2 := gap + "linear" + r3;
    var r1 := Shown(b) + r2;
    NotDigit(r1, b);
    GapNotDigit(gap, r3);
    assert r4[0] == c.before[0] && White([r4[0]]);
    hide *;
    NumberRead(a, r1, false);
    NumberRead(b, r2, false);
    LinearRead(gap, r3);
    NameRead(space, name, r4);
    NumberRead(c, rest, true);
    Scanned(Shown(a) + r1, r1, r2, r3, r4, rest, Kept(a, 0x1_0000_0000), Kept(b, 0x1_0000_0000), name,
            Kept(c, 0x1_0000_0000_0000_0000), e, name0);
  }

  lemma NotDigit(r: string, b: Field)
    requires Proper(b) && (b.before != "" || b.sign != "") && Shown(b) <= r
    ensures r != [] && !Digits([r[0]])
  {
    assert r[0] == Shown(b)[0];
    assert [r[0]][0] == r[0];
    assert r[0] == if b.before != "" then b.before[0] else b.sign[0];
  }

  lemma GapNotDigit(gap: string, rest: string)
    requires White(gap)
    ensures var r := gap + "linear" + rest; !Digits([r[0]])
  {
    var r := gap + "linear" + rest;
    assert [r[0]][0] == r[0];
    assert r[0] == if gap != "" then gap[0] else 'l';
  }

  lemma Scanned(s: string, r1: string, r2: string, r3: string, r4: string, rest: string, x: int, y: int, name: string,
                z: int, e: Entry, name0: string)
    requires ScanNumber(s, false) == Got(x, r1) && ScanNumber(r1, false) == Got(y, r2)
    requires ScanLiteral(r2, "linear") == Got("linear", r3) && ScanWord(r3) == Got(name, r4)
    requires ScanNumber(r4, true) == Got(z, rest)
    ensures ScanLine(s, e, name0) == (Entry(x, y, z), name)
  {
    hide ScanNumber, ScanLiteral, ScanWord;
  }

  // ----- Lines that do not fit -----

  /** Nothing that a number or the word could begin with. */
  predicate Junk(s: string) {
    s == "" || (s[0] as int > 32 && !(48 <= s[0] as int <= 57) && s[0] !in "+-l")
  }

  lemma SkipToJunk(space: string, junk: string)
    requires White(space) && Junk(junk)
    ensures SkipBlanks(space + junk) == junk && (junk == [] || !Digits([junk[0]]))
  {
    if junk != [] {
      NotWhite(junk);
      assert [junk[0]][0] == junk[0];
    }
    SkipWhite(space, junk);
  }

  lemma NumberStuck(space: string, junk: string, wide: bool)
    requires White(space) && Junk(junk)
    ensures ScanNumber(space + junk, wide) == Stuck && ScanLiteral(space + junk, "linear") == Stuck
  {
    SkipToJunk(space, junk);
    hide SkipBlanks, White;
    assert "linear"[0] == 'l';
  }

  lemma WordStuck(space: string)
    requires White(space)
    ensures ScanWord(space) == Stuck
  {
    assert space + "" == space;
    SkipWhite(space, "");
  }

  /** A line that stops fitting changes the fields before that place and no others: none, the first number, the first
      two, or, behind the word, the name as well. */
  lemma LineStops(a: Field, b: Field, gap: string, space: string, name: string, behind: string, junk: string, e: Entry,
                  name0: string)
    requires Proper(a) && Proper(b) && White(gap) && White(space) && Black(name) && White(behind) && Junk(junk)
    requires (b.before != "" || b.sign != "") && behind != ""
    ensures ScanLine(space + junk, e, name0) == (e, name0)
    ensures space + junk == "" || !Digits([(space + junk)[0]])
    ensures ScanLine(Shown(a) + (space + junk), e, name0) == (e.(isoSector := Kept(a, 0x1_0000_0000)), name0)
    ensures var e2 := e.(isoSector := Kept(a, 0x1_0000_0000), sectorNum := Kept(b, 0x1_0000_0000));
            && ScanLine(Shown(a) + (Shown(b) + (space + junk)), e, name0) == (e2, name0)
            && ScanLine(Shown(a) + (Shown(b) + (gap + "linear" + space)), e, name0) == (e2, name0)
            && ScanLine(Shown(a) + (Shown(b) + (gap + "linear" + (space + name + (behind + junk)))), e, name0)
               == (e2, name)
  {
    var j := space + junk;
    NumberStuck(space, junk, false);
    NumberStuck(behind, junk, true);
    WordStuck(space);
    JunkNotDigit(space, junk);
    var r2 := gap + "linear" + space;
    var r3 := space + name + (behind + junk);
    var r4 := gap + "linear" + r3;
    NotDigit(Shown(b) + j, b);
    NotDigit(Shown(b) + r2, b);
    NotDigit(Shown(b) + r4, b);
    GapNotDigit(gap, space);
    GapNotDigit(gap, r3);
    assert (behind + junk)[0] == behind[0] && White([(behind + junk)[0]]);
    hide ScanNumber, ScanLiteral, ScanWord, White, Black, Digits, Shown, Kept, Proper, Junk;
    NumberRead(a, j, false);
    NumberRead(a, Shown(b) + j, false);
    NumberRead(b, j, false);
    NumberRead(a, Shown(b) + r2, false);
    NumberRead(b, r2, false);
    LinearRead(gap, space);
    NumberRead(a, Shown(b) + r4, false);
    NumberRead(b, r4, false);
    LinearRead(gap, r3);
    NameRead(space, name, behind + junk);
  }

  lemma JunkNotDigit(space: string, junk: string)
    requires White(space) && Junk(junk)
    ensures space + junk == [] || !Digits([(space + junk)[0]])
  {
    var s := space + junk;
    if s != [] {
      assert [s[0]][0] == s[0];
      assert s[0] == if space != [] then space[0] else junk[0];
    }
  }

  // ----- Device names -----

  /** The part occurs somewhere in the string. */
  ghost predicate Occurs(s: string, part: string) {
    exists i :: OccursAt(s, part, i)
  }

  predicate OccursAt(s: string, part: string, i: int) {
    0 <= i && i + |part| <= |s| && s[i..i + |part|] == part
  }

  lemma {:induction false} ContainsIff(s: string, part: string)
    ensures Contains(s, part) <==> Occurs(s, part)
  {
    if part <= s {
      assert OccursAt(s, part, 0);
    } else if s != [] {
      ContainsIff(s[1..], part);
      if i :| OccursAt(s, part, i) {
        assert s[0..|part|] == part ==> part <= s;
        assert s[1..][i - 1..i - 1 + |part|] == part;
        assert OccursAt(s[1..], part, i - 1);
      }
      if i :| OccursAt(s[1..], part, i) {
        assert s[i + 1..i + 1 + |part|] == s[1..][i..i + |part|];
        assert OccursAt(s, part, i + 1);
      }
    }
  }

  /** The partition number stands behind the name of the disk, with a p between them for the kinds of disk whose names
      end in a number. */
  lemma DeviceNames(diskname: string, part: nat)
    ensures var numbered := Occurs(diskname, "nvme") || Occurs(diskname, "mmc") || Occurs(diskname, "nbd");
            Device(diskname, part) == diskname + (if numbered then ['p'] else []) + Decimal(part)
  {
    ContainsIff(diskname, "nvme");
    ContainsIff(diskname, "mmc");
    ContainsIff(diskname, "nbd");
    hide Contains, Occurs, Decimal;
    assert diskname + [] == diskname;
  }
}
