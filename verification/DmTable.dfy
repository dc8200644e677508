/** The device-mapper table as text: printed by the chunk tool, read back by the FUSE mount. */
module DmTable {
  import opened Bytes
  import opened Decimals
  import opened ImageMap
  import opened FuseIso

  predicate Blank(c: char) {
    c == ' ' || '\t' <= c <= '\r'
  }

  function DigitOf(d: nat): char
    requires d < 10
    ensures Digit(DigitOf(d)) && DigitOf(d) as int - '0' as int == d
  {
    ('0' as int + d) as char
  }

  /** A number as the %u and %llu conversions write it. */
  function Decimal(n: nat): (r: string)
    ensures |r| > 0 && forall i :: 0 <= i < |r| ==> Digit(r[i])
  {
    if n < 10 then [DigitOf(n)] else Decimal(n / 10) + [DigitOf(n % 10)]
  }

  function Pow10(k: nat): nat {
    if k == 0 then 1 else 10 * Pow10(k - 1)
  }

  lemma {:induction false} DecimalLength(n: nat, k: nat)
    requires 0 < k && n < Pow10(k)
    ensures |Decimal(n)| <= k
    decreases k
  {
    if n >= 10 {
      DecimalLength(n / 10, k - 1);
    }
  }

  function DigitCount(s: string): (n: nat)
    ensures n <= |s|
  {
    if s != [] && Digit(s[0]) then 1 + DigitCount(s[1..]) else 0
  }

  lemma {:induction false} CountDigits(s: string)
    ensures forall i :: 0 <= i < DigitCount(s) ==> Digit(s[i])
    ensures DigitCount(s) < |s| ==> !Digit(s[DigitCount(s)])
  {
    if s != [] && Digit(s[0]) {
      CountDigits(s[1..]);
      assert forall i :: 0 < i < DigitCount(s) ==> s[i] == s[1..][i - 1];
    }
  }

  lemma {:induction false} CountOf(a: string, b: string)
    requires forall i :: 0 <= i < |a| ==> Digit(a[i])
    requires b == [] || !Digit(b[0])
    ensures DigitCount(a + b) == |a|
  {
    if a == [] {
      assert a + b == b;
    } else {
      CountOf(a[1..], b);
      assert (a + b)[1..] == a[1..] + b;
    }
  }

  lemma {:induction false} ValueOfDecimal(n: nat)
    ensures DigitsValue(Decimal(n)) == n
  {
    if n >= 10 {
      ValueOfDecimal(n / 10);
      assert Decimal(n)[..|Decimal(n)| - 1] == Decimal(n / 10);
    } else {
      assert Decimal(n)[..0] == [];
    }
  }

  function SkipBlanks(s: string): (r: string)
    ensures |r| <= |s|
  {
    if s != [] && Blank(s[0]) then SkipBlanks(s[1..]) else s
  }

  function BlackCount(s: string): (n: nat)
    ensures n <= |s|
  {
    if s != [] && !Blank(s[0]) then 1 + BlackCount(s[1..]) else 0
  }

  datatype Scan<T> = Got(value: T, rest: string) | Stuck

  function ScanDigits(s: string): Scan<int> {
    var n := DigitCount(s);
    CountDigits(s);
    if n == 0 then Stuck else Got(DigitsValue(s[..n]), s[n..])
  }

  /** What a conversion stores of a number read: saturated at 64 bits, negated, and kept to its width. */
  function Stored(v: int, negative: bool, wide: bool): int {
    var w := if v >= 0x1_0000_0000_0000_0000 then 0xFFFF_FFFF_FFFF_FFFF else if negative then -v else v;
    if wide then w % 0x1_0000_0000_0000_0000 else w % 0x1_0000_0000
  }

  /** The %u conversion, or %llu if wide: blanks, an optional sign, digits. */
  function ScanNumber(s: string, wide: bool): Scan<int> {
    var t := SkipBlanks(s);
    var signed := t != [] && (t[0] == '-' || t[0] == '+');
    match ScanDigits(if signed then t[1..] else t)
    case Stuck => Stuck
    case Got(v, rest) => Got(Stored(v, signed && t[0] == '-', wide), rest)
  }

  /** The %s conversion: blanks, then everything up to the next blank. */
  function ScanWord(s: string): Scan<string> {
    var t := SkipBlanks(s);
    var n := BlackCount(t);
    if n == 0 then Stuck else Got(t[..n], t[n..])
  }

  /** A literal of the format, after a blank of the format. */
  function ScanLiteral(s: string, literal: string): Scan<string> {
    var t := SkipBlanks(s);
    if literal <= t then Got(literal, t[|literal|..]) else Stuck
  }

  /** The conversion "%u %u linear %s %llu" of one line into an entry and a name; it stops at the first part that does
      not fit, and leaves what comes behind as it was. */
  function ScanLine(line: string, e: Entry, name: string): (Entry, string) {
    match ScanNumber(line, false)
    case Stuck => (e, name)
    case Got(isoSector, r1) =>
      match ScanNumber(r1, false)
      case Stuck => (e.(isoSector := isoSector), name)
      case Got(sectorNum, r2) =>
        var e' := e.(isoSector := isoSector, sectorNum := sectorNum);
        match ScanLiteral(r2, "linear")
        case Stuck => (e', name)
        case Got(_, r3) =>
          match ScanWord(r3)
          case Stuck => (e', name)
          case Got(device, r4) =>
            match ScanNumber(r4, true)
            case Stuck => (e', device)
            case Got(diskSector, _) => (e'.(diskSector := diskSector), device)
  }

  lemma ScanDigitsOf(n: nat, rest: string)
    requires rest == [] || !Digit(rest[0])
    ensures ScanDigits(Decimal(n) + rest) == Got(n, rest)
  {
    var d := Decimal(n);
    CountOf(d, rest);
    ValueOfDecimal(n);
    hide Decimal, DigitsValue;
    assert (d + rest)[..|d|] == d && (d + rest)[|d|..] == rest;
  }

  lemma StartsDigit(n: nat, rest: string)
    ensures SkipBlanks(Decimal(n) + rest) == Decimal(n) + rest
    ensures SkipBlanks([' '] + (Decimal(n) + rest)) == Decimal(n) + rest
    ensures Digit((Decimal(n) + rest)[0])
  {
    var s := Decimal(n) + rest;
    hide Decimal;
    assert s[0] == Decimal(n)[0];
    assert ([' '] + s)[1..] == s;
  }

  lemma ScanDecimal(n: nat, rest: string, wide: bool)
    requires n < if wide then 0x1_0000_0000_0000_0000 else 0x1_0000_0000
    requires rest == [] || !Digit(rest[0])
    ensures ScanNumber(Decimal(n) + rest, wide) == Got(n, rest)
    ensures ScanNumber([' '] + Decimal(n) + rest, wide) == Got(n, rest)
  {
    hide *;
    ScanDigitsOf(n, rest);
    StartsDigit(n, rest);
    assert [' '] + Decimal(n) + rest == [' '] + (Decimal(n) + rest);
    ScanUnsigned(Decimal(n) + rest, Decimal(n) + rest, n, rest, wide);
    ScanUnsigned([' '] + Decimal(n) + rest, Decimal(n) + rest, n, rest, wide);
  }

  lemma ScanUnsigned(s: string, t: string, n: nat, rest: string, wide: bool)
    requires SkipBlanks(s) == t && t != [] && Digit(t[0])
    requires n < if wide then 0x1_0000_0000_0000_0000 else 0x1_0000_0000
    requires ScanDigits(t) == Got(n, rest)
    ensures ScanNumber(s, wide) == Got(n, rest)
  {
  }

  predicate Word(name: string) {
    name != [] && forall i :: 0 <= i < |name| ==> !Blank(name[i])
  }

  lemma {:induction false} CountBlack(a: string, b: string)
    requires forall i :: 0 <= i < |a| ==> !Blank(a[i])
    requires b == [] || Blank(b[0])
    ensures BlackCount(a + b) == |a|
  {
    if a == [] {
      assert a + b == b;
    } else {
      CountBlack(a[1..], b);
      assert (a + b)[1..] == a[1..] + b;
    }
  }

  lemma ScanName(name: string, rest: string)
    requires Word(name) && rest != [] && Blank(rest[0])
    ensures ScanWord([' '] + name + rest) == Got(name, rest)
  {
    var s := name + rest;
    assert ([' '] + name + rest)[1..] == s;
    assert s[0] == name[0] && SkipBlanks(s) == s;
    CountBlack(name, rest);
    assert s[..|name|] == name && s[|name|..] == rest;
  }

  lemma ScanLinear(rest: string)
    ensures ScanLiteral(" linear" + rest, "linear") == Got("linear", rest)
  {
    var s := "linear" + rest;
    assert (" linear" + rest)[1..] == s;
    assert SkipBlanks(s) == s;
    assert s[6..] == rest;
  }

  /** The fields fit their C types. */
  predicate Fits(e: Entry) {
    && 0 <= e.isoSector < 0x1_0000_0000 && 0 <= e.sectorNum < 0x1_0000_0000
    && 0 <= e.diskSector < 0x1_0000_0000_0000_0000
  }

  /** One table line. */
  function Line(e: Entry, name: string): string
    requires Fits(e)
  {
    Decimal(e.isoSector)
    + ([' '] + Decimal(e.sectorNum) + (" linear" + ([' '] + name + ([' '] + Decimal(e.diskSector) + "\n"))))
  }

  /** Reading a printed line back gives the entry and the device name, whatever was there before. */
  lemma LineRoundTrip(e: Entry, name: string, e0: Entry, name0: string)
    requires Fits(e) && Word(name)
    ensures ScanLine(Line(e, name), e0, name0) == (e, name)
  {
    var r5 := [' '] + Decimal(e.diskSector) + "\n";
    var r4 := [' '] + name + r5;
    var r3 := " linear" + r4;
    var r2 := [' '] + Decimal(e.sectorNum) + r3;
    ScanDecimal(e.isoSector, r2, false);
    ScanDecimal(e.sectorNum, r3, false);
    ScanLinear(r4);
    ScanName(name, r5);
    ScanDecimal(e.diskSector, "\n", true);
    hide ScanNumber, ScanLiteral, ScanWord, Decimal, Word;
    assert Line(e, name) == Decimal(e.isoSector) + r2;
    assert Entry(e.isoSector, e.sectorNum, e.diskSector) == e;
  }

  /** What fgets takes of a text with `room` places for characters: at most one line. */
  function TakeCount(text: string, room: nat): (n: nat)
    ensures n <= room && n <= |text|
    ensures text != [] && room > 0 ==> n > 0
  {
    if text == [] || room == 0 then 0
    else if text[0] == '\n' then 1
    else 1 + TakeCount(text[1..], room - 1)
  }

  /** The pieces successive calls of fgets with a buffer of 256 return. */
  function Pieces(text: string): seq<string> {
    if text == [] then [] else [text[..TakeCount(text, 255)]] + Pieces(text[TakeCount(text, 255)..])
  }

  lemma {:induction false} TakeLine(line: string, rest: string, room: nat)
    requires 0 < |line| <= room && line[|line| - 1] == '\n'
    requires forall i :: 0 <= i < |line| - 1 ==> line[i] != '\n'
    ensures TakeCount(line + rest, room) == |line|
  {
    assert (line + rest)[0] == line[0];
    if |line| > 1 {
      TakeLine(line[1..], rest, room - 1);
      assert (line + rest)[1..] == line[1..] + rest;
    }
  }

  lemma PiecesLine(line: string, rest: string)
    requires 0 < |line| <= 255 && line[|line| - 1] == '\n'
    requires forall i :: 0 <= i < |line| - 1 ==> line[i] != '\n'
    ensures Pieces(line + rest) == [line] + Pieces(rest)
  {
    TakeLine(line, rest, 255);
    hide TakeCount;
    assert (line + rest)[..|line|] == line && (line + rest)[|line|..] == rest;
  }

  /** The text of a table. */
  function Text(entries: seq<Entry>, name: string): string
    requires forall i :: 0 <= i < |entries| ==> Fits(entries[i])
  {
    if entries == [] then [] else Line(entries[0], name) + Text(entries[1..], name)
  }

  lemma {:induction false} TextAppend(entries: seq<Entry>, e: Entry, name: string)
    requires Fits(e) && forall i :: 0 <= i < |entries| ==> Fits(entries[i])
    ensures Text(entries + [e], name) == Text(entries, name) + Line(e, name)
  {
    hide Line;
    if entries == [] {
      assert entries + [e] == [e];
    } else {
      TextAppend(entries[1..], e, name);
      assert (entries + [e])[1..] == entries[1..] + [e];
    }
  }

  /** A printed line has one line feed, at its end, and fits the line buffer. */
  lemma LineShape(e: Entry, name: string)
    requires Fits(e) && Word(name) && |name| < 128
    ensures var s := Line(e, name);
            && 0 < |s| <= 255 && s[|s| - 1] == '\n' && forall i :: 0 <= i < |s| - 1 ==> s[i] != '\n'
  {
    assert Pow10(10) == 10000000000 && Pow10(20) == 100000000000000000000 by {
      assert Pow10(5) == 100000;
      assert Pow10(10) == 100000 * Pow10(5);
      assert Pow10(15) == 100000 * Pow10(10);
    }
    DecimalLength(e.isoSector, 10);
    DecimalLength(e.sectorNum, 10);
    DecimalLength(e.diskSector, 20);
    LineOf(Decimal(e.isoSector), Decimal(e.sectorNum), name, Decimal(e.diskSector));
  }

  lemma LineOf(a: string, b: string, name: string, d: string)
    requires |a| <= 10 && |b| <= 10 && |name| < 128 && |d| <= 20
    requires (forall i :: 0 <= i < |a| ==> Digit(a[i])) && (forall i :: 0 <= i < |b| ==> Digit(b[i]))
    requires Word(name) && forall i :: 0 <= i < |d| ==> Digit(d[i])
    ensures var s := a + ([' '] + b + (" linear" + ([' '] + name + ([' '] + d + "\n"))));
            && 0 < |s| <= 255 && s[|s| - 1] == '\n' && forall i :: 0 <= i < |s| - 1 ==> s[i] != '\n'
  {
  }

  lemma {:induction false} TextPieces(entries: seq<Entry>, name: string)
    requires forall i :: 0 <= i < |entries| ==> Fits(entries[i])
    requires Word(name) && |name| < 128
    ensures |Pieces(Text(entries, name))| == |entries|
    ensures forall i :: 0 <= i < |entries| ==> Pieces(Text(entries, name))[i] == Line(entries[i], name)
  {
    if entries != [] {
      LineShape(entries[0], name);
      hide Line, Word;
      PiecesLine(Line(entries[0], name), Text(entries[1..], name));
      TextPieces(entries[1..], name);
    }
  }

  datatype Table = Table(entries: seq<Entry>, name: string, fileSize: int) | TooMany

  lemma {:induction false} SectorsAppend(entries: seq<Entry>, e: Entry)
    ensures TableSectors(entries + [e]) == TableSectors(entries) + e.sectorNum
  {
    if entries == [] {
      assert entries + [e] == [e];
    } else {
      SectorsAppend(entries[1..], e);
      assert (entries + [e])[1..] == entries[1..] + [e];
    }
  }

  /** The entries and the device name after n lines; the list lies in memory that was never written. */
  function ReadLines(pieces: seq<string>, memory: seq<Entry>, n: int): (seq<Entry>, string)
    requires n <= |pieces| && n <= |memory|
  {
    if n <= 0 then ([], "")
    else
      var (entries, name) := ReadLines(pieces, memory, n - 1);
      var (e, device) := ScanLine(pieces[n - 1], memory[n - 1], name);
      (entries + [e], device)
  }

  /** The state of the reader after some lines, with `rest` still to be read. */
  ghost predicate ReadSoFar(pieces: seq<string>, memory: seq<Entry>, entries: seq<Entry>, name: string, rest: string) {
    && |entries| <= |pieces| && |entries| <= |memory|
    && ReadLines(pieces, memory, |entries|) == (entries, name) && pieces[|entries|..] == Pieces(rest)
  }

  predicate Counted(entries: seq<Entry>, size: int) {
    size == 512 * TableSectors(entries) && 0 <= TableSectors(entries) <= 0x1_0000_0000 * |entries|
  }

  lemma ReadNext(pieces: seq<string>, memory: seq<Entry>, entries: seq<Entry>, name: string, rest: string,
                 n: nat, e: Entry, device: string)
    requires ReadSoFar(pieces, memory, entries, name, rest) && rest != [] && |entries| < |memory|
    requires n == TakeCount(rest, 255) && ScanLine(rest[..n], memory[|entries|], name) == (e, device)
    ensures ReadSoFar(pieces, memory, entries + [e], device, rest[n..])
  {
    hide ScanLine, TakeCount;
    assert pieces[|entries|] == Pieces(rest)[0];
    assert pieces[|entries| + 1..] == Pieces(rest)[1..];
    hide Pieces;
  }

  lemma CountNext(entries: seq<Entry>, size: int, e: Entry)
    requires Counted(entries, size) && Fits(e) && |entries| < 65536
    ensures Counted(entries + [e], (size + e.sectorNum * 512) % 0x1_0000_0000_0000_0000)
  {
    SectorsAppend(entries, e);
    hide TableSectors;
    SizeNext(size, TableSectors(entries), e.sectorNum, |entries|);
  }

  lemma SizeNext(size: int, total: int, more: int, n: nat)
    requires size == 512 * total && 0 <= total <= 0x1_0000_0000 * n && n < 65536 && 0 <= more < 0x1_0000_0000
    ensures (size + more * 512) % 0x1_0000_0000_0000_0000 == 512 * (total + more)
    ensures 0 <= total + more <= 0x1_0000_0000 * (n + 1)
  {
  }

  lemma ScanLineFits(line: string, e: Entry, name: string)
    requires Fits(e)
    ensures Fits(ScanLine(line, e, name).0)
  {
    hide ScanNumber, ScanLiteral, ScanWord;
    NumbersFit(line);
  }

  lemma NumbersFit(s: string)
    ensures forall r: string, wide :: ScanNumber(r, wide).Got? ==>
              0 <= ScanNumber(r, wide).value < if wide then 0x1_0000_0000_0000_0000 else 0x1_0000_0000
  {
    hide ScanDigits, SkipBlanks;
  }

  lemma AllRead(pieces: seq<string>, memory: seq<Entry>, entries: seq<Entry>, name: string, size: int)
    requires ReadSoFar(pieces, memory, entries, name, []) && Counted(entries, size)
    ensures |entries| == |pieces| && ReadLines(pieces, memory, |pieces|) == (entries, name)
    ensures size == 512 * TableSectors(entries)
  {
  }

  lemma PartRead(pieces: seq<string>, memory: seq<Entry>, entries: seq<Entry>, name: string, rest: string)
    requires ReadSoFar(pieces, memory, entries, name, rest)
    ensures |entries| <= |pieces|
  {
  }

  /** Reads a table: an entry a line, the device name of the last one, and at most 65535 entries. */
  method ParseTable(text: string, memory: seq<Entry>) returns (t: Table)
    requires |memory| == 65536 && forall i :: 0 <= i < 65536 ==> Fits(memory[i])
    ensures t.TooMany? <==> |Pieces(text)| >= 65536
    ensures t.Table? ==> (t.entries, t.name) == ReadLines(Pieces(text), memory, |Pieces(text)|)
    ensures t.Table? ==> t.fileSize == 512 * TableSectors(t.entries)
  {
    ghost var pieces := Pieces(text);
    var rest, entries, name, size := text, [], "", 0;
    while rest != [] && |entries| < 65536
      invariant |entries| <= 65536 && ReadSoFar(pieces, memory, entries, name, rest) && Counted(entries, size)
      decreases |rest|
    {
      hide ReadSoFar, ScanLine, Counted;
      var n := TakeCount(rest, 255);
      var (e, device) := ScanLine(rest[..n], memory[|entries|], name);
      ScanLineFits(rest[..n], memory[|entries|], name);
      ReadNext(pieces, memory, entries, name, rest, n, e, device);
      CountNext(entries, size, e);
      entries, name := entries + [e], device;
      size := (size + e.sectorNum * 512) % 0x1_0000_0000_0000_0000;
      rest := rest[n..];
    }
    hide *;
    if |entries| >= 65536 {
      PartRead(pieces, memory, entries, name, rest);
      return TooMany;
    }
    AllRead(pieces, memory, entries, name, size);
    t := Table(entries, name, size);
  }

  lemma {:induction false} LinesRead(pieces: seq<string>, entries: seq<Entry>, name: string, memory: seq<Entry>, n: int)
    requires |pieces| == |entries| <= |memory| && Word(name) && 0 <= n <= |entries|
    requires forall i :: 0 <= i < |entries| ==> Fits(entries[i]) && pieces[i] == Line(entries[i], name)
    ensures ReadLines(pieces, memory, n) == (entries[..n], if n == 0 then "" else name)
  {
    hide ScanLine, Line, Word, Fits;
    if n > 0 {
      LinesRead(pieces, entries, name, memory, n - 1);
      LineRoundTrip(entries[n - 1], name, memory[n - 1], if n == 1 then "" else name);
      assert entries[..n - 1] + [entries[n - 1]] == entries[..n];
    }
  }

  /** A printed table is read back as it was. */
  lemma TableRoundTrip(entries: seq<Entry>, name: string, memory: seq<Entry>)
    requires forall i :: 0 <= i < |entries| ==> Fits(entries[i])
    requires Word(name) && |name| < 128 && |entries| <= |memory|
    ensures |Pieces(Text(entries, name))| == |entries|
    ensures ReadLines(Pieces(Text(entries, name)), memory, |entries|) == (entries, if entries == [] then "" else name)
  {
    TextPieces(entries, name);
    hide ReadLines, Text, Line, Pieces, Word, Fits;
    LinesRead(Pieces(Text(entries, name)), entries, name, memory, |entries|);
    assert entries[..|entries|] == entries;
  }

  predicate Contains(s: string, part: string) {
    part <= s || (s != [] && Contains(s[1..], part))
  }

  /** The name of a partition's device. */
  function Device(diskname: string, part: nat): string {
    if Contains(diskname, "nvme") || Contains(diskname, "mmc") || Contains(diskname, "nbd") then
      diskname + "p" + Decimal(part)
    else
      diskname + Decimal(part)
  }

  /** The table entry of a chunk, on a partition that begins `offset` sectors into the disk. */
  function EntryOf(c: Chunk, offset: int): (e: Entry)
    ensures Fits(e)
  {
    Entry(c.imgStart % 0x1_0000_0000 * 4 % 0x1_0000_0000,
          (c.diskEnd + 1 - c.diskStart) % 0x1_0000_0000,
          (c.diskStart - offset) % 0x1_0000_0000_0000_0000)
  }

  function Entries(chunks: seq<Chunk>, offset: int): (es: seq<Entry>)
    ensures |es| == |chunks| && forall i :: 0 <= i < |es| ==> Fits(es[i]) && es[i] == EntryOf(chunks[i], offset)
  {
    seq(|chunks|, i requires 0 <= i < |chunks| => EntryOf(chunks[i], offset))
  }

  /** Prints the table of a chunk list. */
  method PrintTable(chunks: seq<Chunk>, diskname: string, part: nat, offset: int) returns (text: string)
    ensures text == Text(Entries(chunks, offset), Device(diskname, part))
  {
    hide *;
    text := [];
    TextStart(chunks, offset, Device(diskname, part));
    for i := 0 to |chunks|
      invariant text == TextOf(chunks, offset, Device(diskname, part), i)
    {
      TextNext(chunks, offset, Device(diskname, part), i);
      text := text + Line(EntryOf(chunks[i], offset), Device(diskname, part));
    }
    TextEnd(chunks, offset, Device(diskname, part));
  }

  /** The first i lines of the table. */
  ghost function TextOf(chunks: seq<Chunk>, offset: int, name: string, i: nat): string
    requires i <= |chunks|
  {
    Text(Entries(chunks, offset)[..i], name)
  }

  lemma TextStart(chunks: seq<Chunk>, offset: int, name: string)
    ensures TextOf(chunks, offset, name, 0) == []
  {
  }

  lemma TextNext(chunks: seq<Chunk>, offset: int, name: string, i: nat)
    requires i < |chunks|
    ensures TextOf(chunks, offset, name, i + 1)
        == TextOf(chunks, offset, name, i) + Line(EntryOf(chunks[i], offset), name)
  {
    hide Line, EntryOf, Text;
    var es := Entries(chunks, offset);
    TextAppend(es[..i], es[i], name);
    assert es[..i] + [es[i]] == es[..i + 1];
  }

  lemma TextEnd(chunks: seq<Chunk>, offset: int, name: string)
    ensures TextOf(chunks, offset, name, |chunks|) == Text(Entries(chunks, offset), name)
  {
    assert Entries(chunks, offset)[..|chunks|] == Entries(chunks, offset);
  }

  /** The partition's device: the disk from byte 512 * offset on. */
  function Partition(disk: Disk, offset: int): Disk {
    i => disk(512 * offset + i)
  }

  /** The chunks lie in a partition, at byte offsets an off_t can hold. */
  predicate OnPartition(chunks: seq<Chunk>, offset: int) {
    forall i :: 0 <= i < |chunks| ==>
      0 <= offset <= chunks[i].diskStart && 512 * (chunks[i].diskEnd + 1) < 0x8000_0000_0000_0000
  }

  lemma EntryOfChunk(c: Chunk, offset: int)
    requires 0 <= offset <= c.diskStart && 512 * (c.diskEnd + 1) < 0x8000_0000_0000_0000
    requires 0 <= c.imgStart && Sectors(c) > 0 && c.diskEnd + 1 - c.diskStart == 4 * Sectors(c)
    requires 4 * (c.imgEnd + 1) < 0x1_0000_0000
    ensures EntryOf(c, offset) == Entry(4 * c.imgStart, 4 * Sectors(c), c.diskStart - offset)
  {
  }

  lemma {:induction false} TotalPositive(chunks: seq<Chunk>, from: int)
    requires Contiguous(chunks, from)
    ensures TotalSectors(chunks) >= 0
    decreases |chunks|
  {
    if chunks != [] {
      TotalPositive(chunks[1..], chunks[0].imgEnd + 1);
    }
  }

  lemma EntriesRest(chunks: seq<Chunk>, offset: int)
    requires chunks != []
    ensures Entries(chunks, offset)[0] == EntryOf(chunks[0], offset)
    ensures Entries(chunks, offset)[1..] == Entries(chunks[1..], offset)
  {
  }

  lemma SameBytes(disk: Disk, offset: int, start: int, n: nat)
    ensures DiskBytes(Partition(disk, offset), 512 * (start - offset), n) == DiskBytes(disk, 512 * start, n)
  {
  }

  lemma LinearFirst(es: seq<Entry>, from: int, e: Entry, rest: seq<Entry>)
    requires es != [] && es[0] == e && es[1..] == rest
    requires e.isoSector == from && e.sectorNum > 0 && 0 <= e.diskSector
    requires 512 * (e.diskSector + e.sectorNum) < 0x8000_0000_0000_0000
    requires Linear(rest, from + e.sectorNum) && Addressable(rest)
    ensures Linear(es, from) && Addressable(es) && TableSectors(es) == e.sectorNum + TableSectors(rest)
  {
    forall i | 0 <= i < |es| ensures 512 * (es[i].diskSector + es[i].sectorNum) < 0x8000_0000_0000_0000 {
      if i > 0 {
        assert es[i] == rest[i - 1];
      }
    }
  }

  lemma {:induction false} TableIsLinear(chunks: seq<Chunk>, offset: int, from: int)
    requires Contiguous(chunks, from) && 0 <= from && 4 * (from + TotalSectors(chunks)) < 0x1_0000_0000
    requires OnPartition(chunks, offset)
    ensures Linear(Entries(chunks, offset), 4 * from) && Addressable(Entries(chunks, offset))
    ensures TableSectors(Entries(chunks, offset)) == 4 * TotalSectors(chunks)
    decreases |chunks|
  {
    if chunks != [] {
      var c, rest := chunks[0], chunks[1..];
      TotalPositive(rest, c.imgEnd + 1);
      TableIsLinear(rest, offset, c.imgEnd + 1);
      EntryOfChunk(c, offset);
      EntriesRest(chunks, offset);
      var es, es' := Entries(chunks, offset), Entries(rest, offset);
      hide Linear, Addressable, EntryOf, TableSectors, Entries;
      LinearFirst(es, 4 * from, EntryOf(c, offset), es');
    }
  }

  /** The table of a chunk list stands for the same flat image, as long as that is below 2 TiB. */
  lemma {:induction false} TableIsImage(chunks: seq<Chunk>, offset: int, disk: Disk, from: int)
    requires Contiguous(chunks, from) && 0 <= from && 4 * (from + TotalSectors(chunks)) < 0x1_0000_0000
    requires OnPartition(chunks, offset)
    ensures TableBytes(Entries(chunks, offset), Partition(disk, offset)) == Image(chunks, disk)
    decreases |chunks|
  {
    if chunks != [] {
      var c, rest := chunks[0], chunks[1..];
      TotalPositive(rest, c.imgEnd + 1);
      TableIsImage(rest, offset, disk, c.imgEnd + 1);
      EntryOfChunk(c, offset);
      EntriesRest(chunks, offset);
      var n := 2048 * Sectors(c);
      SameBytes(disk, offset, c.diskStart, n);
      hide DiskBytes, Contiguous, OnPartition, EntryOf, Entries, Partition;
    }
  }

  /** Both readers, one on the chunks and one through the printed table, give the slice of the flat image. */
  method ReadBothWays(chunks: seq<Chunk>, disk: Disk, diskname: string, part: nat, offset: int, from: nat, n: nat,
                      memory: seq<Entry>)
    returns (a: array<byte>, b: array<byte>)
    requires |memory| == 65536 && forall i :: 0 <= i < 65536 ==> Fits(memory[i])
    requires Contiguous(chunks, 0) && OnPartition(chunks, offset) && |chunks| < 65536
    requires 4 * TotalSectors(chunks) < 0x1_0000_0000
    requires Word(Device(diskname, part)) && |Device(diskname, part)| < 128
    requires from + n <= |Image(chunks, disk)| && n < 0x1_0000_0000
    ensures fresh(a) && fresh(b)
    ensures a[..] == b[..] == Image(chunks, disk)[from..from + n]
  {
    a := ReadChunks(chunks, disk, from, n);
    b := ReadTable(chunks, disk, diskname, part, offset, from, n, memory);
  }

  method ReadChunks(chunks: seq<Chunk>, disk: Disk, from: nat, n: nat) returns (a: array<byte>)
    requires Contiguous(chunks, 0) && from + n <= |Image(chunks, disk)| && n < 0x1_0000_0000
    ensures fresh(a) && a[..] == Image(chunks, disk)[from..from + n]
  {
    var file := new IsoFile(chunks, disk);
    file.curPos := from;
    a := new byte[n];
    assert 1 * n % 0x1_0000_0000 == n;
    hide Contiguous, Image;
    var count := file.ReadFile(1, n, a);
  }

  method ReadTable(chunks: seq<Chunk>, disk: Disk, diskname: string, part: nat, offset: int, from: nat, n: nat,
                   memory: seq<Entry>)
    returns (b: array<byte>)
    requires |memory| == 65536 && forall i :: 0 <= i < 65536 ==> Fits(memory[i])
    requires Contiguous(chunks, 0) && OnPartition(chunks, offset) && |chunks| < 65536
    requires 4 * TotalSectors(chunks) < 0x1_0000_0000
    requires Word(Device(diskname, part)) && |Device(diskname, part)| < 128
    requires from + n <= |Image(chunks, disk)| && n < 0x1_0000_0000
    ensures fresh(b) && b[..] == Image(chunks, disk)[from..from + n]
  {
    hide *;
    var text := PrintTable(chunks, diskname, part, offset);
    var name := Device(diskname, part);
    TableRoundTrip(Entries(chunks, offset), name, memory);
    var t := ParseTable(text, memory);
    assert t.Table? && t.entries == Entries(chunks, offset);
    TableIsLinear(chunks, offset, 0);
    TableIsImage(chunks, offset, disk, 0);
    var mount := new Mount(t.entries, Partition(disk, offset));
    b := new byte[n];
    var count := mount.IsoRead(b, n, from);
    assert |b[..]| == n;
  }
}
