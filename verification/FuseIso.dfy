/** The FUSE view of a fragmented image: a device-mapper table in disk sectors of 512 bytes. */
module FuseIso {
  import opened Bytes
  import opened ImageMap

  /** sectorNum sectors of the image from isoSector on lie on the disk from diskSector on. */
  datatype Entry = Entry(isoSector: int, sectorNum: int, diskSector: int)

  predicate Linear(entries: seq<Entry>, from: int)
    decreases |entries|
  {
    entries == [] ||
    var e := entries[0];
    && e.isoSector == from && e.sectorNum > 0 && 0 <= e.diskSector
    && Linear(entries[1..], from + e.sectorNum)
  }

  /** Byte offsets on the disk fit in off_t. */
  predicate Addressable(entries: seq<Entry>) {
    forall i :: 0 <= i < |entries| ==> 512 * (entries[i].diskSector + entries[i].sectorNum) < 0x8000_0000_0000_0000
  }

  function TableSectors(entries: seq<Entry>): int {
    if entries == [] then 0 else entries[0].sectorNum + TableSectors(entries[1..])
  }

  /** The bytes the table stands for. */
  function TableBytes(entries: seq<Entry>, disk: Disk): seq<byte> {
    if entries == [] then []
    else
      var e := entries[0];
      (if e.sectorNum > 0 then DiskBytes(disk, 512 * e.diskSector, 512 * e.sectorNum) else [])
      + TableBytes(entries[1..], disk)
  }

  lemma {:induction false} TableLength(entries: seq<Entry>, disk: Disk, from: int)
    requires Linear(entries, from)
    ensures |TableBytes(entries, disk)| == 512 * TableSectors(entries)
    decreases |entries|
  {
    if entries != [] {
      TableLength(entries[1..], disk, from + entries[0].sectorNum);
    }
  }

  /** The entries before entry i end where it begins. */
  lemma {:induction false} EntryPlace(entries: seq<Entry>, from: int, i: nat)
    requires Linear(entries, from) && i < |entries|
    ensures from <= entries[i].isoSector && entries[i].isoSector + entries[i].sectorNum <= from + TableSectors(entries)
    ensures 0 <= entries[i].diskSector && entries[i].sectorNum > 0
    ensures i > 0 ==> from + entries[0].sectorNum <= entries[i].isoSector
    ensures Linear(entries[i..], entries[i].isoSector)
    decreases |entries|
  {
    if i > 0 {
      EntryPlace(entries[1..], from + entries[0].sectorNum, i - 1);
      assert entries[1..][i - 1..] == entries[i..];
    } else {
      assert entries[0..] == entries;
      if |entries| > 1 {
        EntryPlace(entries[1..], from + entries[0].sectorNum, |entries| - 2);
      }
    }
  }

  /** Entry i of a table, byte by byte. */
  lemma {:induction false} EntryAt(entries: seq<Entry>, disk: Disk, from: int, i: nat, j: nat)
    requires Linear(entries, from) && i < |entries| && j < 512 * entries[i].sectorNum
    ensures from <= entries[i].isoSector && entries[i].isoSector + entries[i].sectorNum <= from + TableSectors(entries)
    ensures 0 <= entries[i].diskSector && entries[i].sectorNum > 0
    ensures Linear(entries[i..], entries[i].isoSector)
    ensures 512 * (entries[i].isoSector - from) + j < |TableBytes(entries, disk)|
    ensures TableBytes(entries, disk)[512 * (entries[i].isoSector - from) + j] == disk(512 * entries[i].diskSector + j)
    decreases |entries|
  {
    EntryPlace(entries, from, i);
    TableLength(entries, disk, from);
    hide TableBytes, TableSectors;
    var at := 512 * (entries[i].isoSector - from) + j;
    TableAt(entries, disk, at);
    if i > 0 {
      var next := from + entries[0].sectorNum;
      EntryAt(entries[1..], disk, next, i - 1, j);
      assert entries[1..][i - 1] == entries[i];
      assert at - 512 * entries[0].sectorNum == 512 * (entries[i].isoSector - next) + j;
    }
  }

  /** A byte of the table is one of its first entry or one of the others. */
  lemma TableAt(entries: seq<Entry>, disk: Disk, j: int)
    requires entries != [] && entries[0].sectorNum > 0
    ensures var n, rest := 512 * entries[0].sectorNum, TableBytes(entries[1..], disk);
            && |TableBytes(entries, disk)| == n + |rest|
            && (0 <= j < n ==> TableBytes(entries, disk)[j] == disk(512 * entries[0].diskSector + j))
            && (n <= j < n + |rest| ==> TableBytes(entries, disk)[j] == rest[j - n])
  {
    hide TableSectors, Linear;
  }

  /** n sectors from the q-th sector of entry i on. */
  lemma EntryRun(entries: seq<Entry>, disk: Disk, i: nat, q: nat, n: nat)
    requires Linear(entries, 0) && i < |entries| && 0 < n && q + n <= entries[i].sectorNum
    ensures var s := entries[i].isoSector + q;
            && 0 <= s && 512 * (s + n) <= |TableBytes(entries, disk)|
            && DiskBytes(disk, 512 * (entries[i].diskSector + q), 512 * n)
                == TableBytes(entries, disk)[512 * s..512 * (s + n)]
  {
    hide *;
    var e := entries[i];
    var s := e.isoSector + q;
    EntryAt(entries, disk, 0, i, 512 * (q + n) - 1);
    var a, b := DiskBytes(disk, 512 * (e.diskSector + q), 512 * n), TableBytes(entries, disk)[512 * s..512 * (s + n)];
    forall j | 0 <= j < 512 * n ensures a[j] == b[j] {
      EntryAt(entries, disk, 0, i, 512 * q + j);
    }
  }

  /** The next entry begins where entry i ends; the last one ends with the table. */
  lemma {:induction false} NextEntry(entries: seq<Entry>, from: int, i: nat)
    requires Linear(entries, from) && i < |entries|
    ensures entries[0].isoSector == from <= entries[i].isoSector && entries[i].sectorNum > 0
    ensures entries[i].isoSector + entries[i].sectorNum <= from + TableSectors(entries)
    ensures entries[i].isoSector + entries[i].sectorNum
         == if i + 1 < |entries| then entries[i + 1].isoSector else from + TableSectors(entries)
    decreases |entries|
  {
    var next := from + entries[0].sectorNum;
    if i > 0 {
      NextEntry(entries[1..], next, i - 1);
    } else if |entries| > 1 {
      NextEntry(entries[1..], next, 0);
    }
  }

  class Mount {
    const entries: seq<Entry>
    const disk: Disk
    const secBuf: array<byte>

    ghost predicate Valid() {
      && secBuf.Length == 512 && Linear(entries, 0) && Addressable(entries)
      && TableSectors(entries) < 0x1_0000_0000
    }

    ghost function Bytes(): seq<byte> {
      TableBytes(entries, disk)
    }

    constructor (table: seq<Entry>, d: Disk)
      requires Linear(table, 0) && Addressable(table) && TableSectors(table) < 0x1_0000_0000
      ensures Valid() && entries == table && disk == d && fresh(secBuf) && Bytes() == TableBytes(table, d)
    {
      entries, disk := table, d;
      secBuf := new byte[512];
    }

    /** The size the mount reports, a sum over the entries. */
    function FileSize(): int {
      512 * TableSectors(entries)
    }

    /** What reading leaves in a buffer: sectors sector to sector + n of the image at p. */
    ghost predicate Holding(buf: seq<byte>, before: seq<byte>, p: nat, sector: nat, n: nat) {
      && |buf| == |before| && p + 512 * n <= |buf| && 512 * (sector + n) <= |Bytes()|
      && buf == before[..p] + Bytes()[512 * sector..512 * (sector + n)] + before[p + 512 * n..]
    }

    lemma HoldingNext(b0: seq<byte>, b1: seq<byte>, before: seq<byte>, p: nat, sector: nat, done: nat, n: nat)
      requires Holding(b0, before, p, sector, done)
      requires p + 512 * (done + n) <= |before| && 512 * (sector + done + n) <= |Bytes()|
      requires b1 == b0[..p + 512 * done] + Bytes()[512 * (sector + done)..512 * (sector + done + n)]
                     + b0[p + 512 * (done + n)..]
      ensures Holding(b1, before, p, sector, done + n)
    {
      var all := Bytes();
      hide TableBytes, Bytes;
      var x, y := all[512 * sector..512 * (sector + done)], all[512 * (sector + done)..512 * (sector + done + n)];
      assert b0[..p + 512 * done] == before[..p] + x;
      assert b0[p + 512 * (done + n)..] == before[p + 512 * (done + n)..];
      assert x + y == all[512 * sector..512 * (sector + done + n)];
    }

    lemma Fits(i: nat, q: nat, n: nat)
      requires Valid() && i < |entries| && 0 < n && q + n <= entries[i].sectorNum
      ensures 0 <= entries[i].isoSector
      ensures (entries[i].diskSector + q) * 512 % 0x1_0000_0000_0000_0000 == 512 * (entries[i].diskSector + q)
    {
      NextEntry(entries, 0, i);
      EntryAt(entries, disk, 0, i, 0);
      assert 512 * (entries[i].diskSector + entries[i].sectorNum) < 0x8000_0000_0000_0000;
    }

    lemma RunFacts(i: nat, q: nat, n: nat)
      requires Valid() && i < |entries| && 0 < n && q + n <= entries[i].sectorNum && 512 * n < 0x1_0000_0000
      ensures 0 <= entries[i].isoSector
      ensures (entries[i].diskSector + q) * 512 % 0x1_0000_0000_0000_0000 == 512 * (entries[i].diskSector + q)
      ensures n * 512 % 0x1_0000_0000 == 512 * n
      ensures 512 * (entries[i].isoSector + q + n) <= |Bytes()|
      ensures DiskBytes(disk, 512 * (entries[i].diskSector + q), 512 * n)
           == Bytes()[512 * (entries[i].isoSector + q)..512 * (entries[i].isoSector + q + n)]
    {
      Fits(i, q, n);
      EntryRun(entries, disk, i, q, n);
      NextEntry(entries, 0, i);
      hide TableBytes, DiskBytes, Linear, Addressable, TableSectors;
    }

    /** n sectors from the q-th sector of entry i on, into buf at p; offset and length have 32 or 64 bits. */
    method ReadRun(i: nat, q: nat, n: nat, buf: array<byte>, p: nat)
      requires Valid() && i < |entries| && 0 < n && q + n <= entries[i].sectorNum
      requires 512 * n < 0x1_0000_0000 && p + 512 * n <= buf.Length
      modifies buf
      ensures 0 <= entries[i].isoSector
      ensures 512 * (entries[i].isoSector + q + n) <= |Bytes()|
      ensures buf[..] == old(buf[..p])
                       + Bytes()[512 * (entries[i].isoSector + q)..512 * (entries[i].isoSector + q + n)]
                       + old(buf[p + 512 * n..])
    {
      RunFacts(i, q, n);
      hide *;
      var offset := (entries[i].diskSector + q) * 512 % 0x1_0000_0000_0000_0000;
      ReadDisk(disk, offset, n * 512 % 0x1_0000_0000, buf, p);
    }

    /** Sectors sector to sector + num of the image, into buf at p. */
    method ReadSectors(sector: nat, num: nat, buf: array<byte>, p: nat)
      requires Valid() && 512 * (sector + num) <= |Bytes()| && 512 * num < 0x1_0000_0000 && p + 512 * num <= buf.Length
      modifies buf
      ensures Holding(buf[..], old(buf[..]), p, sector, num)
    {
      hide *;
      ghost var before := buf[..];
      HoldingNone(before, p, sector);
      if num > 0 {
        FirstEntry(sector, num);
      }
      var cur, left := sector, num;
      var i := 0;
      while i < |entries| && left > 0
        invariant 0 <= i <= |entries| && 0 <= left && sector <= cur && cur + left == sector + num
        invariant left > 0 ==> i < |entries| && 0 <= entries[i].isoSector <= cur
        invariant Holding(buf[..], before, p, sector, cur - sector)
      {
        cur, left := ReadEntry(i, cur, left, buf, p + 512 * (cur - sector), p, before, sector);
        i := i + 1;
      }
    }

    lemma FirstEntry(sector: nat, num: nat)
      requires Valid() && 512 * (sector + num) <= |Bytes()| && num > 0
      ensures |entries| > 0 && entries[0].isoSector == 0
    {
    }

    lemma HoldingNone(before: seq<byte>, p: nat, sector: nat)
      requires p <= |before| && 512 * sector <= |Bytes()|
      ensures Holding(before, before, p, sector, 0)
    {
    }

    lemma EntryBounds(i: nat)
      requires Valid() && i < |entries|
      ensures 0 <= entries[i].isoSector && 0 < entries[i].sectorNum
      ensures (entries[i].isoSector + entries[i].sectorNum) % 0x1_0000_0000
           == entries[i].isoSector + entries[i].sectorNum
      ensures 512 * (entries[i].isoSector + entries[i].sectorNum) <= |Bytes()|
      ensures if i + 1 < |entries| then entries[i].isoSector + entries[i].sectorNum == entries[i + 1].isoSector
              else 512 * (entries[i].isoSector + entries[i].sectorNum) == |Bytes()|
    {
      NextEntry(entries, 0, i);
      TableLength(entries, disk, 0);
    }

    /** What entry i gives of the left sectors from cur on. */
    method ReadEntry(i: nat, cur: nat, left: nat, buf: array<byte>, q: nat,
                     ghost p: nat, ghost before: seq<byte>, ghost sector: nat)
      returns (cur': nat, left': nat)
      requires Valid() && i < |entries| && 0 < left && sector <= cur && 0 <= entries[i].isoSector <= cur
      requires 512 * (cur + left) <= |Bytes()| && 512 * left < 0x1_0000_0000
      requires q == p + 512 * (cur - sector) && q + 512 * left <= buf.Length == |before|
      requires Holding(buf[..], before, p, sector, cur - sector)
      modifies buf
      ensures cur <= cur' && cur' + left' == cur + left
      ensures left' > 0 ==> i + 1 < |entries| && 0 <= entries[i + 1].isoSector <= cur'
      ensures Holding(buf[..], before, p, sector, cur' - sector)
    {
      hide *;
      cur', left' := cur, left;
      EntryBounds(i);
      var e := entries[i];
      if e.isoSector <= cur < (e.isoSector + e.sectorNum) % 0x1_0000_0000 {
        var leftSec := e.sectorNum - (cur - e.isoSector);
        var readSec := if leftSec > left then left else leftSec;
        ghost var b0 := buf[..];
        ReadRun(i, cur - e.isoSector, readSec, buf, q);
        HoldingNext(b0, buf[..], before, p, sector, cur - sector, readSec);
        cur', left' := cur + readSec, left - readSec;
      }
    }

    /** One sector of the image into the sector buffer. */
    method ReadSecBuf(sector: nat)
      requires Valid() && 512 * sector < |Bytes()|
      modifies secBuf
      ensures 512 * (sector + 1) <= |Bytes()| && secBuf[..] == Bytes()[512 * sector..512 * (sector + 1)]
    {
      TableLength(entries, disk, 0);
      assert |Bytes()| == 512 * TableSectors(entries);
      assert secBuf.Length == 512;
      hide Valid, Bytes, Linear, Addressable, TableSectors, TableBytes;
      ReadSectors(sector, 1, secBuf, 0);
    }

    /** n bytes from byte q of a sector on, by way of the sector buffer, into buf at p. */
    method ReadPiece(sector: nat, q: nat, n: nat, buf: array<byte>, p: nat, ghost before: seq<byte>, ghost from: nat)
      requires Valid() && buf != secBuf && q + n <= 512 && 512 * sector < |Bytes()|
      requires from + p == 512 * sector + q && p + n <= buf.Length
      requires Filled(Bytes(), buf[..], before, from, p)
      modifies secBuf, buf
      ensures Filled(Bytes(), buf[..], before, from, p + n)
    {
      assert secBuf.Length == 512;
      hide *;
      ghost var b0 := buf[..];
      ReadSecBuf(sector);
      CopyBytes(secBuf, q, n, buf, p);
      SliceOfSlice(Bytes(), 512 * sector, 512, q, n);
      SecBufSlice(secBuf[..], q, n);
      FilledNext(Bytes(), b0, buf[..], before, from, p, n);
    }

    lemma SecBufSlice(s: seq<byte>, q: nat, n: nat)
      requires q + n <= |s| && |s| == secBuf.Length && s == secBuf[..]
      ensures secBuf[q..q + n] == s[q..q + n]
    {
    }

    /** number whole sectors into buf at p. */
    method ReadWholes(sector: nat, number: nat, buf: array<byte>, p: nat, ghost before: seq<byte>, ghost from: nat)
      requires Valid() && from + p == 512 * sector && p + 512 * number <= buf.Length
      requires 512 * (sector + number) <= |Bytes()| && 512 * number < 0x1_0000_0000
      requires Filled(Bytes(), buf[..], before, from, p)
      modifies buf
      ensures Filled(Bytes(), buf[..], before, from, p + 512 * number)
    {
      hide *;
      ghost var b0 := buf[..];
      ReadSectors(sector, number, buf, p);
      HoldingIs(b0, buf[..], p, sector, number);
      FilledNext(Bytes(), b0, buf[..], before, from, p, 512 * number);
    }

    lemma HoldingIs(b0: seq<byte>, b1: seq<byte>, p: nat, sector: nat, n: nat)
      requires Holding(b1, b0, p, sector, n)
      ensures p + 512 * n <= |b0| && 512 * (sector + n) <= |Bytes()|
      ensures b1 == b0[..p] + Bytes()[512 * sector..512 * (sector + n)] + b0[p + 512 * n..]
    {
    }

    /** From a sector boundary on: whole sectors straight into the buffer, then the part that is left. */
    method ReadRest(sector: nat, leftsize: nat, buf: array<byte>, p: nat, ghost before: seq<byte>, ghost from: nat)
      requires Valid() && buf != secBuf && leftsize < 0x1_0000_0000 && |Bytes()| % 512 == 0
      requires from + p == 512 * sector && p + leftsize <= buf.Length && from + p + leftsize <= |Bytes()|
      requires Filled(Bytes(), buf[..], before, from, p)
      modifies secBuf, buf
      ensures Filled(Bytes(), buf[..], before, from, p + leftsize)
    {
      hide *;
      var number, mod := leftsize / 512, leftsize % 512;
      ReadWholes(sector, number, buf, p, before, from);
      if mod > 0 {
        ReadPiece(sector + number, 0, mod, buf, p + 512 * number, before, from);
      }
    }

    /** The read callback: at most size bytes from offset on, none beyond the end of the image. */
    method IsoRead(buf: array<byte>, size: nat, offset: nat) returns (count: nat)
      requires Valid() && buf != secBuf && size <= buf.Length && size < 0x1_0000_0000
      modifies secBuf, buf
      ensures count == if offset >= |Bytes()| then 0 else if offset + size > |Bytes()| then |Bytes()| - offset else size
      ensures count > 0 ==> buf[..] == Bytes()[offset..offset + count] + old(buf[count..])
      ensures count == 0 ==> buf[..] == old(buf[..])
    {
      count := 0;
      TableLength(entries, disk, 0);
      assert FileSize() == |Bytes()|;
      if offset >= FileSize() {
        return;
      }
      count := size;
      if offset + size > FileSize() {
        count := FileSize() - offset;
      }
      ReadBytes(buf, count, offset);
    }

    method ReadBytes(buf: array<byte>, size: nat, offset: nat)
      requires Valid() && buf != secBuf && size <= buf.Length && size < 0x1_0000_0000
      requires offset + size <= |Bytes()| && offset < |Bytes()|
      modifies secBuf, buf
      ensures buf[..] == Bytes()[offset..offset + size] + old(buf[size..])
    {
      ghost var before := buf[..];
      TableLength(entries, disk, 0);
      assert |Bytes()| == 512 * TableSectors(entries);
      assert TableSectors(entries) < 0x1_0000_0000;
      hide *;
      FilledStart(Bytes(), before, offset);
      var sector, mod := offset / 512 % 0x1_0000_0000, offset % 512;
      var leftsize, cur := size, 0;
      if mod > 0 {
        var align := 512 - mod;
        if leftsize > align {
          ReadPiece(sector, mod, align, buf, cur, before, offset);
          cur, sector, leftsize := cur + align, sector + 1, leftsize - align;
        } else {
          ReadPiece(sector, mod, leftsize, buf, cur, before, offset);
          FilledDone(Bytes(), buf[..], before, offset, size);
          return;
        }
      }
      ReadRest(sector, leftsize, buf, cur, before, offset);
      FilledDone(Bytes(), buf[..], before, offset, size);
    }
  }
}
