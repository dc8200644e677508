/** Disk images stored in fragments: the chunk list of the device-mapper tool, the image it stands
    for, and the tool's reader, which works in image sectors of 2048 bytes. */
module ImageMap {
  import opened Bytes

  /** A disk as the byte at every offset. */
  type Disk = int -> byte

  /** Image sectors imgStart to imgEnd lie in disk sectors diskStart to diskEnd, of 512 bytes. */
  datatype Chunk = Chunk(imgStart: int, imgEnd: int, diskStart: int, diskEnd: int)

  function DiskBytes(disk: Disk, offset: int, n: nat): (r: seq<byte>)
    ensures |r| == n && forall k :: 0 <= k < n ==> r[k] == disk(offset + k)
  {
    seq(n, k => disk(offset + k))
  }

  function Sectors(c: Chunk): int {
    c.imgEnd - c.imgStart + 1
  }

  /** A chunk list: contiguous from image sector `from` on, four disk sectors to an image sector. */
  predicate Contiguous(chunks: seq<Chunk>, from: int)
    decreases |chunks|
  {
    chunks == [] ||
    var c := chunks[0];
    && c.imgStart == from && Sectors(c) > 0 && 0 <= c.diskStart
    && c.diskEnd + 1 - c.diskStart == 4 * Sectors(c)
    && Contiguous(chunks[1..], c.imgEnd + 1)
  }

  function TotalSectors(chunks: seq<Chunk>): int {
    if chunks == [] then 0 else Sectors(chunks[0]) + TotalSectors(chunks[1..])
  }

  /** The flat image: the bytes of the chunks one after the other. */
  function Image(chunks: seq<Chunk>, disk: Disk): seq<byte> {
    if chunks == [] then []
    else
      var n := Sectors(chunks[0]);
      (if n > 0 then DiskBytes(disk, 512 * chunks[0].diskStart, 2048 * n) else []) + Image(chunks[1..], disk)
  }

  function Holds(c: Chunk, sector: int): bool {
    c.imgStart <= sector <= c.imgEnd
  }

  /** The disk sector where an image sector begins; 0 if no chunk holds it. */
  function MapSector(chunks: seq<Chunk>, sector: int): int {
    if chunks == [] then 0
    else if Holds(chunks[0], sector) then 4 * (sector - chunks[0].imgStart) + chunks[0].diskStart
    else MapSector(chunks[1..], sector)
  }

  method FindSector(chunks: seq<Chunk>, sector: int) returns (diskSector: int)
    ensures diskSector == MapSector(chunks, sector)
  {
    diskSector := 0;
    var i := 0;
    while i < |chunks|
      invariant 0 <= i <= |chunks| && diskSector == 0
      invariant MapSector(chunks, sector) == MapSector(chunks[i..], sector)
    {
      if Holds(chunks[i], sector) {
        diskSector := 4 * (sector - chunks[i].imgStart) + chunks[i].diskStart;
        break;
      }
      assert chunks[i..][1..] == chunks[i + 1..];
      i := i + 1;
    }
  }

  lemma {:induction false} ImageLength(chunks: seq<Chunk>, disk: Disk, from: int)
    requires Contiguous(chunks, from)
    ensures |Image(chunks, disk)| == 2048 * TotalSectors(chunks)
    decreases |chunks|
  {
    if chunks != [] {
      ImageLength(chunks[1..], disk, chunks[0].imgEnd + 1);
    }
  }

  lemma {:induction false} ImageAt(chunks: seq<Chunk>, disk: Disk, from: int, sector: int, k: nat)
    requires Contiguous(chunks, from) && k < 2048
    requires from <= sector < from + TotalSectors(chunks)
    ensures 2048 * (sector - from) + k < |Image(chunks, disk)|
    ensures Image(chunks, disk)[2048 * (sector - from) + k] == disk(512 * MapSector(chunks, sector) + k)
    decreases |chunks|
  {
    ImageLength(chunks, disk, from);
    var c := chunks[0];
    if !Holds(c, sector) {
      ImageAt(chunks[1..], disk, c.imgEnd + 1, sector, k);
    }
  }

  /** What the map says about a sector is what the image holds there. */
  lemma MapIsImage(chunks: seq<Chunk>, disk: Disk, sector: int)
    requires Contiguous(chunks, 0) && 0 <= sector < TotalSectors(chunks)
    ensures 2048 * sector + 2048 <= |Image(chunks, disk)|
    ensures DiskBytes(disk, 512 * MapSector(chunks, sector), 2048)
         == Image(chunks, disk)[2048 * sector..2048 * sector + 2048]
  {
    ImageLength(chunks, disk, 0);
    var a := DiskBytes(disk, 512 * MapSector(chunks, sector), 2048);
    var b := Image(chunks, disk)[2048 * sector..2048 * sector + 2048];
    forall k | 0 <= k < 2048 ensures a[k] == b[k] {
      ImageAt(chunks, disk, 0, sector, k);
    }
  }

  /** Reads n bytes of the disk into buf at p. */
  method ReadDisk(disk: Disk, offset: int, n: nat, buf: array<byte>, p: nat)
    requires p + n <= buf.Length
    modifies buf
    ensures buf[..] == old(buf[..p]) + DiskBytes(disk, offset, n) + old(buf[p + n..])
  {
    var bytes := DiskBytes(disk, offset, n);
    forall i | p <= i < p + n {
      buf[i] := bytes[i - p];
    }
  }

  /** Copies n bytes from src at q into buf at p. */
  method CopyBytes(src: array<byte>, q: nat, n: nat, buf: array<byte>, p: nat)
    requires p + n <= buf.Length && q + n <= src.Length && src != buf
    modifies buf
    ensures buf[..] == old(buf[..p]) + src[q..q + n] + old(buf[p + n..])
  {
    forall i | p <= i < p + n {
      buf[i] := src[q + (i - p)];
    }
  }

  lemma SliceOfSlice(s: seq<byte>, a: nat, m: nat, q: nat, n: nat)
    requires a + m <= |s| && q + n <= m
    ensures s[a..a + m][q..q + n] == s[a + q..a + q + n]
  {
    var t := s[a..a + m];
    assert forall i {:trigger t[q..q + n][i]} :: 0 <= i < n ==> t[q..q + n][i] == s[a + q + i];
  }

  /** The first n bytes read are those of an image from `from` on, and the rest of the buffer is untouched. */
  ghost predicate Filled(bytes: seq<byte>, buf: seq<byte>, before: seq<byte>, from: nat, n: nat) {
    && n <= |buf| == |before| && from + n <= |bytes|
    && buf[..n] == bytes[from..from + n] && buf[n..] == before[n..]
  }

  /** The next n bytes have been put in at p. */
  lemma FilledNext(bytes: seq<byte>, b0: seq<byte>, b1: seq<byte>, before: seq<byte>, from: nat, p: nat, n: nat)
    requires Filled(bytes, b0, before, from, p) && p + n <= |b0| && from + p + n <= |bytes|
    requires b1 == b0[..p] + bytes[from + p..from + p + n] + b0[p + n..]
    ensures Filled(bytes, b1, before, from, p + n)
  {
    assert b1[..p + n] == b0[..p] + bytes[from + p..from + p + n];
    assert b1[p + n..] == b0[p + n..] == before[p + n..];
  }

  lemma FilledStart(bytes: seq<byte>, before: seq<byte>, from: nat)
    requires from <= |bytes|
    ensures Filled(bytes, before, before, from, 0)
  {
  }

  lemma FilledDone(bytes: seq<byte>, buf: seq<byte>, before: seq<byte>, from: nat, n: nat)
    requires Filled(bytes, buf, before, from, n)
    ensures buf == bytes[from..from + n] + before[n..]
  {
    assert buf == buf[..n] + buf[n..];
  }

  /** An open image: its chunks, the disk they lie on, and the read position. */
  class IsoFile {
    const chunks: seq<Chunk>
    const disk: Disk
    const sectorBuf: array<byte>
    var curPos: nat

    ghost predicate Valid() {
      sectorBuf.Length == 2048 && Contiguous(chunks, 0)
    }

    ghost function Bytes(): seq<byte> {
      Image(chunks, disk)
    }

    constructor (list: seq<Chunk>, d: Disk)
      requires Contiguous(list, 0)
      ensures Valid() && chunks == list && disk == d && curPos == 0 && fresh(sectorBuf)
    {
      chunks, disk, curPos := list, d, 0;
      sectorBuf := new byte[2048];
    }

    /** One image sector into buf at p. */
    method ReadIsoSector(sector: int, buf: array<byte>, p: nat)
      requires Valid() && 0 <= sector && 2048 * sector < |Bytes()| && p + 2048 <= buf.Length
      modifies buf
      ensures 2048 * sector + 2048 <= |Bytes()|
      ensures buf[..] == old(buf[..p]) + Bytes()[2048 * sector..2048 * sector + 2048] + old(buf[p + 2048..])
    {
      ImageLength(chunks, disk, 0);
      MapIsImage(chunks, disk, sector);
      var diskSector := FindSector(chunks, sector);
      ReadDisk(disk, diskSector * 512, 2048, buf, p);
    }

    /** One image sector into the sector buffer, of which n bytes from q on are wanted. */
    method ReadToBuffer(sector: nat, q: nat, ghost n: nat)
      requires Valid() && q + n <= 2048 && 2048 * sector < |Bytes()|
      modifies sectorBuf
      ensures 2048 * sector + 2048 <= |Bytes()|
      ensures sectorBuf[q..q + n] == Bytes()[2048 * sector + q..2048 * sector + q + n]
    {
      assert sectorBuf.Length == 2048;
      hide *;
      ghost var b0 := sectorBuf[..];
      ReadIsoSector(sector, sectorBuf, 0);
      WholeBuffer(b0, sectorBuf[..], sector, q, n);
    }

    lemma WholeBuffer(b0: seq<byte>, b1: seq<byte>, sector: nat, q: nat, n: nat)
      requires |b0| == 2048 && q + n <= 2048 && 2048 * sector + 2048 <= |Bytes()|
      requires b1 == b0[..0] + Bytes()[2048 * sector..2048 * sector + 2048] + b0[2048..]
      ensures b1[q..q + n] == Bytes()[2048 * sector + q..2048 * sector + q + n]
    {
      hide *;
      assert b1 == Bytes()[2048 * sector..2048 * sector + 2048];
      SliceOfSlice(Bytes(), 2048 * sector, 2048, q, n);
    }

    /** The part of one image sector that begins at q, through the sector buffer. */
    method ReadPart(sector: nat, q: nat, n: nat, buf: array<byte>, p: nat, ghost before: seq<byte>, ghost from: nat)
      requires Valid() && buf != sectorBuf && q + n <= 2048 && curPos < |Bytes()|
      requires curPos == 2048 * sector + q == from + p && from + p + n <= |Bytes()| && p + n <= buf.Length
      requires Filled(Bytes(), buf[..], before, from, p)
      modifies this`curPos, sectorBuf, buf
      ensures curPos == old(curPos) + n && Filled(Bytes(), buf[..], before, from, p + n)
    {
      assert sectorBuf.Length == 2048;
      hide *;
      ghost var b0 := buf[..];
      ReadToBuffer(sector, q, n);
      CopyBytes(sectorBuf, q, n, buf, p);
      FilledNext(Bytes(), b0, buf[..], before, from, p, n);
      curPos := curPos + n;
    }

    method ReadWhole(buf: array<byte>, p: nat, ghost before: seq<byte>, ghost from: nat)
      requires Valid() && buf != sectorBuf
      requires curPos % 2048 == 0 && curPos == from + p && from + p + 2048 <= |Bytes()| && p + 2048 <= buf.Length
      requires Filled(Bytes(), buf[..], before, from, p)
      modifies this`curPos, buf
      ensures curPos == old(curPos) + 2048 && Filled(Bytes(), buf[..], before, from, p + 2048)
    {
      hide *;
      ghost var b0 := buf[..];
      ReadIsoSector(curPos / 2048, buf, p);
      FilledNext(Bytes(), b0, buf[..], before, from, p, 2048);
      curPos := curPos + 2048;
    }

    /** Whole sectors from a sector boundary on, and then the part that is left. */
    method ReadAligned(start: nat, left: nat, buf: array<byte>, ghost before: seq<byte>, ghost from: nat)
      requires Valid() && buf != sectorBuf && |Bytes()| % 2048 == 0
      requires curPos == from + start && from + start + left <= |Bytes()| && start + left <= buf.Length
      requires left > 0 ==> curPos % 2048 == 0
      requires Filled(Bytes(), buf[..], before, from, start)
      modifies this`curPos, sectorBuf, buf
      ensures curPos == old(curPos) + left && Filled(Bytes(), buf[..], before, from, start + left)
    {
      hide *;
      var readlen, cur := left, start;
      while readlen > 2048
        invariant 0 <= readlen && cur + readlen == start + left && curPos == from + cur
        invariant readlen > 0 ==> curPos % 2048 == 0
        invariant Filled(Bytes(), buf[..], before, from, cur)
      {
        ReadWhole(buf, cur, before, from);
        cur := cur + 2048;
        readlen := readlen - 2048;
      }
      if readlen > 0 {
        ReadPart(curPos / 2048, 0, readlen, buf, cur, before, from);
      }
    }

    /** Reads blkSize * blkNum bytes, a product of 32 bits, from the read position on. */
    method ReadFile(blkSize: nat, blkNum: nat, buf: array<byte>) returns (count: nat)
      requires Valid() && buf != sectorBuf
      requires curPos + blkSize * blkNum % 0x1_0000_0000 <= |Bytes()|
      requires blkSize * blkNum % 0x1_0000_0000 <= buf.Length
      modifies this`curPos, sectorBuf, buf
      ensures count == blkSize * blkNum % 0x1_0000_0000 && curPos == old(curPos) + count
      ensures buf[..] == Bytes()[old(curPos)..old(curPos) + count] + old(buf[count..])
    {
      var total := blkSize * blkNum % 0x1_0000_0000;
      ReadBytes(total, buf);
      count := total;
    }

    method ReadBytes(total: nat, buf: array<byte>)
      requires Valid() && buf != sectorBuf
      requires curPos + total <= |Bytes()| && total <= buf.Length
      modifies this`curPos, sectorBuf, buf
      ensures curPos == old(curPos) + total
      ensures buf[..] == Bytes()[old(curPos)..old(curPos) + total] + old(buf[total..])
    {
      ghost var before, from := buf[..], curPos;
      ImageLength(chunks, disk, 0);
      FilledStart(Bytes(), before, from);
      assert |Bytes()| % 2048 == 0;
      hide *;
      var cur := ReadUnaligned(total, buf, before, from);
      ReadAligned(cur, total - cur, buf, before, from);
      FilledDone(Bytes(), buf[..], before, from, total);
    }

    /** The part of a sector up to its end, or all that is wanted, if the position is not at a sector boundary. */
    method ReadUnaligned(total: nat, buf: array<byte>, ghost before: seq<byte>, ghost from: nat) returns (cur: nat)
      requires Valid() && buf != sectorBuf && total <= buf.Length
      requires curPos == from && from + total <= |Bytes()| && |Bytes()| % 2048 == 0
      requires Filled(Bytes(), buf[..], before, from, 0)
      modifies this`curPos, sectorBuf, buf
      ensures cur <= total && curPos == old(curPos) + cur && (cur < total ==> curPos % 2048 == 0)
      ensures Filled(Bytes(), buf[..], before, from, cur)
    {
      hide *;
      cur := 0;
      var pos := curPos % 2048;
      if pos > 0 {
        var align := 2048 - pos;
        cur := if total > align then align else total;
        ReadPart(curPos / 2048, pos, cur, buf, 0, before, from);
      }
    }
  }
}
