/** The 32 MiB partition image in memory: one buffer if there is one that large, or 32 buffers of one mebibyte. */
module SplitImage {
  import opened Bytes

  /** A flat store of 32 MiB. */
  type Flat = s: seq<byte> | |s| == 0x200_0000 witness seq(0x200_0000, _ => 0)

  /** One piece, and the next one behind it. */
  lemma SplicedNext(flat: Flat, lo: int, a: seq<byte>, b: seq<byte>)
    requires 0 <= lo && lo + |a| + |b| <= 0x200_0000
    ensures Splice(Splice(flat, lo, a), lo + |a|, b) == Splice(flat, lo, a + b)
  {
    var x, y := Splice(Splice(flat, lo, a), lo + |a|, b), Splice(flat, lo, a + b);
    assert forall k :: 0 <= k < 0x200_0000 ==> x[k] == y[k];
  }

  lemma SplicedNone(flat: Flat, lo: int)
    requires 0 <= lo <= 0x200_0000
    ensures Splice(flat, lo, []) == flat
  {
  }

  class Store {
    var bufs: seq<array?<byte>>
    var written: int
    var pos: array?<byte>
    var at: int

    ghost predicate Valid()
      reads this
    {
      && |bufs| == 32 && bufs[0] != null
      && if bufs[1] == null then bufs[0].Length == 0x200_0000
         else
           && (forall i :: 0 <= i < 32 ==> bufs[i] != null && bufs[i].Length == 0x10_0000)
           && (forall i, j :: 0 <= i < j < 32 ==> bufs[i] != bufs[j])
    }

    ghost function ByteAt(off: int): byte
      requires Valid() && 0 <= off < 0x200_0000
      reads this, bufs
    {
      if bufs[1] == null then bufs[0][off] else bufs[off / 0x10_0000][off % 0x10_0000]
    }

    /** The flat store that the buffers stand for. */
    ghost function Image(): (f: Flat)
      requires Valid()
      reads this, bufs
      ensures forall off :: 0 <= off < 0x200_0000 ==> f[off] == ByteAt(off)
    {
      seq(0x200_0000, off requires Valid() && 0 <= off < 0x200_0000 reads this, bufs => ByteAt(off))
    }

    /** The bytes from lo on are these, and the others are as in the store before. */
    ghost predicate Put(before: Flat, lo: int, bytes: seq<byte>)
      requires Valid()
      reads this, bufs
    {
      forall off :: 0 <= off < 0x200_0000 ==>
        ByteAt(off) == if lo <= off < lo + |bytes| then bytes[off - lo] else before[off]
    }

    lemma PutImage(before: Flat, lo: int, bytes: seq<byte>)
      requires Valid() && 0 <= lo && lo + |bytes| <= 0x200_0000 && Put(before, lo, bytes)
      ensures Image() == Splice(before, lo, bytes)
    {
      var a, b := Image(), Splice(before, lo, bytes);
      assert |a| == |b|;
      assert forall off :: 0 <= off < 0x200_0000 ==> a[off] == b[off];
    }

    /** The cursor of the decompressor: where the next byte goes, or nothing when all of them are there. */
    ghost predicate Flushing()
      reads this
    {
      && Valid() && bufs[1] != null && 0 <= written <= 0x200_0000
      && if written == 0x200_0000 then pos == null
         else pos == bufs[written / 0x10_0000] && at == written % 0x10_0000
    }

    /** One buffer for all of the image. */
    constructor Large()
      ensures Valid() && bufs[1] == null
      ensures forall i :: 0 <= i < 32 ==> bufs[i] == null || fresh(bufs[i])
    {
      var b := new byte[0x200_0000];
      bufs := seq(32, i => if i == 0 then b else null);
      written, pos, at := 0, b, 0;
    }

    /** 32 buffers of one mebibyte, and the cursor at the first of them. */
    constructor Split()
      ensures Flushing() && bufs[1] != null && written == 0
      ensures forall i :: 0 <= i < 32 ==> bufs[i] == null || fresh(bufs[i])
    {
      bufs, written, pos, at := [], 0, null, 0;
      new;
      while |bufs| < 32
        invariant |bufs| <= 32 && pos == null && written == 0 && at == 0
        invariant forall i :: 0 <= i < |bufs| ==> bufs[i] != null && bufs[i].Length == 0x10_0000 && fresh(bufs[i])
        invariant forall i, j :: 0 <= i < j < |bufs| ==> bufs[i] != bufs[j]
      {
        var b := new byte[0x10_0000];
        bufs := bufs + [b];
      }
      pos := bufs[0];
    }

    /** Puts the bytes in one after the other, going on in the next buffer after each mebibyte. */
    method Flush(src: seq<byte>)
      requires Flushing() && written + |src| <= 0x200_0000
      modifies this`written, this`pos, this`at, bufs
      ensures Flushing() && bufs == old(bufs) && written == old(written) + |src|
      ensures Image() == Splice(old(Image()), old(written), src)
    {
      ghost var before := Image();
      var i := 0;
      while i < |src|
        invariant 0 <= i <= |src| && Flushing() && bufs == old(bufs) && written == old(written) + i
        invariant Put(before, old(written), src[..i])
      {
        FlushByte(src[i]);
        i := i + 1;
      }
      assert src[..i] == src;
      PutImage(before, old(written), src);
    }

    method FlushByte(b: byte)
      requires Flushing() && written < 0x200_0000
      modifies this`written, this`pos, this`at, pos
      ensures Flushing() && bufs == old(bufs) && written == old(written) + 1
      ensures Put(old(Image()), old(written), [b])
    {
      pos[at] := b;
      written := written + 1;
      if written % 0x10_0000 == 0 {
        pos := if written / 0x10_0000 < 32 then bufs[written / 0x10_0000] else null;
        at := 0;
      } else {
        at := at + 1;
      }
    }

    /** 512 bytes at an offset, in whichever buffer it lies. */
    method WriteSector(offset: int, data: seq<byte>)
      requires Valid() && 0 <= offset && offset % 512 == 0 && offset + 512 <= 0x200_0000 && |data| == 512
      modifies bufs
      ensures Valid() && Image() == Splice(old(Image()), offset, data)
    {
      var buf, o := bufs[0], offset;
      if bufs[1] != null {
        buf, o := bufs[offset / 0x10_0000], offset % 0x10_0000;
      }
      forall j | o <= j < o + 512 {
        buf[j] := data[j - o];
      }
      forall off | 0 <= off < 0x200_0000
        ensures ByteAt(off) == if offset <= off < offset + 512 then data[off - offset] else old(ByteAt(off))
      {
        SameChunk(offset, off);
      }
      PutImage(old(Image()), offset, data);
    }

    method ReadSector(offset: int) returns (data: seq<byte>)
      requires Valid() && 0 <= offset && offset % 512 == 0 && offset + 512 <= 0x200_0000
      ensures |data| == 512 && forall j :: 0 <= j < 512 ==> data[j] == ByteAt(offset + j)
    {
      var buf, o := bufs[0], offset;
      if bufs[1] != null {
        buf, o := bufs[offset / 0x10_0000], offset % 0x10_0000;
      }
      data := buf[o..o + 512];
      forall j | 0 <= j < 512 ensures data[j] == ByteAt(offset + j) {
        SameChunk(offset, offset + j);
      }
    }

    method MemWrite(sector: int, data: seq<byte>, count: int)
      requires Valid() && 0 <= sector && 0 <= count && 512 * (sector + count) <= 0x200_0000 && |data| == 512 * count
      modifies bufs
      ensures Valid() && Image() == Splice(old(Image()), 512 * sector, data)
    {
      ghost var before := Image();
      SplicedNone(before, 512 * sector);
      var i := 0;
      while i < count
        invariant 0 <= i <= count && Valid() && Done(before, sector, i, data)
      {
        hide *;
        WriteNext(sector, i, count, data, before);
        i := i + 1;
      }
      assert data[..512 * i] == data;
    }

    /** The first i sectors of the data are in. */
    ghost predicate Done(before: Flat, sector: int, i: int, data: seq<byte>)
      requires Valid() && 0 <= sector && 0 <= i && 512 * (sector + i) <= 0x200_0000 && 512 * i <= |data|
      reads this, bufs
    {
      Image() == Splice(before, 512 * sector, data[..512 * i])
    }

    method WriteNext(sector: int, i: int, ghost count: int, data: seq<byte>, ghost before: Flat)
      requires Valid() && 0 <= sector && 0 <= i < count && 512 * (sector + count) <= 0x200_0000 && |data| == 512 * count
      requires Done(before, sector, i, data)
      modifies bufs
      ensures Valid() && Done(before, sector, i + 1, data)
    {
      hide *;
      DoneIs(before, sector, i, data);
      var piece := data[512 * i..512 * i + 512];
      SplicedNext(before, 512 * sector, data[..512 * i], piece);
      assert data[..512 * i] + piece == data[..512 * (i + 1)];
      WriteSector((sector + i) * 512 % 0x1_0000_0000, piece);
      DoneIs(before, sector, i + 1, data);
    }

    lemma DoneIs(before: Flat, sector: int, i: int, data: seq<byte>)
      requires Valid() && 0 <= sector && 0 <= i && 512 * (sector + i) <= 0x200_0000 && 512 * i <= |data|
      ensures Done(before, sector, i, data) <==> Image() == Splice(before, 512 * sector, data[..512 * i])
    {
    }

    method MemRead(sector: int, count: int) returns (data: seq<byte>)
      requires Valid() && 0 <= sector && 0 <= count && 512 * (sector + count) <= 0x200_0000
      ensures data == Image()[512 * sector..512 * (sector + count)]
    {
      data := [];
      var i := 0;
      while i < count
        invariant 0 <= i <= count && |data| == 512 * i
        invariant forall j :: 0 <= j < |data| ==> data[j] == ByteAt(512 * sector + j)
      {
        var piece := ReadSector((sector + i) * 512 % 0x1_0000_0000);
        data := data + piece;
        i := i + 1;
      }
    }
  }

  /** A sector does not cross from one buffer into the next. */
  lemma SameChunk(offset: int, off: int)
    requires 0 <= offset && offset % 512 == 0 && 0 <= off
    ensures offset <= off < offset + 512 <==>
            off / 0x10_0000 == offset / 0x10_0000 && offset % 0x10_0000 <= off % 0x10_0000 < offset % 0x10_0000 + 512
    ensures offset <= off < offset + 512 ==> off % 0x10_0000 - offset % 0x10_0000 == off - offset
    ensures offset % 0x10_0000 + 512 <= 0x10_0000
  {
  }

  /** What the FAT code asks of the store. */
  datatype Op = Write(sector: int, data: seq<byte>, count: int) | Read(sector: int, count: int)

  predicate InRange(op: Op) {
    && 0 <= op.sector && 0 <= op.count && 512 * (op.sector + op.count) <= 0x200_0000
    && (op.Write? ==> |op.data| == 512 * op.count)
  }

  /** What the reads of a run return on a flat store. */
  function FlatReads(flat: Flat, ops: seq<Op>): seq<seq<byte>>
    requires forall i :: 0 <= i < |ops| ==> InRange(ops[i])
    decreases |ops|
  {
    if ops == [] then []
    else
      var op := ops[0];
      assert InRange(op);
      if op.Write? then FlatReads(Splice(flat, 512 * op.sector, op.data), ops[1..])
      else [flat[512 * op.sector..512 * (op.sector + op.count)]] + FlatReads(flat, ops[1..])
  }

  /** Every run on a store, of either layout, reads what it would read on the flat one. */
  method RunOn(s: Store, ops: seq<Op>) returns (got: seq<seq<byte>>)
    requires s.Valid() && forall i :: 0 <= i < |ops| ==> InRange(ops[i])
    modifies s.bufs
    ensures s.Valid() && got == FlatReads(old(s.Image()), ops)
    decreases |ops|
  {
    if ops == [] {
      return [];
    }
    hide Splice;
    var op := ops[0];
    assert InRange(op);
    if op.Write? {
      s.MemWrite(op.sector, op.data, op.count);
      got := RunOn(s, ops[1..]);
    } else {
      var data := s.MemRead(op.sector, op.count);
      got := RunOn(s, ops[1..]);
      got := [data] + got;
    }
  }

  function Joined(pieces: seq<seq<byte>>): seq<byte> {
    if pieces == [] then [] else Joined(pieces[..|pieces| - 1]) + pieces[|pieces| - 1]
  }

  lemma {:induction false} JoinedGrows(pieces: seq<seq<byte>>, i: int)
    requires 0 <= i < |pieces|
    ensures Joined(pieces[..i + 1]) == Joined(pieces[..i]) + pieces[i]
    ensures |Joined(pieces[..i + 1])| <= |Joined(pieces)|
    decreases |pieces|
  {
    assert pieces[..i + 1][..i] == pieces[..i];
    if i + 1 < |pieces| {
      JoinedGrows(pieces[..|pieces| - 1], i);
      assert pieces[..|pieces| - 1][..i + 1] == pieces[..i + 1];
    } else {
      assert pieces[..i + 1] == pieces;
    }
  }

  /** The decompressor's pieces, flushed one by one into 32 buffers or put into one: every run reads the same. */
  method BothLayouts(pieces: seq<seq<byte>>, ops: seq<Op>) returns (large: seq<seq<byte>>, split: seq<seq<byte>>)
    requires |Joined(pieces)| == 0x200_0000 && forall i :: 0 <= i < |ops| ==> InRange(ops[i])
    ensures large == split == FlatReads(Joined(pieces), ops)
  {
    var a := new Store.Large();
    FillLarge(a, Joined(pieces));
    large := RunOn(a, ops);
    var b := new Store.Split();
    FillSplit(b, pieces);
    split := RunOn(b, ops);
  }

  method FillLarge(s: Store, image: Flat)
    requires s.Valid() && s.bufs[1] == null
    modifies s.bufs
    ensures s.Valid() && s.Image() == image
  {
    var buf := s.bufs[0];
    forall i | 0 <= i < 0x200_0000 {
      buf[i] := image[i];
    }
    assert forall i :: 0 <= i < 0x200_0000 ==> s.Image()[i] == image[i];
  }

  method FillSplit(s: Store, pieces: seq<seq<byte>>)
    requires s.Flushing() && s.written == 0 && |Joined(pieces)| == 0x200_0000
    modifies s`written, s`pos, s`at, s.bufs
    ensures s.Valid() && s.bufs == old(s.bufs) && s.Image() == Joined(pieces)
  {
    ghost var before := s.Image();
    SplicedNone(before, 0);
    hide *;
    var i := 0;
    FilledNone(pieces);
    while i < |pieces|
      invariant 0 <= i <= |pieces| && s.Flushing() && s.bufs == old(s.bufs) && Filled(s, before, pieces, i)
    {
      FlushPiece(s, pieces, i, before);
      i := i + 1;
    }
    FilledAll(s, before, pieces);
  }

  /** The first i pieces are in. */
  ghost predicate Filled(s: Store, before: Flat, pieces: seq<seq<byte>>, i: int)
    requires 0 <= i <= |pieces| && s.Valid()
    reads s, s.bufs
  {
    var done := Joined(pieces[..i]);
    s.written == |done| <= 0x200_0000 && s.Image() == Splice(before, 0, done)
  }

  lemma FilledNone(pieces: seq<seq<byte>>)
    ensures Joined(pieces[..0]) == []
  {
  }

  lemma FilledAll(s: Store, before: Flat, pieces: seq<seq<byte>>)
    requires s.Flushing() && Filled(s, before, pieces, |pieces|) && |Joined(pieces)| == 0x200_0000
    ensures s.Valid() && s.Image() == Joined(pieces)
  {
    assert pieces[..|pieces|] == pieces;
  }

  method FlushPiece(s: Store, pieces: seq<seq<byte>>, i: int, ghost before: Flat)
    requires 0 <= i < |pieces| && s.Flushing() && Filled(s, before, pieces, i) && |Joined(pieces)| == 0x200_0000
    modifies s`written, s`pos, s`at, s.bufs
    ensures s.Flushing() && s.bufs == old(s.bufs) && Filled(s, before, pieces, i + 1)
  {
    JoinedGrows(pieces, i);
    SplicedNext(before, 0, Joined(pieces[..i]), pieces[i]);
    hide Joined, Splice;
    s.Flush(pieces[i]);
  }
}
