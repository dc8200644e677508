/** Partition tables: the check for room behind the first partition, the insertion of the second one in place, and
    the test by which the installer knows the layout again. */
module Partitions {
  import opened Extents
  import opened Geometry

  datatype MbrEntry = MbrEntry(active: int, startChs: Chs, fsFlag: int, endChs: Chs, start: int, count: int)

  datatype GptEntry = GptEntry(partType: int, guid: int, startLba: int, lastLba: int, attr: int, name: string)

  function MbrExtent(e: MbrEntry): Extent {
    Extent(e.count > 0, e.start, e.start + e.count)
  }

  function GptExtent(e: GptEntry): Extent {
    Extent(e.guid != 0, e.startLba, (e.lastLba + 1) % 0x1_0000_0000_0000_0000)
  }

  function MbrExtents(s: seq<MbrEntry>): (es: seq<Extent>)
    ensures |es| == |s| && forall i :: 0 <= i < |s| ==> es[i] == MbrExtent(s[i])
  {
    seq(|s|, i requires 0 <= i < |s| => MbrExtent(s[i]))
  }

  function GptExtents(s: seq<GptEntry>): (es: seq<Extent>)
    ensures |es| == |s| && forall i :: 0 <= i < |s| ==> es[i] == GptExtent(s[i])
  {
    seq(|s|, i requires 0 <= i < |s| => GptExtent(s[i]))
  }

  /** What the check says of a first partition and the start of the next one, in unsigned bytes of 64 bits:
      0 for a wrong start, 1 for room, 2 for no room. */
  function Verdict(start: int, end: int, next: int): (v: int)
    ensures 0 <= v <= 2
  {
    if start * 512 % 0x1_0000_0000_0000_0000 != 0x10_0000 then 0
    else if (next * 512 - end * 512) % 0x1_0000_0000_0000_0000 >= 0x200_0000 then 1
    else 2
  }

  function Check(es: seq<Extent>, limit: int): (v: int)
    ensures 0 <= v <= 2
  {
    if |Live(es)| >= |es| || |es| == 0 || !es[0].live then 0
    else Verdict(es[0].start, es[0].end, NextStart(es, limit))
  }

  lemma Difference(a: int, b: int)
    ensures (a % 0x1_0000_0000_0000_0000 - b % 0x1_0000_0000_0000_0000) % 0x1_0000_0000_0000_0000
         == (a - b) % 0x1_0000_0000_0000_0000
  {
  }

  lemma InBytes(n: int)
    ensures n * 512 % 0x1_0000_0000_0000_0000 == n % 0x80_0000_0000_0000 * 512
  {
    var q, r := n / 0x80_0000_0000_0000, n % 0x80_0000_0000_0000;
    assert n * 512 == 0x1_0000_0000_0000_0000 * q + r * 512;
  }

  /** The verdict in sectors: bytes in 64 bits are sectors modulo 2^55. */
  lemma VerdictExact(start: int, end: int, next: int)
    ensures Verdict(start, end, next) != 0 <==> start % 0x80_0000_0000_0000 == 2048
    ensures Verdict(start, end, next) == 1
       <==> start % 0x80_0000_0000_0000 == 2048 && (next - end) % 0x80_0000_0000_0000 >= 65536
  {
    InBytes(start);
    InBytes(next - end);
    assert next * 512 - end * 512 == (next - end) * 512;
  }

  /** When the next partition does not begin before the first one ends, a verdict of 1 is room for 65536 sectors. */
  lemma VerdictIsRoom(start: int, end: int, next: int)
    requires 0 <= start < 0x80_0000_0000_0000 && 0 <= end <= next < 0x80_0000_0000_0000
    ensures Verdict(start, end, next) == 1 <==> start == 2048 && end + 65536 <= next
    ensures Verdict(start, end, next) != 0 <==> start == 2048
  {
    hide Verdict;
    VerdictExact(start, end, next);
  }

  /** When it does, the subtraction wraps, and the verdict is 1 unless the overlap is nearly 2^55 sectors long. */
  lemma VerdictWraps(end: int, next: int)
    requires 0 <= next < end < 0x80_0000_0000_0000
    ensures Verdict(2048, end, next) == 1 <==> end - next <= 0x80_0000_0000_0000 - 65536
  {
    hide Verdict;
    VerdictExact(2048, end, next);
  }

  function FirstFree(es: seq<Extent>, i: int): (f: int)
    requires 0 <= i <= |es|
    ensures i <= f <= |es| && (f < |es| ==> !es[f].live)
    ensures forall k :: i <= k < f ==> es[k].live
    decreases |es| - i
  {
    if i < |es| && es[i].live then FirstFree(es, i + 1) else i
  }

  lemma {:induction false} AllLive(es: seq<Extent>)
    ensures |Live(es)| <= |es|
    ensures |Live(es)| == |es| <==> forall k :: 0 <= k < |es| ==> es[k].live
  {
    if es != [] {
      AllLive(es[1..]);
      assert forall k :: 0 < k < |es| ==> es[k] == es[1..][k - 1];
    }
  }

  /** Entries 1 to f - 1 move up by one place, from the last one down. */
  method ShiftUp<T>(a: array<T>, f: int)
    requires 0 < f < a.Length
    modifies a
    ensures a[..] == old(a[..2]) + old(a[1..f]) + old(a[f + 1..])
  {
    ghost var s := a[..];
    var j := f - 1;
    while j > 0
      invariant 0 <= j < f
      invariant forall k :: 0 <= k <= j + 1 || f < k < a.Length ==> a[k] == old(a[k])
      invariant forall k :: j + 1 < k <= f ==> a[k] == old(a[k - 1])
    {
      a[j + 1] := a[j];
      j := j - 1;
    }
    ghost var t := s[..2] + s[1..f] + s[f + 1..];
    assert forall k :: 0 <= k < a.Length ==> a[..][k] == t[k];
  }

  /** The second entry of a master boot record. */
  function BootEntry(p: int, heads: int): MbrEntry
    requires heads > 0
  {
    MbrEntry(0, Locate(p, heads), 0xEF, Locate((p + 65535) % 0x1_0000_0000, heads), p, 65536)
  }

  /** Its fields are those of an inactive EFI partition, and locate its first and last sector as far as they can. */
  lemma BootEntryChs(p: int, heads: int)
    requires 0 <= p && p + 65535 < 0x1_0000_0000 && 0 < heads < 256
    ensures var e := BootEntry(p, heads);
            && e.active == 0 && e.fsFlag == 0xEF && e.start == p && e.count == 65536
            && (Lba(e.startChs, heads) == p <==> p < Span(heads))
            && (Lba(e.endChs, heads) == p + 65535 <==> p + 65535 < Span(heads))
  {
    LocateExact(p, heads);
    LocateExact(p + 65535, heads);
    hide Locate, Lba, Span;
  }

  function MbrInserted(s: seq<MbrEntry>, f: int, p: int, heads: int): seq<MbrEntry>
    requires 0 < f < |s| && heads > 0
  {
    [s[0].(active := 0x80, count := (p - 2048) % 0x1_0000_0000), BootEntry(p, heads)] + s[1..f] + s[f + 1..]
  }

  /** The second entry of a GPT. */
  function EfiEntry(p: int, uuid: int): GptEntry {
    GptEntry(0xC79926B7B668C0874433B9E5EBD0A0A2, uuid, p,
             (p + 65535) % 0x1_0000_0000_0000_0000, 0x8000_0000_0000_0000, "VTOYEFI")
  }

  function GptInserted(s: seq<GptEntry>, f: int, part2start: int, uuid: int): seq<GptEntry>
    requires 0 < f < |s|
  {
    var last := (part2start - 1) % 0x1_0000_0000_0000_0000;
    [s[0].(lastLba := last), EfiEntry((last + 1) % 0x1_0000_0000_0000_0000, uuid)] + s[1..f] + s[f + 1..]
  }

  /** The first blocks of a disk, as far as partition tools read them. */
  class Tables {
    const mbr: array<MbrEntry>
    const gpt: array<GptEntry>
    const bootMark: bool
    const efiPart: bool
    const areaEnd: int
    const diskSize: int

    ghost predicate Valid()
      reads this, mbr, gpt
    {
      && mbr.Length == 4 && gpt.Length == 128
      && 0 <= diskSize < 0x1_0000_0000_0000_0000 && 0 <= areaEnd < 0x1_0000_0000_0000_0000
      && (forall i :: 0 <= i < 4 ==> 0 <= mbr[i].start < 0x1_0000_0000 && 0 <= mbr[i].count < 0x1_0000_0000)
      && (forall i :: 0 <= i < 128 ==>
            0 <= gpt[i].startLba < 0x1_0000_0000_0000_0000 && 0 <= gpt[i].lastLba < 0x1_0000_0000_0000_0000)
    }

    predicate IsGpt()
      requires mbr.Length == 4
      reads mbr
    {
      mbr[0].fsFlag == 0xEE && efiPart
    }

    /** The end of the usable area: of the disk, or of the area the GPT header names. */
    function Limit(): int
      requires mbr.Length == 4
      reads mbr
    {
      if IsGpt() then (areaEnd + 1) % 0x1_0000_0000_0000_0000 else diskSize / 512
    }

    ghost function Layout(): seq<Extent>
      requires mbr.Length == 4
      reads mbr, gpt
    {
      if IsGpt() then GptExtents(gpt[..]) else MbrExtents(mbr[..])
    }

    constructor (boot: seq<MbrEntry>, entries: seq<GptEntry>, mark: bool, signature: bool, end: int, size: int)
      requires |boot| == 4 && |entries| == 128
      ensures mbr[..] == boot && gpt[..] == entries && fresh(mbr) && fresh(gpt)
      ensures bootMark == mark && efiPart == signature && areaEnd == end && diskSize == size
    {
      bootMark, efiPart, areaEnd, diskSize := mark, signature, end, size;
      mbr := new MbrEntry[4](i requires 0 <= i < 4 => boot[i]);
      gpt := new GptEntry[128](i requires 0 <= i < 128 => entries[i]);
    }

    /** Looks for room behind the first partition: 1 if there is, 2 if not, 0 if the table does not qualify. */
    method PartCheck() returns (rc: int)
      requires Valid()
      ensures rc == if diskSize == 0 then 0 else Check(Layout(), Limit())
      ensures diskSize > 0 ==>
                rc == if mbr[0].fsFlag == 0xEE && efiPart then
                        Check(GptExtents(gpt[..]), (areaEnd + 1) % 0x1_0000_0000_0000_0000)
                      else Check(MbrExtents(mbr[..]), diskSize / 512)
    {
      if diskSize == 0 {
        return 0;
      }
      if IsGpt() {
        rc := CheckGpt();
      } else {
        rc := CheckMbr();
      }
    }

    method CheckMbr() returns (rc: int)
      requires Valid() && diskSize > 0
      ensures rc == Check(MbrExtents(mbr[..]), diskSize / 512)
    {
      ghost var es := MbrExtents(mbr[..]);
      var count := 0;
      for i := 0 to 4
        invariant count == |Live(es[..i])|
      {
        LiveNext(es, i);
        if mbr[i].count > 0 {
          count := count + 1;
        }
      }
      assert es[..4] == es;
      if count >= 4 || mbr[0].count == 0 {
        return 0;
      }
      var next := diskSize / 512;
      for i := 1 to 4
        invariant next == NextStart(es[..i], diskSize / 512)
      {
        StartNext(es, i, diskSize / 512);
        if mbr[i].count > 0 && next > mbr[i].start {
          next := mbr[i].start;
        }
      }
      rc := Judge(mbr[0].start, mbr[0].start + mbr[0].count, next);
    }

    method CheckGpt() returns (rc: int)
      requires Valid() && diskSize > 0
      ensures rc == Check(GptExtents(gpt[..]), (areaEnd + 1) % 0x1_0000_0000_0000_0000)
    {
      ghost var es := GptExtents(gpt[..]);
      var count := 0;
      for i := 0 to 128
        invariant count == |Live(es[..i])|
      {
        LiveNext(es, i);
        if gpt[i].guid != 0 {
          count := count + 1;
        }
      }
      assert es[..128] == es;
      if count >= 128 || gpt[0].guid == 0 {
        return 0;
      }
      var limit := (areaEnd + 1) % 0x1_0000_0000_0000_0000;
      var next := limit;
      for i := 1 to 128
        invariant next == NextStart(es[..i], limit)
      {
        StartNext(es, i, limit);
        if gpt[i].guid != 0 && next > gpt[i].startLba {
          next := gpt[i].startLba;
        }
      }
      rc := Judge(gpt[0].startLba, (gpt[0].lastLba + 1) % 0x1_0000_0000_0000_0000, next);
    }

    /** The sectors of the first partition, as the kernel counts them. */
    function FirstSectors(): int
      requires Valid()
      reads this, mbr, gpt
    {
      if IsGpt() then gpt[0].lastLba - gpt[0].startLba + 1 else mbr[0].count
    }

    static method Judge(start: int, end: int, next: int) returns (rc: int)
      ensures rc == Verdict(start, end, next)
    {
      Difference(next * 512, end * 512);
      var nextBytes := next * 512 % 0x1_0000_0000_0000_0000;
      var endBytes := end * 512 % 0x1_0000_0000_0000_0000;
      if start * 512 % 0x1_0000_0000_0000_0000 != 0x10_0000 {
        return 0;
      }
      if (nextBytes - endBytes) % 0x1_0000_0000_0000_0000 >= 0x200_0000 {
        rc := 1;
      } else if nextBytes == endBytes {
        rc := 2;
      } else {
        rc := 2;
      }
    }

    /** Puts the second partition in: entries move up into the first free place, the first one ends where it begins. */
    method UpdatePartTable(part2start: int, uuid: int) returns (ok: bool)
      requires Valid() && 0 <= part2start < 0x1_0000_0000_0000_0000
      modifies mbr, gpt
      ensures ok == (diskSize != 0 && FirstFree(old(Layout()), 1) < |old(Layout())|)
      ensures !ok ==> mbr[..] == old(mbr[..]) && gpt[..] == old(gpt[..])
      ensures ok && old(IsGpt()) ==> mbr[..] == old(mbr[..])
      ensures ok && old(IsGpt()) ==> gpt[..] == GptInserted(old(gpt[..]), FirstFree(old(Layout()), 1), part2start, uuid)
      ensures ok && !old(IsGpt()) ==> gpt[..] == old(gpt[..])
      ensures ok && !old(IsGpt()) ==>
                mbr[..] == MbrInserted(old(mbr[..]), FirstFree(old(Layout()), 1),
                                       part2start % 0x1_0000_0000, Heads(diskSize))
    {
      if diskSize == 0 {
        return false;
      }
      if IsGpt() {
        ok := UpdateGpt(part2start, uuid);
      } else {
        ok := UpdateMbr(part2start);
      }
    }

    method UpdateMbr(part2start: int) returns (ok: bool)
      requires Valid() && diskSize > 0
      modifies mbr
      ensures ok == (FirstFree(old(MbrExtents(mbr[..])), 1) < 4)
      ensures !ok ==> mbr[..] == old(mbr[..])
      ensures ok ==>
                mbr[..] == MbrInserted(old(mbr[..]), FirstFree(old(MbrExtents(mbr[..])), 1),
                                       part2start % 0x1_0000_0000, Heads(diskSize))
    {
      ghost var s, es := mbr[..], MbrExtents(mbr[..]);
      var i := 1;
      while i < 4 && mbr[i].count > 0
        invariant 1 <= i <= 4 && FirstFree(es, 1) == FirstFree(es, i)
      {
        i := i + 1;
      }
      if i >= 4 {
        return false;
      }
      ShiftUp(mbr, i);
      var p := part2start % 0x1_0000_0000;
      var heads := HeadCount(diskSize);
      mbr[1] := BootEntry(p, heads);
      mbr[0] := mbr[0].(active := 0x80, count := (p - 2048) % 0x1_0000_0000);
      ok := true;
      assert forall k :: 0 <= k < 4 ==> mbr[..][k] == MbrInserted(s, i, p, heads)[k];
    }

    method UpdateGpt(part2start: int, uuid: int) returns (ok: bool)
      requires Valid() && diskSize > 0
      modifies gpt
      ensures ok == (FirstFree(old(GptExtents(gpt[..])), 1) < 128)
      ensures !ok ==> gpt[..] == old(gpt[..])
      ensures ok ==> gpt[..] == GptInserted(old(gpt[..]), FirstFree(old(GptExtents(gpt[..])), 1), part2start, uuid)
    {
      ghost var s, es := gpt[..], GptExtents(gpt[..]);
      var i := 1;
      while i < 128 && gpt[i].guid != 0
        invariant 1 <= i <= 128 && FirstFree(es, 1) == FirstFree(es, i)
      {
        i := i + 1;
      }
      if i >= 128 {
        return false;
      }
      ShiftUp(gpt, i);
      gpt[0] := gpt[0].(lastLba := (part2start - 1) % 0x1_0000_0000_0000_0000);
      gpt[1] := EfiEntry((gpt[0].lastLba + 1) % 0x1_0000_0000_0000_0000, uuid);
      ok := true;
      assert forall k :: 0 <= k < 128 ==> gpt[..][k] == GptInserted(s, i, part2start, uuid)[k];
    }

    /** The test by which the installer knows its own disks. */
    predicate IsVentoy()
      requires mbr.Length == 4 && gpt.Length == 128
      reads mbr, gpt
    {
      Accepted(mbr[..], gpt[..], bootMark, efiPart)
    }
  }

  predicate Accepted(m: seq<MbrEntry>, g: seq<GptEntry>, bootMark: bool, efiPart: bool)
    requires |m| == 4 && |g| == 128
  {
    && bootMark
    && if m[0].fsFlag == 0xEE then
         && efiPart && "VTOYEFI" <= g[1].name && g[0].startLba == 2048
         && g[1].startLba == (g[0].lastLba + 1) % 0x1_0000_0000_0000_0000
         && (g[1].lastLba + 1 - g[1].startLba) % 0x1_0000_0000 == 65536
       else
         m[0].start == 2048 && m[1].start == (m[0].start + m[0].count) % 0x1_0000_0000 && m[1].count == 65536
  }

  lemma LiveNext(es: seq<Extent>, i: int)
    requires 0 <= i < |es|
    ensures Live(es[..i + 1]) == Live(es[..i]) + if es[i].live then [es[i]] else []
  {
    assert es[..i + 1] == es[..i] + [es[i]];
    LiveJoin(es[..i], [es[i]]);
  }

  lemma StartNext(es: seq<Extent>, i: int, limit: int)
    requires 0 < i < |es|
    ensures NextStart(es[..i + 1], limit)
         == if es[i].live && es[i].start < NextStart(es[..i], limit) then es[i].start else NextStart(es[..i], limit)
    ensures i + 1 == |es| ==> es[..i + 1] == es
  {
    assert es[..i + 1][..i] == es[..i];
  }

  /** Insertion in a master boot record, seen as extents. */
  lemma MbrInsertedExtents(s: seq<MbrEntry>, f: int, p: int, heads: int)
    requires 0 < f < |s| && heads > 0 && s[0].start == 2048 < p < 0x1_0000_0000 && s[0].count > 0
    ensures MbrExtents(MbrInserted(s, f, p, heads)) == Inserted(MbrExtents(s), f, p, 65536)
  {
    hide Locate;
    var a, b := MbrExtents(MbrInserted(s, f, p, heads)), Inserted(MbrExtents(s), f, p, 65536);
    assert |a| == |b|;
    assert forall k :: 0 <= k < |a| ==> a[k] == b[k];
  }

  lemma GptInsertedExtents(s: seq<GptEntry>, f: int, p: int, uuid: int)
    requires 0 < f < |s| && 0 < p < 0x80_0000_0000_0000 && uuid != 0
    ensures GptExtents(GptInserted(s, f, p, uuid)) == Inserted(GptExtents(s), f, p, 65536)
  {
    var a, b := GptExtents(GptInserted(s, f, p, uuid)), Inserted(GptExtents(s), f, p, 65536);
    assert |a| == |b|;
    assert forall k :: 0 <= k < |a| ==> a[k] == b[k];
  }

  /** A table that passes the check has a place for one more entry. */
  lemma CheckFindsPlace(es: seq<Extent>, limit: int)
    requires Check(es, limit) != 0
    ensures es != [] && es[0].live && 0 < FirstFree(es, 1) < |es| && !es[FirstFree(es, 1)].live
  {
    AllLive(es);
  }

  /** Room was found exactly when there is room, as long as no partition begins before the first one ends. */
  lemma CheckFindsRoom(es: seq<Extent>, limit: int)
    requires FirstIsFirst(es) && es[0].live && |Live(es)| < |es|
    requires 0 <= es[0].start < es[0].end <= limit < 0x80_0000_0000_0000
    ensures es[0].end <= NextStart(es, limit)
    ensures Check(es, limit) == 1 <==> es[0].start == 2048 && es[0].end + 65536 <= NextStart(es, limit)
    ensures Check(es, limit) != 0 <==> es[0].start == 2048
  {
    hide Verdict;
    assert es[0].end <= NextStart(es, limit);
    VerdictIsRoom(es[0].start, es[0].end, NextStart(es, limit));
  }

  /** A second partition inside the first: the check still promises room. */
  lemma CheckMissesOverlap()
    ensures var es := [Extent(true, 2048, 100000), Extent(true, 4096, 8192), Extent(false, 0, 0), Extent(false, 0, 0)];
            !Disjoint(es) && Check(es, 200000) == 1 && es[0].end + 65536 > NextStart(es, 200000)
  {
    var es := [Extent(true, 2048, 100000), Extent(true, 4096, 8192), Extent(false, 0, 0), Extent(false, 0, 0)];
    assert !Apart(es[0], es[1]);
    AllLive(es);
    assert !es[2].live;
    assert es[..3][..2] == es[..2];
    assert es[..2][..1] == es[..1];
    StartNext(es, 1, 200000);
    StartNext(es, 2, 200000);
    StartNext(es, 3, 200000);
    VerdictWraps(100000, 4096);
  }

  /** Insertion into a table that qualifies, anywhere before the next partition. */
  lemma Insertion(es: seq<Extent>, limit: int, p: int)
    requires 0 <= limit < 0x80_0000_0000_0000 && Disjoint(es) && Inside(es, limit) && FirstIsFirst(es)
    requires Check(es, limit) != 0 && 2048 < p && p + 65536 <= NextStart(es, limit)
    ensures 0 < FirstFree(es, 1) < |es| && es[0].live && es[0].start == 2048 < p < 0x80_0000_0000_0000
    ensures var es' := Inserted(es, FirstFree(es, 1), p, 65536);
            && Disjoint(es') && Inside(es', limit) && |es'| == |es| >= 2
            && es'[0] == Extent(true, 2048, p) && es'[1] == Extent(true, p, p + 65536)
            && Live(es'[2..]) == Live(es[1..])
  {
    CheckFindsPlace(es, limit);
    CheckFindsRoom(es, limit);
    var f := FirstFree(es, 1);
    hide FirstFree, Check;
    InsertKeeps(es, limit, f, p, 65536);
    FirstTwo(es, f, p, 65536);
  }

  /** Insertion into a master boot record that qualifies, anywhere before the next partition below 2 TiB. */
  lemma MbrInsertion(s: seq<MbrEntry>, limit: int, part2start: int, heads: int)
    requires |s| == 4 && heads > 0 && 0 <= limit < 0x80_0000_0000_0000
    requires Disjoint(MbrExtents(s)) && Inside(MbrExtents(s), limit) && FirstIsFirst(MbrExtents(s))
    requires Check(MbrExtents(s), limit) != 0
    requires 2048 < part2start && part2start + 65536 <= NextStart(MbrExtents(s), limit)
    requires part2start < 0x1_0000_0000
    ensures var f := FirstFree(MbrExtents(s), 1);
            && 0 < f < 4
            && var es := MbrExtents(MbrInserted(s, f, part2start % 0x1_0000_0000, heads));
               && Disjoint(es) && Inside(es, limit)
               && es[0] == Extent(true, 2048, part2start) && es[1] == Extent(true, part2start, part2start + 65536)
               && Live(es[2..]) == Live(MbrExtents(s)[1..])
  {
    var es := MbrExtents(s);
    Insertion(es, limit, part2start);
    var f := FirstFree(es, 1);
    assert s[0].start == 2048 < part2start && s[0].count > 0;
    hide *;
    MbrInsertedExtents(s, f, part2start, heads);
    InRange(part2start);
  }

  lemma InRange(p: int)
    requires 0 <= p < 0x1_0000_0000
    ensures p % 0x1_0000_0000 == p
  {
  }

  /** From 2 TiB on the new entry does not begin where it was meant to. */
  lemma MbrTruncated(s: seq<MbrEntry>, f: int, part2start: int, heads: int)
    requires 0 < f < |s| && heads > 0 && 0 <= part2start
    ensures MbrInserted(s, f, part2start % 0x1_0000_0000, heads)[1].start == part2start <==> part2start < 0x1_0000_0000
  {
    hide Locate;
  }

  lemma GptInsertion(s: seq<GptEntry>, limit: int, part2start: int, uuid: int)
    requires |s| == 128 && uuid != 0 && 0 <= limit < 0x80_0000_0000_0000
    requires Disjoint(GptExtents(s)) && Inside(GptExtents(s), limit) && FirstIsFirst(GptExtents(s))
    requires Check(GptExtents(s), limit) != 0
    requires 2048 < part2start && part2start + 65536 <= NextStart(GptExtents(s), limit)
    ensures var f := FirstFree(GptExtents(s), 1);
            && 0 < f < 128
            && var es := GptExtents(GptInserted(s, f, part2start, uuid));
               && Disjoint(es) && Inside(es, limit)
               && es[0] == Extent(true, 2048, part2start) && es[1] == Extent(true, part2start, part2start + 65536)
               && Live(es[2..]) == Live(GptExtents(s)[1..])
  {
    var es := GptExtents(s);
    Insertion(es, limit, part2start);
    var f := FirstFree(es, 1);
    hide *;
    GptInsertedExtents(s, f, part2start, uuid);
  }

  /** After an insertion in a boot record the installer knows the disk, unless the first entry has the type of a
      protective one. */
  lemma MbrAccepted(s: seq<MbrEntry>, g: seq<GptEntry>, f: int, p: int, heads: int, bootMark: bool, efiPart: bool)
    requires |s| == 4 && |g| == 128 && 0 < f < 4 && heads > 0 && 0 <= p < 0x1_0000_0000
    requires !(s[0].fsFlag == 0xEE && efiPart)
    ensures Accepted(MbrInserted(s, f, p, heads), g, bootMark, efiPart)
       <==> bootMark && s[0].fsFlag != 0xEE && s[0].start == 2048
  {
    hide Locate;
  }

  lemma GptAccepted(m: seq<MbrEntry>, s: seq<GptEntry>, f: int, part2start: int, uuid: int, bootMark: bool,
                    efiPart: bool)
    requires |m| == 4 && |s| == 128 && 0 < f < 128 && 0 <= part2start < 0x1_0000_0000_0000_0000
    requires m[0].fsFlag == 0xEE && efiPart
    ensures Accepted(m, GptInserted(s, f, part2start, uuid), bootMark, efiPart) <==> bootMark && s[0].startLba == 2048
  {
  }

  // ----- In terms of the entries -----

  /** The fields after an insertion in a boot record: the first entry becomes bootable and ends before the new one,
      which is an EFI partition of 32 MiB. */
  lemma MbrFields(s: seq<MbrEntry>, f: int, p: int, heads: int)
    requires |s| == 4 && 0 < f < 4 && heads > 0 && 2048 <= p < 0x1_0000_0000
    ensures var t := MbrInserted(s, f, p, heads);
            && t[0].active == 0x80 && t[0].start == s[0].start && t[0].count == p - 2048
            && t[0].fsFlag == s[0].fsFlag && t[0].startChs == s[0].startChs && t[0].endChs == s[0].endChs
            && t[1].active == 0 && t[1].fsFlag == 0xEF && t[1].start == p && 512 * t[1].count == 32 * 1024 * 1024
            && (forall i :: 2 <= i <= f ==> t[i] == s[i - 1]) && (forall i :: f < i < 4 ==> t[i] == s[i])
  {
    hide Locate;
  }

  /** The second entry of a GPT has the type EBD0A0A2-B9E5-4433-87C0-68B6B72699C7, the given identifier, 32 MiB, only
      the highest attribute bit, and its name. */
  lemma EfiFields(p: int, uuid: int)
    requires 0 < p < 0x1_0000_0000_0000_0000 - 65535
    ensures var e := EfiEntry(p, uuid);
            && e.partType % 0x1_0000_0000 == 0xEBD0_A0A2 && e.partType / 0x1_0000_0000 % 0x1_0000 == 0xB9E5
            && e.partType / 0x1_0000_0000_0000 % 0x1_0000 == 0x4433
            && e.partType / 0x1_0000_0000_0000_0000 == 0xC799_26B7_B668_C087
            && e.guid == uuid && e.startLba == p && 512 * (e.lastLba + 1 - p) == 32 * 1024 * 1024
            && e.attr == 2 * 0x4000_0000_0000_0000 && e.name == ['V', 'T', 'O', 'Y', 'E', 'F', 'I']
  {
  }

  /** After an insertion in a GPT the first entry ends before the new one; the others move up. */
  lemma GptFields(s: seq<GptEntry>, f: int, p: int, uuid: int)
    requires |s| == 128 && 0 < f < 128 && 0 < p < 0x1_0000_0000_0000_0000
    ensures var t := GptInserted(s, f, p, uuid);
            && t[0] == s[0].(lastLba := p - 1) && t[1] == EfiEntry(p, uuid)
            && (forall i :: 2 <= i <= f ==> t[i] == s[i - 1]) && (forall i :: f < i < 128 ==> t[i] == s[i])
  {
    hide EfiEntry;
  }

  /** The verdict when nothing begins before the first partition ends. */
  lemma RoomBehind(es: seq<Extent>, limit: int)
    requires FirstIsFirst(es) && 0 <= es[0].start && es[0].end <= limit < 0x80_0000_0000_0000
    requires es[0].live ==> es[0].start < es[0].end
    ensures Check(es, limit) != 0 <==> es[0].live && es[0].start == 2048 && exists i :: 0 < i < |es| && !es[i].live
    ensures Check(es, limit) == 1
       <==> Check(es, limit) != 0 && es[0].end + 65536 <= limit
            && forall i :: 0 < i < |es| && es[i].live ==> es[0].end + 65536 <= es[i].start
  {
    AllLive(es);
    if es[0].live && |Live(es)| < |es| {
      CheckFindsRoom(es, limit);
    }
    hide Verdict, Live;
  }

  /** The check of a boot record, by its entries: the first one in use, at 1 MiB, one of the others free, and 32 MiB
      before each of the others and the end of the disk. */
  lemma MbrCheck(s: seq<MbrEntry>, size: int)
    requires |s| == 4 && 0 <= size < 0x1_0000_0000_0000_0000
    requires forall i :: 0 <= i < 4 ==> 0 <= s[i].start && 0 <= s[i].count
    requires forall i :: 0 < i < 4 && s[i].count > 0 ==> s[0].start + s[0].count <= s[i].start
    requires 512 * (s[0].start + s[0].count) <= size
    ensures var rc := Check(MbrExtents(s), size / 512);
            && (rc != 0 <==> && s[0].count > 0 && s[0].start == 2048
                             && (s[1].count == 0 || s[2].count == 0 || s[3].count == 0))
            && (rc == 1 <==> rc != 0 && 512 * (s[0].start + s[0].count) + 32 * 1024 * 1024 <= size
                             && forall i :: 0 < i < 4 && s[i].count > 0 ==>
                                  s[0].start + s[0].count + 65536 <= s[i].start)
  {
    var es := MbrExtents(s);
    assert es[1] == MbrExtent(s[1]) && es[2] == MbrExtent(s[2]) && es[3] == MbrExtent(s[3]);
    hide Check;
    RoomBehind(es, size / 512);
  }

  /** A GPT entry ends behind its last sector, in 64 bits. */
  lemma GptEnd(e: GptEntry)
    requires 0 <= e.lastLba < 0x1_0000_0000_0000_0000
    ensures GptExtent(e).end == if e.lastLba == 0xFFFF_FFFF_FFFF_FFFF then 0 else e.lastLba + 1
    ensures GptExtent(e).live <==> e.guid != 0
  {
  }

  /** The check of a GPT, likewise. */
  lemma GptCheck(s: seq<GptEntry>, areaEnd: int)
    requires |s| == 128 && 0 <= areaEnd < 0x7F_FFFF_FFFF_FFFF
    requires forall i :: 0 <= i < 128 ==> 0 <= s[i].startLba && 0 <= s[i].lastLba < 0x1_0000_0000_0000_0000 - 1
    requires forall i :: 0 < i < 128 && s[i].guid != 0 ==> s[0].lastLba < s[i].startLba
    requires s[0].startLba <= s[0].lastLba <= areaEnd
    ensures var rc := Check(GptExtents(s), (areaEnd + 1) % 0x1_0000_0000_0000_0000);
            && (rc != 0 <==> s[0].guid != 0 && s[0].startLba == 2048 && exists i :: 0 < i < 128 && s[i].guid == 0)
            && (rc == 1 <==> rc != 0 && s[0].lastLba + 65536 <= areaEnd
                             && forall i :: 0 < i < 128 && s[i].guid != 0 ==> s[0].lastLba + 65536 < s[i].startLba)
  {
    var es := GptExtents(s);
    hide Check;
    RoomBehind(es, areaEnd + 1);
    assert forall i :: 0 <= i < 128 ==> es[i] == GptExtent(s[i]);
    if i :| 0 < i < 128 && s[i].guid == 0 {
      assert !es[i].live;
    }
  }

  /** What the installer knows as its own on a disk with a boot record: a first partition at 1 MiB, and 32 MiB right
      behind it. */
  lemma MbrKnown(m: seq<MbrEntry>, g: seq<GptEntry>, mark: bool, efiPart: bool)
    requires |m| == 4 && |g| == 128 && m[0].fsFlag != 0xEE
    requires 0 <= m[0].start && 0 <= m[0].count && m[0].start + m[0].count < 0x1_0000_0000
    ensures var es := MbrExtents(m);
            Accepted(m, g, mark, efiPart)
            <==> mark && es[0].start == 2048 && es[1].start == es[0].end && es[1].end == es[1].start + 65536
  {
    assert MbrExtents(m)[0] == MbrExtent(m[0]) && MbrExtents(m)[1] == MbrExtent(m[1]);
  }

  /** And with a GPT: the same layout, and the name of the second partition. */
  lemma GptKnown(m: seq<MbrEntry>, g: seq<GptEntry>, mark: bool, efiPart: bool)
    requires |m| == 4 && |g| == 128 && m[0].fsFlag == 0xEE
    requires 0 <= g[0].lastLba < 0xFFFF_FFFF_FFFF_FFFF && 0 <= g[1].startLba <= g[1].lastLba < 0xFFFF_FFFF_FFFF_FFFF
    requires g[1].lastLba - g[1].startLba < 0xFFFF_FFFF
    ensures var es := GptExtents(g);
            Accepted(m, g, mark, efiPart)
            <==> && mark && efiPart && |g[1].name| >= 7 && g[1].name[..7] == ['V', 'T', 'O', 'Y', 'E', 'F', 'I']
                 && es[0].start == 2048 && es[1].start == es[0].end && es[1].end == es[1].start + 65536
  {
    assert GptExtents(g)[0] == GptExtent(g[0]) && GptExtents(g)[1] == GptExtent(g[1]);
    assert "VTOYEFI" == ['V', 'T', 'O', 'Y', 'E', 'F', 'I'];
  }
}
