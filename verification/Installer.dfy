/** The installation that keeps the data of a disk: the check, the shrinking of the first partition when there is no
    room behind it, and the insertion of the second one. */
module Installer {
  import opened Extents
  import opened Geometry
  import opened Partitions

  /** The size in MiB to which the first partition's file system is shrunk: 32 less than whole MiB it has. */
  function ShrunkSize(sectors: int): int {
    sectors / 8 / 256 - 32
  }

  /** Where the second partition begins: behind the first one, or behind its shrunk file system. */
  function SecondStart(es: seq<Extent>, limit: int): int
    requires es != []
  {
    var sectors := es[0].end - es[0].start;
    if Check(es, limit) == 1 then sectors + 2048 else (ShrunkSize(sectors) + 1) * 2048
  }

  /** A layout that partition tools make: apart, inside the usable area, the first partition before the others. */
  ghost predicate Sound(es: seq<Extent>, limit: int) {
    Disjoint(es) && Inside(es, limit) && FirstIsFirst(es) && 0 <= limit < 0x80_0000_0000_0000
  }

  /** The first partition now ends at p, the second one lies behind it, and the others are as they were, in order. */
  ghost predicate Added(before: seq<Extent>, after: seq<Extent>, limit: int, p: int) {
    && Disjoint(after) && Inside(after, limit) && |after| == |before| >= 2
    && after[0] == Extent(true, 2048, p) && after[1] == Extent(true, p, p + 65536)
    && Live(after[2..]) == Live(before[1..])
  }

  /** Either way there is room for it, and shrunk or not, the first partition still holds its file system. */
  lemma RoomForSecond(es: seq<Extent>, limit: int)
    requires Sound(es, limit) && Check(es, limit) != 0
    requires Check(es, limit) == 2 ==> ShrunkSize(es[0].end - es[0].start) > 0
    ensures var p := SecondStart(es, limit);
            && 2048 < p && p + 65536 <= NextStart(es, limit)
            && (if Check(es, limit) == 1 then p == es[0].end
                else p + 65536 <= es[0].end < p + 65536 + 2048
                     && p - 2048 == 2048 * ShrunkSize(es[0].end - es[0].start))
  {
    CheckFindsPlace(es, limit);
    CheckFindsRoom(es, limit);
    hide Disjoint, Inside, FirstIsFirst, Check, NextStart, FirstFree;
    WholeMebibytes(es[0].end - es[0].start);
    hide ShrunkSize;
  }

  /** A shrunk file system is 32 MiB smaller than the whole mebibytes of its partition. */
  lemma WholeMebibytes(sectors: int)
    ensures var p := (ShrunkSize(sectors) + 1) * 2048;
            p + 65536 <= sectors + 2048 < p + 65536 + 2048 && p - 2048 == 2048 * ShrunkSize(sectors)
  {
  }

  lemma MbrAdded(s: seq<MbrEntry>, g: seq<GptEntry>, limit: int, p: int, heads: int, mark: bool, efiPart: bool)
    requires |s| == 4 && |g| == 128 && heads > 0 && !(s[0].fsFlag == 0xEE && efiPart)
    requires Sound(MbrExtents(s), limit) && Check(MbrExtents(s), limit) != 0
    requires 2048 < p && p + 65536 <= NextStart(MbrExtents(s), limit)
    ensures 0 < FirstFree(MbrExtents(s), 1) < 4
    ensures var after := MbrInserted(s, FirstFree(MbrExtents(s), 1), p % 0x1_0000_0000, heads);
            && after[0].fsFlag == s[0].fsFlag
            && (Added(MbrExtents(s), MbrExtents(after), limit, p) <==> p < 0x1_0000_0000)
            && (Accepted(after, g, mark, efiPart) <==> mark && s[0].fsFlag != 0xEE)
  {
    var es := MbrExtents(s);
    CheckFindsPlace(es, limit);
    CheckFindsRoom(es, limit);
    assert s[0].start == es[0].start == 2048;
    var f := FirstFree(es, 1);
    hide Disjoint, Inside, FirstIsFirst, Check, NextStart, FirstFree, Live, Accepted, BootEntry;
    MbrAccepted(s, g, f, p % 0x1_0000_0000, heads, mark, efiPart);
    if p < 0x1_0000_0000 {
      MbrInsertion(s, limit, p, heads);
    } else {
      MbrTruncated(s, f, p, heads);
    }
  }

  lemma GptAdded(m: seq<MbrEntry>, s: seq<GptEntry>, limit: int, p: int, uuid: int, mark: bool, efiPart: bool)
    requires |m| == 4 && |s| == 128 && uuid != 0 && m[0].fsFlag == 0xEE && efiPart
    requires Sound(GptExtents(s), limit) && Check(GptExtents(s), limit) != 0
    requires 2048 < p && p + 65536 <= NextStart(GptExtents(s), limit)
    ensures 0 < FirstFree(GptExtents(s), 1) < 128
    ensures var after := GptInserted(s, FirstFree(GptExtents(s), 1), p, uuid);
            && Added(GptExtents(s), GptExtents(after), limit, p)
            && (Accepted(m, after, mark, efiPart) <==> mark)
  {
    var es := GptExtents(s);
    CheckFindsPlace(es, limit);
    CheckFindsRoom(es, limit);
    assert s[0].startLba == es[0].start == 2048;
    var f := FirstFree(es, 1);
    hide Disjoint, Inside, FirstIsFirst, Check, NextStart, FirstFree, Live, Accepted, GptInserted;
    GptInsertion(s, limit, p, uuid);
    GptAccepted(m, s, f, p, uuid, mark, efiPart);
  }

  /** The table qualifies, and 65536 sectors from p on lie before the next partition. */
  ghost predicate Ready(es: seq<Extent>, limit: int, p: int) {
    Sound(es, limit) && Check(es, limit) != 0 && 2048 < p && p + 65536 <= NextStart(es, limit)
  }

  lemma ReadyInRange(es: seq<Extent>, limit: int, p: int)
    requires Ready(es, limit, p)
    ensures 0 <= p < 0x80_0000_0000_0000 && es != [] && FirstFree(es, 1) < |es|
  {
    CheckFindsPlace(es, limit);
  }

  /** What the tables of a disk say, and whether the installer knows the disk as its own. */
  datatype Disk = Disk(gpt: bool, boot: seq<MbrEntry>, entries: seq<GptEntry>, layout: seq<Extent>, limit: int,
                       known: bool)

  ghost function View(t: Tables): Disk
    requires t.mbr.Length == 4 && t.gpt.Length == 128
    reads t.mbr, t.gpt
  {
    Disk(t.IsGpt(), t.mbr[..], t.gpt[..], t.Layout(), t.Limit(), t.IsVentoy())
  }

  /** The second partition is in its place at p, up to 2 TiB on a disk with a boot record, and the installer knows the
      disk unless the first entry of a boot record has the type of a protective one. */
  ghost predicate InPlace(before: Disk, after: Disk, p: int, mark: bool) {
    && after.gpt == before.gpt && after.limit == before.limit && |after.boot| == 4
    && (Added(before.layout, after.layout, before.limit, p) <==> before.gpt || p < 0x1_0000_0000)
    && (after.known <==> mark && (before.gpt || after.boot[0].fsFlag != 0xEE))
  }

  /** The insertion and the recognition, for a boot record. */
  method InsertMbr(t: Tables, p: int, uuid: int)
    requires t.Valid() && t.diskSize > 0 && !t.IsGpt() && Ready(t.Layout(), t.Limit(), p)
    modifies t.mbr, t.gpt
    ensures InPlace(old(View(t)), View(t), p, t.bootMark)
  {
    ghost var es, limit := t.Layout(), t.Limit();
    ReadyInRange(es, limit, p);
    MbrAdded(t.mbr[..], t.gpt[..], limit, p, Heads(t.diskSize), t.bootMark, t.efiPart);
    hide Ready, Added, Check, FirstFree, Accepted, MbrInserted, MbrExtents, GptExtents, GptInserted, Heads;
    var ok := t.UpdatePartTable(p, uuid);
  }

  /** And for a GPT. */
  method InsertGpt(t: Tables, p: int, uuid: int)
    requires t.Valid() && t.diskSize > 0 && t.IsGpt() && Ready(t.Layout(), t.Limit(), p) && uuid != 0
    modifies t.mbr, t.gpt
    ensures InPlace(old(View(t)), View(t), p, t.bootMark)
  {
    ghost var es, limit := t.Layout(), t.Limit();
    ReadyInRange(es, limit, p);
    GptAdded(t.mbr[..], t.gpt[..], limit, p, uuid, t.bootMark, t.efiPart);
    hide Ready, Added, Check, FirstFree, Accepted, MbrInserted, MbrExtents, GptExtents, GptInserted, Heads;
    var ok := t.UpdatePartTable(p, uuid);
  }

  lemma GptSectors(s: seq<GptEntry>, limit: int)
    requires s != [] && Inside(GptExtents(s), limit) && GptExtents(s)[0].live
    requires 0 <= s[0].lastLba < 0x1_0000_0000_0000_0000
    ensures s[0].lastLba - s[0].startLba + 1 == GptExtents(s)[0].end - GptExtents(s)[0].start
  {
    assert GptExtents(s)[0] == GptExtent(s[0]);
  }

  lemma MbrSectors(s: seq<MbrEntry>)
    requires s != []
    ensures s[0].count == MbrExtents(s)[0].end - MbrExtents(s)[0].start
  {
    assert MbrExtents(s)[0] == MbrExtent(s[0]);
  }

  /** The kernel's count of the first partition's sectors is what the table says. */
  lemma Sectors(t: Tables)
    requires t.Valid() && Sound(t.Layout(), t.Limit()) && Check(t.Layout(), t.Limit()) != 0
    ensures t.Layout() != [] && t.FirstSectors() == t.Layout()[0].end - t.Layout()[0].start
  {
    CheckFindsPlace(t.Layout(), t.Limit());
    hide FirstFree, Check, Live, NextStart, Inside, Disjoint, FirstIsFirst, GptExtents, MbrExtents;
    if t.IsGpt() {
      GptSectors(t.gpt[..], t.Limit());
    } else {
      MbrSectors(t.mbr[..]);
    }
  }

  /** The table qualifies, and there is room or the file system can be shrunk. */
  ghost predicate Goes(es: seq<Extent>, limit: int, shrunk: bool) {
    Check(es, limit) == 1 || (Check(es, limit) == 2 && shrunk)
  }

  /** Tools refuse to shrink a file system to nothing. */
  ghost predicate Shrinkable(es: seq<Extent>) {
    es != [] && ShrunkSize(es[0].end - es[0].start) > 0
  }

  lemma Chosen(t: Tables, shrunk: bool)
    requires t.Valid() && Sound(t.Layout(), t.Limit()) && (shrunk ==> Shrinkable(t.Layout()))
    requires Goes(t.Layout(), t.Limit(), shrunk)
    ensures t.Layout() != [] && Ready(t.Layout(), t.Limit(), SecondStart(t.Layout(), t.Limit()))
    ensures SecondStart(t.Layout(), t.Limit())
         == if Check(t.Layout(), t.Limit()) == 1 then t.FirstSectors() + 2048
            else (ShrunkSize(t.FirstSectors()) + 1) * 2048
  {
    Sectors(t);
    hide Disjoint, Inside, FirstIsFirst, Check, NextStart, ShrunkSize;
    hide Tables.Valid, Tables.Layout, Tables.Limit, Tables.FirstSectors;
    RoomForSecond(t.Layout(), t.Limit());
  }

  /** Where the script puts the second partition; a table that does not qualify, or a file system that could not be
      shrunk, ends it. */
  method Choose(t: Tables, shrunk: bool) returns (ok: bool, part2start: int)
    requires t.Valid() && t.diskSize > 0 && Sound(t.Layout(), t.Limit()) && (shrunk ==> Shrinkable(t.Layout()))
    ensures ok == Goes(t.Layout(), t.Limit(), shrunk)
    ensures ok ==> part2start == SecondStart(t.Layout(), t.Limit()) && Ready(t.Layout(), t.Limit(), part2start)
  {
    hide Tables.Layout, Tables.Limit, Tables.IsGpt, Tables.FirstSectors;
    hide Sound, Check, Ready, Shrinkable, ShrunkSize, SecondStart;
    part2start := 0;
    var rc := t.PartCheck();
    if rc == 0 || (rc == 2 && !shrunk) {
      return false, 0;
    }
    ok := true;
    Chosen(t, shrunk);
    var sectors := t.FirstSectors();
    part2start := if rc == 1 then sectors + 2048 else (ShrunkSize(sectors) + 1) * 2048;
  }

  /** The installation: it goes through exactly when the table qualifies and, if need be, the file system was shrunk. */
  method Install(t: Tables, shrunk: bool, uuid: int) returns (ok: bool)
    requires t.Valid() && t.diskSize > 0 && uuid != 0
    requires Sound(t.Layout(), t.Limit()) && (shrunk ==> Shrinkable(t.Layout()))
    modifies t.mbr, t.gpt
    ensures var before, after := old(View(t)), View(t);
            && (ok <==> Goes(before.layout, before.limit, shrunk))
            && (!ok ==> after == before)
            && (ok ==>
                  && before.layout != []
                  && InPlace(before, after, SecondStart(before.layout, before.limit), t.bootMark))
  {
    var part2start;
    ok, part2start := Choose(t, shrunk);
    hide Ready, Sound, Shrinkable, Goes, SecondStart, InPlace;
    hide Tables.Layout, Tables.Limit, Tables.IsGpt, Tables.IsVentoy;
    if ok {
      if t.IsGpt() {
        InsertGpt(t, part2start, uuid);
      } else {
        InsertMbr(t, part2start, uuid);
      }
    }
  }
}
