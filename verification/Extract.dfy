/** Taking a file out of a fragmented image: directly, and by way of a printed list of disk sector runs. */
module Extract {
  import opened Bytes
  import opened ImageMap

  /** count disk sectors from `first` on. */
  datatype Run = Run(first: int, count: int)

  /** The disk sectors a list of runs names, in order. */
  function Expand(runs: seq<Run>): seq<int> {
    if runs == [] then [] else Expand(runs[..|runs| - 1]) + Upward(runs[|runs| - 1])
  }

  function Upward(run: Run): (r: seq<int>)
    ensures |r| == (if run.count > 0 then run.count else 0)
    ensures forall k :: 0 <= k < |r| ==> r[k] == run.first + k
  {
    seq(if run.count > 0 then run.count else 0, k => run.first + k)
  }

  /** The four disk sectors of each of n image sectors from `first` on. */
  function MappedSectors(chunks: seq<Chunk>, first: int, n: nat): seq<int> {
    if n == 0 then []
    else MappedSectors(chunks, first, n - 1) + Upward(Run(MapSector(chunks, first + n - 1), 4))
  }

  /** No run goes on where the one before it ends. */
  predicate Unmergeable(runs: seq<Run>) {
    forall i :: 0 <= i < |runs| - 1 ==> runs[i].first + runs[i].count != runs[i + 1].first
  }

  /** The image sectors a file of that size takes. */
  function Needed(size: nat): nat {
    (size + 2047) / 2048
  }

  lemma NeededNext(size: nat)
    requires size > 0
    ensures Needed(size) == 1 + Needed(if size > 2048 then size - 2048 else 0)
  {
  }

  lemma NeededNone()
    ensures Needed(0) == 0
  {
  }

  predicate Between(chunks: seq<Chunk>, first: int, n: nat, low: int, high: int) {
    forall s :: first <= s < first + n ==> low <= MapSector(chunks, s) <= high
  }

  /** The four disk sectors of every image sector have 32-bit numbers, and do not reach both ends of their range. */
  predicate Narrow(chunks: seq<Chunk>, first: int, n: nat) {
    Between(chunks, first, n, 0, 0xFFFF_FFFB) || Between(chunks, first, n, 1, 0xFFFF_FFFC)
  }

  ghost predicate Ends(low: int, high: int) {
    (low == 0 && high == 0xFFFF_FFFB) || (low == 1 && high == 0xFFFF_FFFC)
  }

  lemma NarrowEnds(chunks: seq<Chunk>, first: int, n: nat) returns (low: int, high: int)
    requires Narrow(chunks, first, n)
    ensures Ends(low, high) && Between(chunks, first, n, low, high)
  {
    hide Between;
    if Between(chunks, first, n, 0, 0xFFFF_FFFB) {
      return 0, 0xFFFF_FFFB;
    }
    return 1, 0xFFFF_FFFC;
  }

  /** So the 32-bit sums of the loop are sums. */
  lemma NoWrap(low: int, high: int, first: int, count: int, last: int, sector: int)
    requires Ends(low, high) && low <= first && low <= sector <= high && 0 <= last <= high
    requires 0 < count && last == first + count - 4
    ensures sector == (last + 4) % 0x1_0000_0000 ==>
              && sector == first + count
              && (last + 4) % 0x1_0000_0000 == last + 4 && (count + 4) % 0x1_0000_0000 == count + 4
  {
  }

  lemma ExpandOpen(runs: seq<Run>, run: Run)
    ensures Expand(runs + [run]) == Expand(runs) + Upward(run)
  {
    assert (runs + [run])[..|runs|] == runs;
  }

  lemma UpwardJoin(run: Run)
    requires run.count > 0
    ensures Upward(Run(run.first, run.count + 4)) == Upward(run) + Upward(Run(run.first + run.count, 4))
  {
  }

  /** The runs so far name the disk sectors of the first n image sectors, within 32 bits and unmergeable. */
  ghost predicate Printed(chunks: seq<Chunk>, first: int, n: nat, runs: seq<Run>) {
    && Expand(runs) == MappedSectors(chunks, first, n) && Unmergeable(runs) && InRange(runs)
  }

  predicate InRange(runs: seq<Run>) {
    forall i :: 0 <= i < |runs| ==>
      0 < runs[i].count && 0 <= runs[i].first && runs[i].first + runs[i].count <= 0x1_0000_0000
  }

  lemma UnmergeableGrow(runs: seq<Run>, run: Run, more: Run)
    requires Unmergeable(runs + [run]) && more.first == run.first
    ensures Unmergeable(runs + [more])
  {
    var a, b := runs + [run], runs + [more];
    forall i | 0 <= i < |b| - 1 ensures b[i].first + b[i].count != b[i + 1].first {
      assert b[i] == a[i] && b[i + 1].first == a[i + 1].first;
    }
  }

  /** Four more sectors, right behind the open run: it grows. */
  lemma Grow(chunks: seq<Chunk>, first: int, n: nat, runs: seq<Run>, run: Run)
    requires Printed(chunks, first, n, runs + [run]) && run.count > 0
    requires run.first + run.count == MapSector(chunks, first + n) <= 0xFFFF_FFFC
    ensures Printed(chunks, first, n + 1, runs + [Run(run.first, run.count + 4)])
  {
    var more := Run(run.first, run.count + 4);
    UnmergeableGrow(runs, run, more);
    ExpandOpen(runs, run);
    ExpandOpen(runs, more);
    UpwardJoin(run);
    MappedNext(chunks, first, n);
    hide Expand, MappedSectors, Unmergeable, MapSector, Upward;
    assert forall i :: 0 <= i < |runs| ==> (runs + [run])[i] == runs[i] == (runs + [more])[i];
    assert (runs + [run])[|runs|] == run;
  }

  /** Four more sectors elsewhere: another run begins. */
  lemma Begin(chunks: seq<Chunk>, first: int, n: nat, runs: seq<Run>)
    requires Printed(chunks, first, n, runs) && 0 <= MapSector(chunks, first + n) <= 0xFFFF_FFFC
    requires runs != [] ==> runs[|runs| - 1].first + runs[|runs| - 1].count != MapSector(chunks, first + n)
    ensures Printed(chunks, first, n + 1, runs + [Run(MapSector(chunks, first + n), 4)])
  {
    hide MapSector;
    ExpandOpen(runs, Run(MapSector(chunks, first + n), 4));
    MappedNext(chunks, first, n);
    hide Expand, MappedSectors;
  }

  lemma NothingPrinted(chunks: seq<Chunk>, first: int)
    ensures Printed(chunks, first, 0, [])
  {
  }

  /** The runs of a file: they name the disk sectors of its image sectors, and no two of them could be one. */
  method PrintExtract(chunks: seq<Chunk>, firstSector: nat, fileSize: nat) returns (runs: seq<Run>)
    requires Narrow(chunks, firstSector, Needed(fileSize))
    ensures Expand(runs) == MappedSectors(chunks, firstSector, Needed(fileSize))
    ensures Unmergeable(runs) && InRange(runs)
  {
    hide *;
    NeededNone();
    ghost var low, high := NarrowEnds(chunks, firstSector, Needed(fileSize));
    runs := [];
    var size, s := fileSize, firstSector;
    var last, diskFirst, count := 0, 0, 0;
    NothingPrinted(chunks, firstSector);
    while size > 0
      invariant 0 <= size && s + Needed(size) == firstSector + Needed(fileSize) && firstSector <= s
      invariant if count == 0 then runs == [] && s == firstSector else count > 0 && last == diskFirst + count - 4
      invariant count > 0 ==> low <= diskFirst && 0 <= last <= high
      invariant Printed(chunks, firstSector, s - firstSector,
                        if count > 0 then runs + [Run(diskFirst, count)] else runs)
    {
      NeededNext(size);
      var mapped := FindSector(chunks, s);
      Narrowed(chunks, firstSector, Needed(fileSize), low, high, s);
      var sector := mapped % 0x1_0000_0000;
      if count > 0 {
        NoWrap(low, high, diskFirst, count, last, sector);
      }
      if count > 0 && sector == (last + 4) % 0x1_0000_0000 {
        Grow(chunks, firstSector, s - firstSector, runs, Run(diskFirst, count));
        last, count := (last + 4) % 0x1_0000_0000, (count + 4) % 0x1_0000_0000;
      } else {
        Begin(chunks, firstSector, s - firstSector, if count > 0 then runs + [Run(diskFirst, count)] else runs);
        if count > 0 {
          runs := runs + [Run(diskFirst, count)];
        }
        diskFirst, last, count := sector, sector, 4;
      }
      s := s + 1;
      size := if size > 2048 then size - 2048 else 0;
    }
    if count > 0 {
      runs := runs + [Run(diskFirst, count)];
    }
    PrintedAll(chunks, firstSector, Needed(fileSize), runs);
  }

  lemma PrintedAll(chunks: seq<Chunk>, first: int, n: nat, runs: seq<Run>)
    requires Printed(chunks, first, n, runs)
    ensures Expand(runs) == MappedSectors(chunks, first, n) && Unmergeable(runs) && InRange(runs)
  {
  }

  lemma Narrowed(chunks: seq<Chunk>, first: int, n: nat, low: int, high: int, s: int)
    requires Between(chunks, first, n, low, high) && Ends(low, high) && first <= s < first + n
    ensures low <= MapSector(chunks, s) <= high && MapSector(chunks, s) % 0x1_0000_0000 == MapSector(chunks, s)
    ensures 0 <= low && high <= 0xFFFF_FFFC
  {
    hide MapSector;
  }

  lemma MappedNext(chunks: seq<Chunk>, first: int, n: nat)
    ensures MappedSectors(chunks, first, n + 1)
         == MappedSectors(chunks, first, n) + Upward(Run(MapSector(chunks, first + n), 4))
  {
  }

  /** What a list of disk sectors holds. */
  function Gather(disk: Disk, sectors: seq<int>): (r: seq<byte>)
    ensures |r| == 512 * |sectors|
  {
    if sectors == [] then []
    else Gather(disk, sectors[..|sectors| - 1]) + DiskBytes(disk, 512 * sectors[|sectors| - 1], 512)
  }

  lemma {:induction false} GatherJoin(disk: Disk, a: seq<int>, b: seq<int>)
    ensures Gather(disk, a + b) == Gather(disk, a) + Gather(disk, b)
  {
    if b == [] {
      assert a + b == a;
    } else {
      GatherJoin(disk, a, b[..|b| - 1]);
      assert (a + b)[..|a + b| - 1] == a + b[..|b| - 1];
    }
  }

  lemma {:induction false} GatherUpward(disk: Disk, run: Run)
    requires run.count >= 0
    ensures Gather(disk, Upward(run)) == DiskBytes(disk, 512 * run.first, 512 * run.count)
    decreases run.count
  {
    if run.count > 0 {
      GatherUpward(disk, Run(run.first, run.count - 1));
      assert Upward(run)[..run.count - 1] == Upward(Run(run.first, run.count - 1));
    }
  }

  lemma {:induction false} MappedLength(chunks: seq<Chunk>, first: int, n: nat)
    ensures |MappedSectors(chunks, first, n)| == 4 * n
  {
    if n > 0 {
      MappedLength(chunks, first, n - 1);
    }
  }

  /** The disk sectors of a stretch of image sectors hold that stretch of the image. */
  lemma {:induction false} GatherIsImage(chunks: seq<Chunk>, disk: Disk, first: nat, n: nat)
    requires Contiguous(chunks, 0) && first + n <= TotalSectors(chunks)
    ensures 2048 * (first + n) <= |Image(chunks, disk)|
    ensures Gather(disk, MappedSectors(chunks, first, n)) == Image(chunks, disk)[2048 * first..2048 * (first + n)]
  {
    hide *;
    if n > 0 {
      GatherIsImage(chunks, disk, first, n - 1);
      GatherSlice(chunks, disk, first, n - 1);
    } else {
      ImageLength(chunks, disk, 0);
      GatherEmpty(chunks, disk, first, Image(chunks, disk));
    }
  }

  lemma GatherEmpty(chunks: seq<Chunk>, disk: Disk, first: nat, image: seq<byte>)
    requires 2048 * first <= |image|
    ensures Gather(disk, MappedSectors(chunks, first, 0)) == image[2048 * first..2048 * first]
  {
  }

  lemma GatherSlice(chunks: seq<Chunk>, disk: Disk, first: nat, n: nat)
    requires Contiguous(chunks, 0) && first + n < TotalSectors(chunks)
    requires 2048 * (first + n) <= |Image(chunks, disk)|
    requires Gather(disk, MappedSectors(chunks, first, n)) == Image(chunks, disk)[2048 * first..2048 * (first + n)]
    ensures 2048 * (first + n + 1) <= |Image(chunks, disk)|
    ensures Gather(disk, MappedSectors(chunks, first, n + 1))
         == Image(chunks, disk)[2048 * first..2048 * (first + n + 1)]
  {
    hide *;
    var s := first + n;
    MapIsImage(chunks, disk, s);
    GatherNext(chunks, disk, first, n);
    SliceJoin(Image(chunks, disk), 2048 * first, 2048 * s, 2048 * s + 2048);
  }

  lemma SliceJoin(s: seq<byte>, a: nat, b: nat, c: nat)
    requires a <= b <= c <= |s|
    ensures s[a..b] + s[b..c] == s[a..c]
  {
  }

  lemma GatherNext(chunks: seq<Chunk>, disk: Disk, first: nat, n: nat)
    ensures Gather(disk, MappedSectors(chunks, first, n + 1))
         == Gather(disk, MappedSectors(chunks, first, n)) + DiskBytes(disk, 512 * MapSector(chunks, first + n), 2048)
  {
    hide Gather, MapSector;
    var run := Run(MapSector(chunks, first + n), 4);
    GatherUpward(disk, run);
    GatherJoin(disk, MappedSectors(chunks, first, n), Upward(run));
  }

  /** The output is the first n bytes that k image sectors hold. */
  ghost predicate Written(chunks: seq<Chunk>, disk: Disk, first: nat, k: nat, out: seq<byte>, n: nat) {
    && |MappedSectors(chunks, first, k)| == 4 * k && n <= 2048 * k
    && out == Gather(disk, MappedSectors(chunks, first, k))[..n]
  }

  lemma NothingWritten(chunks: seq<Chunk>, disk: Disk, first: nat)
    ensures Written(chunks, disk, first, 0, [], 0)
  {
  }

  lemma WrittenNext(chunks: seq<Chunk>, disk: Disk, first: nat, k: nat, out: seq<byte>, buf: seq<byte>, n: nat)
    requires Written(chunks, disk, first, k, out, 2048 * k) && n <= 2048
    requires buf == DiskBytes(disk, 512 * MapSector(chunks, first + k), 2048)
    ensures Written(chunks, disk, first, k + 1, out + buf[..n], 2048 * k + n)
  {
    MappedLength(chunks, first, k + 1);
    GatherNext(chunks, disk, first, k);
    var whole := Gather(disk, MappedSectors(chunks, first, k));
    hide Gather, MappedSectors, MapSector, DiskBytes;
    assert whole[..2048 * k] == whole;
    assert (whole + buf)[..2048 * k + n] == whole + buf[..n];
  }

  /** Writes the file out: sector by sector, the last one cut. */
  method ExtractFile(chunks: seq<Chunk>, disk: Disk, firstSector: nat, fileSize: nat) returns (out: seq<byte>)
    ensures |MappedSectors(chunks, firstSector, Needed(fileSize))| == 4 * Needed(fileSize)
    ensures out == Gather(disk, MappedSectors(chunks, firstSector, Needed(fileSize)))[..fileSize]
  {
    hide *;
    NeededNone();
    out := [];
    var size, s := fileSize, firstSector;
    NothingWritten(chunks, disk, firstSector);
    while size > 0
      invariant 0 <= size <= fileSize && firstSector <= s && s + Needed(size) == firstSector + Needed(fileSize)
      invariant size > 0 ==> fileSize - size == 2048 * (s - firstSector)
      invariant Written(chunks, disk, firstSector, s - firstSector, out, fileSize - size)
    {
      NeededNext(size);
      var diskSector := FindSector(chunks, s);
      var buf := DiskBytes(disk, diskSector * 512, 2048);
      var n := if size > 2048 then 2048 else size;
      WrittenNext(chunks, disk, firstSector, s - firstSector, out, buf, n);
      s := s + 1;
      out := out + buf[..n];
      size := size - n;
    }
    WrittenAll(chunks, disk, firstSector, Needed(fileSize), out, fileSize);
  }

  lemma WrittenAll(chunks: seq<Chunk>, disk: Disk, first: nat, k: nat, out: seq<byte>, n: nat)
    requires Written(chunks, disk, first, k, out, n)
    ensures |MappedSectors(chunks, first, k)| == 4 * k && n <= 2048 * k
    ensures out == Gather(disk, MappedSectors(chunks, first, k))[..n]
  {
  }

  /** Inside the image, the written file is that slice of the flat image. */
  lemma ExtractIsImage(chunks: seq<Chunk>, disk: Disk, firstSector: nat, fileSize: nat)
    requires Contiguous(chunks, 0) && 2048 * firstSector + fileSize <= |Image(chunks, disk)|
    ensures |MappedSectors(chunks, firstSector, Needed(fileSize))| == 4 * Needed(fileSize)
    ensures Gather(disk, MappedSectors(chunks, firstSector, Needed(fileSize)))[..fileSize]
         == Image(chunks, disk)[2048 * firstSector..2048 * firstSector + fileSize]
  {
    ImageLength(chunks, disk, 0);
    MappedLength(chunks, firstSector, Needed(fileSize));
    hide Gather, MappedSectors, Image, Contiguous, TotalSectors;
    GatherIsImage(chunks, disk, firstSector, Needed(fileSize));
    SliceOfSlice(Image(chunks, disk), 2048 * firstSector, 2048 * Needed(fileSize), 0, fileSize);
  }

  /** What reading run after run gives. */
  function RunBytes(disk: Disk, runs: seq<Run>): seq<byte>
    requires InRange(runs)
  {
    if runs == [] then []
    else
      var run := runs[|runs| - 1];
      RunBytes(disk, runs[..|runs| - 1]) + DiskBytes(disk, 512 * run.first, 512 * run.count)
  }

  lemma {:induction false} RunsGather(disk: Disk, runs: seq<Run>)
    requires InRange(runs)
    ensures RunBytes(disk, runs) == Gather(disk, Expand(runs))
  {
    if runs != [] {
      var front, run := runs[..|runs| - 1], runs[|runs| - 1];
      RunsGather(disk, front);
      GatherUpward(disk, run);
      GatherJoin(disk, Expand(front), Upward(run));
    }
  }

  /** Both ways to take the file out: the printed runs, read one after the other and cut at the size, hold what the
      direct extraction writes, and inside the image that is a slice of the flat image. */
  method ExtractBothWays(chunks: seq<Chunk>, disk: Disk, firstSector: nat, fileSize: nat)
    returns (runs: seq<Run>, out: seq<byte>)
    requires Narrow(chunks, firstSector, Needed(fileSize))
    ensures InRange(runs) && fileSize <= |RunBytes(disk, runs)| && out == RunBytes(disk, runs)[..fileSize]
    ensures Contiguous(chunks, 0) && 2048 * firstSector + fileSize <= |Image(chunks, disk)| ==>
              out == Image(chunks, disk)[2048 * firstSector..2048 * firstSector + fileSize]
  {
    hide *;
    runs := PrintExtract(chunks, firstSector, fileSize);
    out := ExtractFile(chunks, disk, firstSector, fileSize);
    RunsGather(disk, runs);
    Enough(fileSize);
    if Contiguous(chunks, 0) && 2048 * firstSector + fileSize <= |Image(chunks, disk)| {
      ExtractIsImage(chunks, disk, firstSector, fileSize);
    }
  }

  lemma Enough(size: nat)
    ensures size <= 512 * (4 * Needed(size))
  {
  }
}
