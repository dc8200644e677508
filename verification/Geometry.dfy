/** Cylinders, heads and sectors: how a sector number is put into the fields of a partition table entry. */
module Geometry {

  /** Fields of 10, 8 and 6 bits. */
  datatype Chs = Chs(cylinder: int, head: int, sector: int)

  /** Cylinders of that many heads, of 63 sectors each, on the disk. */
  function Cylinders(diskSize: int, heads: int): int
    requires heads > 0
  {
    diskSize / 512 / 63 / heads
  }

  /** The least number of heads in the list with at most 1024 cylinders, or 255. */
  function Heads(diskSize: int): int {
    if Cylinders(diskSize, 8) <= 1024 then 8
    else if Cylinders(diskSize, 16) <= 1024 then 16
    else if Cylinders(diskSize, 32) <= 1024 then 32
    else if Cylinders(diskSize, 64) <= 1024 then 64
    else if Cylinders(diskSize, 128) <= 1024 then 128
    else 255
  }

  /** Doubles the number of heads, in 8 bits, until there are at most 1024 cylinders; 255 if it wraps to 0 before. */
  method HeadCount(diskSize: int) returns (heads: int)
    requires 0 <= diskSize
    ensures heads in {8, 16, 32, 64, 128, 255} && heads == Heads(diskSize) && FewestHeads(diskSize, heads)
  {
    HeadsInBytes(diskSize);
    heads := 8;
    while heads != 0 && Cylinders(diskSize, heads) > 1024
      invariant heads in {0, 8, 16, 32, 64, 128}
      invariant forall n :: n in {8, 16, 32, 64, 128} && (heads == 0 || n < heads) ==> Cylinders(diskSize, n) > 1024
      decreases if heads == 0 then 0 else 256 - heads
    {
      heads := heads * 2 % 256;
    }
    if heads == 0 {
      heads := 255;
    }
    FewerCylinders(diskSize, heads);
  }

  /** In bytes: the fewest heads, each with 1024 cylinders and a bit of 63 sectors of 512 bytes, that hold the disk;
      255 if 128 do not. */
  predicate FewestHeads(diskSize: int, heads: int) {
    && (heads != 255 ==> diskSize < 1025 * 63 * 512 * heads)
    && (heads == 255 <==> diskSize >= 1025 * 63 * 512 * 128)
    && (8 < heads ==> diskSize >= 1025 * 63 * 512 * 8)
    && (16 < heads ==> diskSize >= 1025 * 63 * 512 * 16)
    && (32 < heads ==> diskSize >= 1025 * 63 * 512 * 32)
    && (64 < heads ==> diskSize >= 1025 * 63 * 512 * 64)
  }

  lemma HeadsInBytes(diskSize: int)
    requires 0 <= diskSize
    ensures Heads(diskSize) in {8, 16, 32, 64, 128, 255} && FewestHeads(diskSize, Heads(diskSize))
  {
    ManyCylinders(diskSize, 8);
    ManyCylinders(diskSize, 16);
    ManyCylinders(diskSize, 32);
    ManyCylinders(diskSize, 64);
    ManyCylinders(diskSize, 128);
    hide Cylinders;
  }

  lemma ManyCylinders(diskSize: int, heads: int)
    requires 0 <= diskSize && heads in {8, 16, 32, 64, 128}
    ensures Cylinders(diskSize, heads) > 1024 <==> diskSize >= 1025 * 63 * 512 * heads
  {
    var x := diskSize / 512 / 63;
    assert x >= 1025 * heads <==> diskSize >= 1025 * 63 * 512 * heads;
    if heads == 8 {
      assert x / 8 > 1024 <==> x >= 1025 * 8;
    } else if heads == 16 {
      assert x / 16 > 1024 <==> x >= 1025 * 16;
    } else if heads == 32 {
      assert x / 32 > 1024 <==> x >= 1025 * 32;
    } else if heads == 64 {
      assert x / 64 > 1024 <==> x >= 1025 * 64;
    } else {
      assert x / 128 > 1024 <==> x >= 1025 * 128;
    }
  }

  /** More heads, no more cylinders. */
  lemma FewerCylinders(diskSize: int, heads: int)
    requires 0 <= diskSize && heads in {8, 16, 32, 64, 128, 255}
    ensures heads != 255 && Cylinders(diskSize, heads) <= 1024 ==> Cylinders(diskSize, 128) <= 1024
  {
    var x := diskSize / 512 / 63;
    if heads == 8 {
      assert x / 128 <= x / 8;
    } else if heads == 16 {
      assert x / 128 <= x / 16;
    } else if heads == 32 {
      assert x / 128 <= x / 32;
    } else if heads == 64 {
      assert x / 128 <= x / 64;
    }
  }

  /** The fields of a sector number. */
  function Locate(lba: int, heads: int): Chs
    requires heads > 0
  {
    Chs(lba / 63 / heads % 1024, lba / 63 % heads % 256, lba % 63 + 1)
  }

  function Lba(c: Chs, heads: int): int {
    (c.cylinder * heads + c.head) * 63 + c.sector - 1
  }

  /** The sectors the fields can tell apart. */
  function Span(heads: int): int {
    1024 * heads * 63
  }

  lemma DivideHeads(x: int, heads: int) returns (q: int, h: int)
    requires 0 <= x && 0 < heads
    ensures q == x / heads && h == x % heads && x == q * heads + h && 0 <= q && 0 <= h < heads
  {
    q, h := x / heads, x % heads;
  }

  /** The fields are in range, and stand for the sector number up to multiples of the span. */
  lemma LocateCongruent(lba: int, heads: int) returns (k: int)
    requires 0 <= lba && 0 < heads < 256
    ensures var c := Locate(lba, heads);
            0 <= c.cylinder < 1024 && 0 <= c.head < heads && 1 <= c.sector <= 63
    ensures 0 <= k && lba == Lba(Locate(lba, heads), heads) + k * Span(heads)
    ensures 0 <= Lba(Locate(lba, heads), heads) < Span(heads)
  {
    var q, h := DivideHeads(lba / 63, heads);
    k := q / 1024;
    var c := q % 1024;
    assert Locate(lba, heads) == Chs(c, h, lba % 63 + 1);
    assert q * heads == 1024 * (k * heads) + c * heads by {
      assert q == 1024 * k + c;
      Distribute(k, c, heads);
    }
    assert k * Span(heads) == 63 * (1024 * (k * heads)) by {
      SpanTimes(k, heads);
    }
    CylinderBound(c, heads);
  }

  lemma Distribute(k: int, c: int, heads: int)
    ensures (1024 * k + c) * heads == 1024 * (k * heads) + c * heads
  {
  }

  lemma SpanTimes(k: int, heads: int)
    ensures k * Span(heads) == 63 * (1024 * (k * heads))
  {
  }

  lemma CylinderBound(c: int, heads: int)
    requires 0 <= c < 1024 && 0 < heads
    ensures 0 <= c * heads <= 1023 * heads
  {
  }

  /** The fields stand for exactly the sector number just when that is below the span. */
  lemma LocateExact(lba: int, heads: int)
    requires 0 <= lba && 0 < heads < 256
    ensures Lba(Locate(lba, heads), heads) == lba <==> lba < Span(heads)
  {
    var k := LocateCongruent(lba, heads);
    hide Locate, Lba;
    if k > 0 {
      assert k * Span(heads) >= Span(heads) by {
        Multiple(k, Span(heads));
      }
    } else {
      assert k * Span(heads) == 0;
    }
  }

  lemma Multiple(k: int, n: int)
    requires k > 0 && n >= 0
    ensures k * n >= n
  {
  }
}
