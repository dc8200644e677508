/** The vlnk record: a link to a file on a disk, with a CRC-32C over the whole record. */
module Vlnk {
  import opened Bytes
  import opened Bits
  import opened Crc32c
  import opened Crc32cTable
  import opened CrcBursts

  const RECORD := 512
  const NAME_MAX := 384

  /** VENTOY_GUID as it lies in memory. */
  const GUID: seq<byte> := [0x20, 0x20, 0x77, 0x77, 0x77, 0x2E, 0x76, 0x65,
                            0x6E, 0x74, 0x6F, 0x79, 0x2E, 0x6E, 0x65, 0x74]

  /** The lowest n bytes of v, lowest first. */
  function Little(v: nat, n: nat): (r: seq<byte>)
    ensures |r| == n
    decreases n
  {
    if n == 0 then [] else [(v % 256) as byte] + Little(v / 256, n - 1)
  }

  function ByteOf(x: Bits): byte
    requires |x| == 8
  {
    assert Power2(8) == 256;
    ToNat(x) as byte
  }

  /** A word as it lies in memory; BitsOf reads it back. */
  function Stored(x: Bits): (r: seq<byte>)
    requires |x| % 8 == 0
    ensures |r| == |x| / 8
  {
    if x == [] then [] else [ByteOf(x[..8])] + Stored(x[8..])
  }

  lemma {:induction false} StoredLoaded(x: Bits)
    requires |x| % 8 == 0
    ensures BitsOf(Stored(x)) == x
  {
    if x != [] {
      StoredLoaded(x[8..]);
      FromToNat(x[..8]);
      hide FromNat, ToNat;
      assert Stored(x)[1..] == Stored(x[8..]);
      assert x == x[..8] + x[8..];
    }
  }

  const EMPTY: seq<byte> := [0, 0, 0, 0]

  predicate IsRecord(r: seq<byte>) {
    |r| == RECORD
  }

  function CrcField(r: seq<byte>): seq<byte>
    requires IsRecord(r)
  {
    r[16..20]
  }

  function WithCrc(r: seq<byte>, field: seq<byte>): (s: seq<byte>)
    requires IsRecord(r) && |field| == 4
    ensures IsRecord(s) && CrcField(s) == field && s[..16] == r[..16] && s[20..] == r[20..]
  {
    r[..16] + field + r[20..]
  }

  /** What CheckVlnkData decides. */
  predicate Passes(r: seq<byte>)
    requires IsRecord(r)
  {
    r[..16] == GUID && BitsOf(CrcField(r)) == Crc(Zero(32), WithCrc(r, EMPTY))
  }

  /** strncpy into a field of 384 bytes with the limit 383: the rest up to there is zero, and the
      last byte of the field is not written. */
  function PathField(path: seq<byte>, last: byte): (r: seq<byte>)
    ensures |r| == NAME_MAX
  {
    var n := if |path| < NAME_MAX - 1 then |path| else NAME_MAX - 1;
    path[..n] + seq(NAME_MAX - 1 - n, _ => 0 as byte) + [last]
  }

  /** The record before its CRC is filled in; the CRC field, the last byte of the path and the
      reserved bytes are those of the buffer. */
  function Unsigned(sig: nat, offset: nat, path: seq<byte>, buf: seq<byte>): (r: seq<byte>)
    requires IsRecord(buf)
    ensures IsRecord(r) && CrcField(r) == CrcField(buf) && r[..16] == GUID
  {
    var fields := Little(sig, 4) + Little(offset, 8) + PathField(path, buf[415]) + buf[416..];
    GUID + CrcField(buf) + fields
  }

  function Created(sig: nat, offset: nat, path: seq<byte>, buf: seq<byte>): (r: seq<byte>)
    requires IsRecord(buf)
    ensures IsRecord(r)
  {
    var r := Unsigned(sig, offset, path, buf);
    WithCrc(r, Stored(Crc(Zero(32), r)))
  }

  // ----- What a record says -----

  /** The number in bytes, lowest first. */
  function Number(s: seq<byte>): nat {
    if s == [] then 0 else s[0] as nat + 256 * Number(s[1..])
  }

  function Range(n: nat): nat {
    if n == 0 then 1 else 256 * Range(n - 1)
  }

  lemma {:induction false} NumberOfLittle(v: nat, n: nat)
    requires v < Range(n)
    ensures Number(Little(v, n)) == v
    decreases n
  {
    if n > 0 {
      NumberOfLittle(v / 256, n - 1);
      assert Little(v, n)[1..] == Little(v / 256, n - 1);
    }
  }

  /** GUID, signature, offset and path are read back from a created record, byte 415 and the ones behind it stay, and
      the CRC is that of the record with the buffer's bytes in its place. */
  lemma ReadsBack(sig: nat, offset: nat, path: seq<byte>, buf: seq<byte>)
    requires IsRecord(buf) && sig < 0x1_0000_0000 && offset < 0x1_0000_0000_0000_0000
    ensures var r := Created(sig, offset, path, buf);
            var n := if |path| < 383 then |path| else 383;
            && |r| == 512 && (forall i :: 0 <= i < 16 ==> r[i] as int == "  www.ventoy.net"[i] as int)
            && Number(r[20..24]) == sig && Number(r[24..32]) == offset
            && r[32..32 + n] == path[..n] && (forall i :: 32 + n <= i < 415 ==> r[i] == 0)
            && r[415..] == buf[415..]
            && BitsOf(r[16..20]) == Crc(Zero(32), r[..16] + buf[16..20] + r[20..])
  {
    var u, r := Unsigned(sig, offset, path, buf), Created(sig, offset, path, buf);
    Parts(sig, offset, path, buf);
    assert Range(4) == 0x1_0000_0000 && Range(8) == 0x1_0000_0000_0000_0000;
    NumberOfLittle(sig, 4);
    NumberOfLittle(offset, 8);
    StoredLoaded(Crc(Zero(32), u));
    hide Unsigned, PathField, Little, Number, Crc, BitsOf, Stored, Range;
    GuidText(r);
    SameBehind(u, r);
    assert u == r[..16] + buf[16..20] + r[20..];
  }

  lemma GuidText(r: seq<byte>)
    requires |r| == 512 && r[..16] == GUID
    ensures forall i :: 0 <= i < 16 ==> r[i] as int == "  www.ventoy.net"[i] as int
  {
    assert forall i :: 0 <= i < 16 ==> r[i] == GUID[i];
  }

  lemma SameBehind(u: seq<byte>, r: seq<byte>)
    requires |u| == |r| == 512 && u[20..] == r[20..]
    ensures forall i, j :: 20 <= i <= j <= 512 ==> r[i..j] == u[i..j]
    ensures r[415..] == u[415..] && forall i :: 20 <= i < 512 ==> r[i] == u[i]
  {
    forall i | 20 <= i < 512 ensures r[i] == u[i] {
      assert r[i] == r[20..][i - 20];
    }
  }

  lemma Parts(sig: nat, offset: nat, path: seq<byte>, buf: seq<byte>)
    requires IsRecord(buf)
    ensures var u := Unsigned(sig, offset, path, buf);
            var n := if |path| < 383 then |path| else 383;
            && u[20..24] == Little(sig, 4) && u[24..32] == Little(offset, 8)
            && u[32..32 + n] == path[..n] && (forall i :: 32 + n <= i < 415 ==> u[i] == 0) && u[415..] == buf[415..]
  {
    hide Little;
    var p := PathField(path, buf[415]);
    var u := Unsigned(sig, offset, path, buf);
    assert u == (GUID + CrcField(buf)) + Little(sig, 4) + Little(offset, 8) + p + buf[416..];
    assert u[32..416] == p;
    assert forall i :: 32 <= i < 416 ==> u[i] == u[32..416][i - 32];
  }

  /** The check, by the bytes: the GUID is there, and the CRC is that of the record with four zeros in its place. */
  lemma PassesInFull(r: seq<byte>)
    requires |r| == 512
    ensures Passes(r) <==> (forall i :: 0 <= i < 16 ==> r[i] as int == "  www.ventoy.net"[i] as int)
                           && BitsOf(r[16..20]) == Crc(Zero(32), r[..16] + [0, 0, 0, 0] + r[20..])
  {
    hide BitsOf, Crc;
    if forall i :: 0 <= i < 16 ==> r[i] as int == "  www.ventoy.net"[i] as int {
      assert forall i :: 0 <= i < 16 ==> r[..16][i] == GUID[i];
      assert r[..16] == GUID;
    }
    if r[..16] == GUID {
      GuidText(r);
    }
  }

  // ----- What the check detects -----

  /** Records that differ only in the CRC field have the same CRC only if they are the same. */
  lemma FieldMatters(r: seq<byte>, s: seq<byte>)
    requires IsRecord(r) && IsRecord(s) && r[..16] == s[..16] && r[20..] == s[20..]
    ensures Crc(Zero(32), r) == Crc(Zero(32), s) <==> CrcField(r) == CrcField(s)
  {
    assert r == r[..16] + CrcField(r) + r[20..] && s == s[..16] + CrcField(s) + s[20..];
    if r != s {
      BurstDetected(Zero(32), r, s, 16);
    }
  }

  /** A created record passes the check exactly when the buffer's CRC field was zero. */
  lemma CreatedPasses(sig: nat, offset: nat, path: seq<byte>, buf: seq<byte>)
    requires IsRecord(buf)
    ensures Passes(Created(sig, offset, path, buf)) <==> CrcField(buf) == EMPTY
  {
    var u := Unsigned(sig, offset, path, buf);
    var r := Created(sig, offset, path, buf);
    StoredLoaded(Crc(Zero(32), u));
    assert WithCrc(r, EMPTY) == WithCrc(u, EMPTY);
    FieldMatters(u, WithCrc(u, EMPTY));
    hide Crc, Unsigned, BitsOf, Stored;
  }

  /** Zeroed buffers, as the program that makes vlnk files uses, give records that pass. */
  lemma ZeroedPasses(sig: nat, offset: nat, path: seq<byte>, buf: seq<byte>)
    requires IsRecord(buf) && forall i :: 0 <= i < RECORD ==> buf[i] == 0
    ensures Passes(Created(sig, offset, path, buf))
  {
    CreatedPasses(sig, offset, path, buf);
  }

  /** Any change of a record that passes, confined to four consecutive bytes outside the CRC
      field, makes it fail. */
  lemma BurstFails(r: seq<byte>, s: seq<byte>, p: nat)
    requires IsRecord(r) && Passes(r) && BurstAt(r, s, p) && r != s
    requires p + 4 <= 16 || 20 <= p
    ensures !Passes(s)
  {
    var rz, sz := WithCrc(r, EMPTY), WithCrc(s, EMPTY);
    FieldApart(r, s, p);
    BurstDetected(Zero(32), rz, sz, p);
    hide Crc, BitsOf;
  }

  lemma FieldApart(r: seq<byte>, s: seq<byte>, p: nat)
    requires IsRecord(r) && BurstAt(r, s, p) && r != s
    requires p + 4 <= 16 || 20 <= p
    ensures CrcField(r) == CrcField(s)
    ensures BurstAt(WithCrc(r, EMPTY), WithCrc(s, EMPTY), p) && WithCrc(r, EMPTY) != WithCrc(s, EMPTY)
  {
    forall i | 0 <= i < RECORD && !(p <= i < p + 4) ensures r[i] == s[i] {
      assert i < p ==> r[..p][i] == s[..p][i];
      assert i >= p + 4 ==> r[p + 4..][i - p - 4] == s[p + 4..][i - p - 4];
    }
    var rz, sz := WithCrc(r, EMPTY), WithCrc(s, EMPTY);
    assert r == WithCrc(rz, CrcField(r));
    assert s == WithCrc(sz, CrcField(s));
  }

  /** A change of the CRC field alone makes it fail too. */
  lemma FieldChangeFails(r: seq<byte>, field: seq<byte>)
    requires IsRecord(r) && Passes(r) && |field| == 4 && field != CrcField(r)
    ensures !Passes(WithCrc(r, field))
  {
    var s := WithCrc(r, field);
    assert WithCrc(s, EMPTY) == WithCrc(r, EMPTY);
    hide Crc, BitsOf;
    if Passes(s) {
      BitsInjective(field, CrcField(r));
      assert false;
    }
  }

  // ----- The code -----

  /** Copies bytes into the record at p. */
  method Put(vlnk: array<byte>, p: nat, bytes: seq<byte>)
    requires p + |bytes| <= vlnk.Length
    modifies vlnk
    ensures vlnk[..] == Splice(old(vlnk[..]), p, bytes)
  {
    forall i | p <= i < p + |bytes| {
      vlnk[i] := bytes[i - p];
    }
  }

  lemma UnsignedByFields(sig: nat, offset: nat, path: seq<byte>, buf: seq<byte>)
    requires IsRecord(buf)
    ensures var r := Splice(Splice(buf, 0, GUID), 20, Little(sig, 4));
            Splice(Splice(r, 24, Little(offset, 8)), 32, PathField(path, buf[415])) == Unsigned(sig, offset, path, buf)
  {
    hide Little, PathField;
    var r := Splice(Splice(buf, 0, GUID), 20, Little(sig, 4));
    assert r == GUID + CrcField(buf) + Little(sig, 4) + buf[24..];
    var q := Splice(r, 24, Little(offset, 8));
    assert q == GUID + CrcField(buf) + Little(sig, 4) + Little(offset, 8) + buf[32..];
  }

  /** path is a C string, so it has no zero byte. */
  method CreateVlnk(sig: nat, offset: nat, path: seq<byte>, vlnk: array<byte>, checksum: Checksum)
    requires vlnk.Length == RECORD && checksum.Valid()
    requires forall i :: 0 <= i < |path| ==> path[i] != 0
    modifies vlnk, checksum.table
    ensures checksum.Valid() && vlnk[..] == Created(sig, offset, path, old(vlnk[..]))
  {
    hide Splice, PathField, Little, Unsigned, Crc;
    UnsignedByFields(sig, offset, path, vlnk[..]);
    var last := vlnk[415];
    Put(vlnk, 0, GUID);
    Put(vlnk, 20, Little(sig, 4));
    Put(vlnk, 24, Little(offset, 8));
    Put(vlnk, 32, PathField(path, last));
    var crc := checksum.GetCrc32c(Zero(32), vlnk[..]);
    CrcSplice(vlnk[..], Stored(crc));
    Put(vlnk, 16, Stored(crc));
  }

  lemma CrcSplice(r: seq<byte>, field: seq<byte>)
    requires IsRecord(r) && |field| == 4
    ensures Splice(r, 16, field) == WithCrc(r, field)
  {
  }

  /** The check; the CRC field is cleared in place once the GUID has matched. */
  method CheckVlnkData(vlnk: array<byte>, checksum: Checksum) returns (ok: bool)
    requires vlnk.Length == RECORD && checksum.Valid()
    modifies vlnk, checksum.table
    ensures checksum.Valid() && ok == Passes(old(vlnk[..]))
    ensures vlnk[..] == if old(vlnk[..16]) == GUID then WithCrc(old(vlnk[..]), EMPTY) else old(vlnk[..])
  {
    if vlnk[..16] != GUID {
      assert vlnk[..][..16] == vlnk[..16];
      return false;
    }
    var readCrc := BitsOf(vlnk[16..20]);
    Put(vlnk, 16, EMPTY);
    var calcCrc := checksum.GetCrc32c(Zero(32), vlnk[..]);
    ok := readCrc == calcCrc;
  }
}
