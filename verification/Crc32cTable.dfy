/** The byte table of CRC-32C and the checksum computed with it. */
module Crc32cTable {
  import opened Bytes
  import opened Bits
  import opened Crc32c

  /** The division in the other order, high bit first. */
  function StepHigh(r: Word): Word {
    if r[31] then Xor(Double(r), POLYNOMIAL) else Double(r)
  }

  /** Reversal turns a step of one order into a step of the other. */
  lemma StepReversed(r: Word)
    ensures Reverse(StepHigh(r)) == Step(Reverse(r))
  {
    ReverseDouble(r);
    if r[31] {
      ReverseXor(Double(r), POLYNOMIAL);
      ReverseTwice(POLYNOMIAL);
    }
    hide Double, Half, Xor;
  }

  /** x << 24 */
  function Top(x: Word): (r: Word)
    ensures forall k :: 0 <= k < 32 ==> r[k] == if k < 24 then false else x[k - 24]
  {
    Zero(24) + x[..8]
  }

  /** A byte reversed in its 8 bits and moved to the top is reversed in 32 bits. */
  lemma ByteReversed(x: Word)
    requires forall k :: 8 <= k < 32 ==> !x[k]
    ensures Reverse(Top(Reflected(x, 8))) == x
  {
  }

  function TableEntry(i: nat): Word {
    Steps(FromNat(i, 32), 8)
  }

  predicate Filled(table: seq<Word>) {
    |table| == 256 && forall i :: 0 <= i < 256 ==> table[i] == TableEntry(i)
  }

  /** The table index of a byte step: the low byte of the register against the data. */
  function Index(c: Word, b: byte): nat {
    ToNat(Xor(c[..8], FromNat(b as nat, 8)))
  }

  /** x >> 8 */
  function Shifted(c: Word): Word {
    c[8..] + Zero(8)
  }

  function Upper(c: Word): Word {
    Zero(8) + c[8..]
  }

  lemma XorLow(c: Word, data: Bits)
    requires |data| == 8
    ensures Xor(c, data + Zero(24)) == Xor(Upper(c), Xor(c[..8], data) + Zero(24))
  {
    var x, y := Xor(c, data + Zero(24)), Xor(Upper(c), Xor(c[..8], data) + Zero(24));
    forall k | 0 <= k < 32 ensures x[k] == y[k] {
      if k < 8 {
        assert c[..8][k] == c[k];
      }
    }
  }

  lemma SplitByte(c: Word, b: byte)
    ensures Index(c, b) < 256
    ensures Xor(c, ByteWord(b)) == Xor(Upper(c), FromNat(Index(c, b), 32))
  {
    var data := FromNat(b as nat, 8);
    assert Power2(8) == 256;
    XorLow(c, data);
    FromToNat(Xor(c[..8], data));
    FromNatWide(Index(c, b), 8, 24);
    hide FromNat, Xor, Upper;
  }

  /** The byte step: only the low byte needs the table, the rest is shifted down. */
  lemma ByteStep(c: Word, b: byte)
    ensures Index(c, b) < 256
    ensures Steps(Xor(c, ByteWord(b)), 8) == Xor(Shifted(c), TableEntry(Index(c, b)))
  {
    SplitByte(c, b);
    assert Steps(Upper(c), 8) == Shifted(c) by {
      StepsShift(Upper(c), 8);
      assert Upper(c)[8..] == c[8..];
    }
    hide Steps, Xor, ByteWord, Shifted, Index, Upper, FromNat;
    StepsXor(Upper(c), FromNat(Index(c, b), 32), 8);
  }

  /** The table is never mistaken for an empty one. */
  lemma EntryOne()
    ensures TableEntry(1) != Zero(32)
  {
    hide FromNat, Steps;
    LowestBit(1, 32);
    if TableEntry(1) == Zero(32) {
      StepsZero(8);
      StepsInjective(FromNat(1, 32), Zero(32), 8);
    }
  }

  lemma StepsZeroNext(x: Word, j: nat)
    ensures Steps(x, 0) == x && Steps(x, j + 1) == Step(Steps(x, j))
  {
  }

  class Checksum {
    const table: array<Word>

    ghost predicate Valid()
      reads table
    {
      table.Length == 256 && (table[1] != Zero(32) ==> Filled(table[..]))
    }

    constructor ()
      ensures Valid() && fresh(table)
    {
      table := new Word[256](_ => Zero(32));
    }

    /** One entry: division with the high bit first, between two reversals, in place. */
    method InitEntry(i: nat)
      requires i < 256 == table.Length
      modifies table
      ensures table[i] == TableEntry(i) && forall k :: 0 <= k < 256 && k != i ==> table[k] == old(table[k])
    {
      hide Reflected, Top, StepHigh, Steps, FromNat, Reverse;
      var r := Reflect(FromNat(i, 32), 8);
      table[i] := Top(r);
      EntryStart(i);
      StepsZeroNext(FromNat(i, 32), 0);
      for j := 0 to 8
        invariant Reverse(table[i]) == Steps(FromNat(i, 32), j)
        invariant forall k :: 0 <= k < 256 && k != i ==> table[k] == old(table[k])
      {
        StepReversed(table[i]);
        StepsZeroNext(FromNat(i, 32), j);
        table[i] := StepHigh(table[i]);
      }
      r := Reflect(table[i], 32);
      ReflectedAll(table[i]);
      table[i] := r;
    }

    method InitTable()
      requires table.Length == 256
      modifies table
      ensures Filled(table[..])
    {
      for i := 0 to 256
        invariant forall k :: 0 <= k < i ==> table[k] == TableEntry(k)
      {
        InitEntry(i);
      }
    }

    /** The table-driven checksum; the table is filled on first use, and never again. */
    method GetCrc32c(crc: Word, buf: seq<byte>) returns (r: Word)
      requires Valid()
      modifies table
      ensures Valid() && r == Crc(crc, buf)
      ensures Filled(table[..]) && table[1] != Zero(32)
    {
      hide Divide, Xor, Index, Shifted, Steps, FromNat, ByteWord;
      if table[1] == Zero(32) {
        InitTable();
      }
      var c := Xor(crc, Ones(32));
      assert Divide(c, []) == c by { DivideNone(c); }
      for i := 0 to |buf|
        invariant Filled(table[..]) && c == Divide(Xor(crc, Ones(32)), buf[..i])
      {
        ByteStep(c, buf[i]);
        DivideNext(Xor(crc, Ones(32)), buf, i);
        c := Xor(Shifted(c), table[Index(c, buf[i])]);
      }
      assert buf[..|buf|] == buf && buf[..0] == [];
      r := Xor(c, Ones(32));
      EntryOne();
    }
  }

  lemma ReflectedAll(x: Word)
    ensures Reflected(x, 32) == Reverse(x)
  {
  }

  lemma EntryStart(i: nat)
    requires i < 256
    ensures Reverse(Top(Reflected(FromNat(i, 32), 8))) == FromNat(i, 32)
  {
    assert Power2(8) == 256;
    FromNatWide(i, 8, 24);
    ByteReversed(FromNat(i, 32));
  }
}
