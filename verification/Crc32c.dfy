/** CRC-32C (section 12.1 of RFC 3720) with its byte table, filled by a division with the high bit first between
    two bit reversals, against bit-at-a-time division with the low bit first. */
module Crc32c {
  import opened Bytes
  import opened Bits

  type Word = x: Bits | |x| == 32 witness Zero(32)

  const POLYNOMIAL: Word := FromNat(0x1EDC6F41, 32)

  /** The polynomial with the bit order reversed; ReflectedPolynomial gives it as a number. */
  const REFLECTED: Word := Reverse(POLYNOMIAL)

  // ----- Reversing bits -----

  lemma ReverseTwice(x: Bits)
    ensures Reverse(Reverse(x)) == x
  {
  }

  lemma ReverseXor(x: Word, y: Word)
    ensures Reverse(Xor(x, y)) == Xor(Reverse(x), Reverse(y))
  {
  }

  lemma ReverseDouble(x: Word)
    ensures Reverse(Double(x)) == Half(Reverse(x))
  {
  }

  lemma ByteFirst(m: nat, n: nat, z: nat)
    requires m < 256
    ensures FromNat(m + 256 * n, 8 + z) == FromNat(m, 8) + FromNat(n, z)
  {
    hide FromNat;
    assert Power2(8) == 256;
    FromNatSplit(n, m, 8, z);
  }

  lemma FourBytes(a: nat, b: nat, c: nat, d: nat)
    requires a < 256 && b < 256 && c < 256
    ensures FromNat(a + 256 * (b + 256 * (c + 256 * d)), 32)
        == FromNat(a, 8) + (FromNat(b, 8) + (FromNat(c, 8) + FromNat(d, 8)))
  {
    hide *;
    ByteFirst(a, b + 256 * (c + 256 * d), 24);
    ByteFirst(b, c + 256 * d, 16);
    ByteFirst(c, d, 8);
  }

  lemma ReverseJoin(x: Bits, y: Bits)
    ensures Reverse(x + y) == Reverse(y) + Reverse(x)
  {
  }

  lemma Nibble(n: nat, w: nat)
    requires w >= 4
    ensures FromNat(n, w) == [n % 2 == 1, n / 2 % 2 == 1, n / 4 % 2 == 1, n / 8 % 2 == 1] + FromNat(n / 16, w - 4)
  {
    assert n / 2 / 2 == n / 4 && n / 4 / 2 == n / 8 && n / 8 / 2 == n / 16;
    assert FromNat(n, w) == [n % 2 == 1] + FromNat(n / 2, w - 1);
    assert FromNat(n / 2, w - 1) == [n / 2 % 2 == 1] + FromNat(n / 4, w - 2);
    assert FromNat(n / 4, w - 2) == [n / 4 % 2 == 1] + FromNat(n / 8, w - 3);
    assert FromNat(n / 8, w - 3) == [n / 8 % 2 == 1] + FromNat(n / 16, w - 4);
  }

  lemma Octet(n: nat)
    ensures FromNat(n, 8) == [n % 2 == 1, n / 2 % 2 == 1, n / 4 % 2 == 1, n / 8 % 2 == 1, n / 16 % 2 == 1,
                              n / 32 % 2 == 1, n / 64 % 2 == 1, n / 128 % 2 == 1]
  {
    hide FromNat;
    Nibble(n, 8);
    Nibble(n / 16, 4);
    assert n / 16 / 2 == n / 32 && n / 16 / 4 == n / 64 && n / 16 / 8 == n / 128;
    assert FromNat(n / 16 / 16, 0) == [];
  }

  lemma ReverseNibble(a: bool, b: bool, c: bool, d: bool)
    ensures Reverse([a, b, c, d]) == [d, c, b, a]
  {
  }

  lemma ReverseEight(a: bool, b: bool, c: bool, d: bool, e: bool, f: bool, g: bool, h: bool)
    ensures Reverse([a, b, c, d, e, f, g, h]) == [h, g, f, e, d, c, b, a]
  {
    hide Reverse;
    ReverseNibble(a, b, c, d);
    ReverseNibble(e, f, g, h);
    ReverseJoin([a, b, c, d], [e, f, g, h]);
    assert [a, b, c, d] + [e, f, g, h] == [a, b, c, d, e, f, g, h];
    assert [h, g, f, e] + [d, c, b, a] == [h, g, f, e, d, c, b, a];
  }

  /** m has the low eight bits of n in reverse order. */
  lemma ReversedByte(n: nat, m: nat)
    requires n % 2 == m / 128 % 2 && n / 2 % 2 == m / 64 % 2 && n / 4 % 2 == m / 32 % 2 && n / 8 % 2 == m / 16 % 2
    requires n / 16 % 2 == m / 8 % 2 && n / 32 % 2 == m / 4 % 2 && n / 64 % 2 == m / 2 % 2 && n / 128 % 2 == m % 2
    ensures Reverse(FromNat(n, 8)) == FromNat(m, 8)
  {
    hide FromNat, Reverse;
    Octet(n);
    Octet(m);
    ReverseEight(n % 2 == 1, n / 2 % 2 == 1, n / 4 % 2 == 1, n / 8 % 2 == 1,
                 n / 16 % 2 == 1, n / 32 % 2 == 1, n / 64 % 2 == 1, n / 128 % 2 == 1);
  }

  /** The polynomial with the bit order reversed is the number usually given for it. */
  lemma ReflectedPolynomial()
    ensures REFLECTED == FromNat(0x82F63B78, 32)
  {
    hide FromNat, Reverse;
    FourBytes(0x41, 0x6F, 0xDC, 0x1E);
    FourBytes(0x78, 0x3B, 0xF6, 0x82);
    var a, b, c, d := FromNat(0x41, 8), FromNat(0x6F, 8), FromNat(0xDC, 8), FromNat(0x1E, 8);
    ReverseJoin(a, b + (c + d));
    ReverseJoin(b, c + d);
    ReverseJoin(c, d);
    ReversedByte(0x41, 0x82);
    ReversedByte(0x6F, 0xF6);
    ReversedByte(0xDC, 0x3B);
    ReversedByte(0x1E, 0x78);
    Regroup(Reverse(d), Reverse(c), Reverse(b), Reverse(a));
  }

  lemma Regroup(a: Bits, b: Bits, c: Bits, d: Bits)
    ensures a + b + c + d == a + (b + (c + d))
  {
  }

  /** The lowest len bits of x in reverse order. */
  function Reflected(x: Word, len: nat): (r: Word)
    requires len <= 32
    ensures forall k :: 0 <= k < 32 ==> r[k] == if k < len then x[len - 1 - k] else false
  {
    Reverse(x[..len]) + Zero(32 - len)
  }

  method Reflect(ref: Word, len: nat) returns (result: Word)
    requires len <= 32
    ensures result == Reflected(ref, len)
  {
    result := Zero(32);
    var rest := ref;
    for i := 1 to len + 1
      invariant forall k :: 0 <= k < 32 - (i - 1) ==> rest[k] == ref[k + (i - 1)]
      invariant forall k :: 0 <= k < 32 ==> result[k] == if len - i < k < len then ref[len - 1 - k] else false
    {
      if rest[0] {
        result := result[len - i := true];
      }
      rest := Half(rest);
    }
  }

  // ----- Bit-at-a-time division -----

  /** Divides by one bit, the low one, which says whether the polynomial goes in. */
  function Step(c: Word): Word {
    if c[0] then Xor(Half(c), REFLECTED) else Half(c)
  }

  function Steps(c: Word, n: nat): Word {
    if n == 0 then c else Step(Steps(c, n - 1))
  }

  function ByteWord(b: byte): Word {
    FromNat(b as nat, 8) + Zero(24)
  }

  /** The register after the bytes of s, each brought in at the low end. */
  function Divide(c: Word, s: seq<byte>): Word {
    if s == [] then c else Steps(Xor(Divide(c, s[..|s| - 1]), ByteWord(s[|s| - 1])), 8)
  }

  /** CRC-32C continued from crc. */
  function Crc(crc: Word, s: seq<byte>): Word {
    Xor(Divide(Xor(crc, Ones(32)), s), Ones(32))
  }

  lemma StepXor(x: Word, y: Word)
    ensures Step(Xor(x, y)) == Xor(Step(x), Step(y))
  {
    hide FromNat, Xor, Half;
  }

  lemma {:induction false} StepsXor(x: Word, y: Word, n: nat)
    ensures Steps(Xor(x, y), n) == Xor(Steps(x, n), Steps(y, n))
  {
    if n > 0 {
      hide Step, Xor;
      StepsXor(x, y, n - 1);
      StepXor(Steps(x, n - 1), Steps(y, n - 1));
    }
  }

  lemma TopTerm()
    ensures REFLECTED[31]
  {
    hide FromNat;
    LowestBit(0x1EDC6F41, 32);
  }

  /** The low bit can be read off at the top, so a step can be undone. */
  lemma StepInjective(x: Word, y: Word)
    requires Step(x) == Step(y)
    ensures x == y
  {
    TopTerm();
    hide FromNat, Xor, Half;
    assert Step(x)[31] == x[0] && Step(y)[31] == y[0];
    assert Half(x) == Half(y) by {
      if x[0] {
        assert forall k :: 0 <= k < 32 ==> Half(x)[k] == (Step(x)[k] != REFLECTED[k]);
        assert forall k :: 0 <= k < 32 ==> Half(y)[k] == (Step(y)[k] != REFLECTED[k]);
      }
    }
    assert forall k :: 1 <= k < 32 ==> x[k] == Half(x)[k - 1] && y[k] == Half(y)[k - 1];
  }

  lemma {:induction false} StepsInjective(x: Word, y: Word, n: nat)
    requires Steps(x, n) == Steps(y, n)
    ensures x == y
  {
    if n > 0 {
      hide Step;
      StepInjective(Steps(x, n - 1), Steps(y, n - 1));
      StepsInjective(x, y, n - 1);
    }
  }

  lemma {:induction false} StepsZero(n: nat)
    ensures Steps(Zero(32), n) == Zero(32)
  {
    hide FromNat;
    if n > 0 {
      StepsZero(n - 1);
    }
  }

  /** Low bits that are zero are simply shifted out. */
  lemma {:induction false} StepsShift(x: Word, n: nat)
    requires n <= 32 && forall k :: 0 <= k < n ==> !x[k]
    ensures Steps(x, n) == x[n..] + Zero(n)
  {
    if n > 0 {
      StepsShift(x, n - 1);
    }
  }

  lemma DivideNone(c: Word)
    ensures Divide(c, []) == c
  {
  }

  lemma DivideNext(c: Word, s: seq<byte>, i: nat)
    requires i < |s|
    ensures Divide(c, s[..i + 1]) == Steps(Xor(Divide(c, s[..i]), ByteWord(s[i])), 8)
  {
    assert s[..i + 1][..i] == s[..i];
    hide Steps, Xor, ByteWord;
  }

  /** The register after one more part. */
  lemma {:induction false} DivideJoin(c: Word, s: seq<byte>, t: seq<byte>)
    ensures Divide(c, s + t) == Divide(Divide(c, s), t)
    decreases |t|
  {
    hide *;
    if t == [] {
      assert s + t == s;
      DivideNone(Divide(c, s));
    } else {
      var n := |t| - 1;
      DivideJoin(c, s, t[..n]);
      assert (s + t)[..|s| + n] == s + t[..n] && (s + t)[..|s| + n + 1] == s + t && t[..n + 1] == t;
      DivideNext(c, s + t, |s| + n);
      DivideNext(Divide(c, s), t, n);
    }
  }

  lemma XorTwice(x: Word, p: Word)
    ensures Xor(Xor(x, p), p) == x
  {
  }

  /** The CRC of a concatenation is the CRC continued from the first part. */
  lemma CrcJoin(crc: Word, s: seq<byte>, t: seq<byte>)
    ensures Crc(crc, s + t) == Crc(Crc(crc, s), t)
  {
    hide Divide, Xor;
    DivideJoin(Xor(crc, Ones(32)), s, t);
    XorTwice(Divide(Xor(crc, Ones(32)), s), Ones(32));
  }
}
