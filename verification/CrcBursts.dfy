/** What four bytes do to CRC-32C: every change that is confined to them is detected, and there are four that undo the
    register. */
module CrcBursts {
  import opened Bytes
  import opened Bits
  import opened Crc32c

  /** The bits of up to four bytes, filled up with zeros. */
  function BitsOf(w: seq<byte>): (r: Bits)
    ensures |r| == 8 * |w|
  {
    if w == [] then [] else FromNat(w[0] as nat, 8) + BitsOf(w[1..])
  }

  function Pad(w: seq<byte>): Word
    requires |w| <= 4
  {
    BitsOf(w) + Zero(32 - 8 * |w|)
  }

  lemma XorInjective(x: Word, y: Word, p: Word)
    requires Xor(x, p) == Xor(y, p)
    ensures x == y
  {
    XorTwice(x, p);
    XorTwice(y, p);
    hide Xor;
  }

  lemma {:induction false} StepsAdd(x: Word, m: nat, n: nat)
    ensures Steps(Steps(x, m), n) == Steps(x, m + n)
    decreases n
  {
    if n > 0 {
      StepsAdd(x, m, n - 1);
    }
  }

  /** x << 8 */
  function Up(x: Word): Word {
    Zero(8) + x[..24]
  }

  lemma UpShiftsBack(x: Word)
    requires forall k :: 24 <= k < 32 ==> !x[k]
    ensures Steps(Up(x), 8) == x
  {
    StepsShift(Up(x), 8);
    hide Steps;
    assert Up(x)[8..] == x[..24];
  }

  lemma PadCons(c: Word, b: byte, w: seq<byte>)
    requires |w| <= 3
    ensures Xor(Xor(c, ByteWord(b)), Up(Pad(w))) == Xor(c, Pad([b] + w))
  {
    hide FromNat;
    var low := FromNat(b as nat, 8);
    assert ([b] + w)[1..] == w;
    assert BitsOf([b] + w) == low + BitsOf(w);
    var pad := Pad([b] + w);
    assert pad == low + BitsOf(w) + Zero(24 - 8 * |w|);
    forall k | 0 <= k < 32 ensures pad[k] == (ByteWord(b)[k] != Up(Pad(w))[k]) {
      assert ByteWord(b)[k] == if k < 8 then low[k] else false;
      assert Up(Pad(w))[k] == if k < 8 then false else Pad(w)[k - 8];
    }
  }

  /** Bringing in up to four bytes one by one is bringing them in at once. */
  lemma {:induction false} DivideWord(c: Word, w: seq<byte>)
    requires |w| <= 4
    ensures Divide(c, w) == Steps(Xor(c, Pad(w)), 8 * |w|)
    decreases |w|
  {
    hide *;
    if w == [] {
      DivideNothing(c);
    } else {
      var b, rest := w[0], w[1..];
      assert w == [b] + rest;
      DivideOne(c, b);
      DivideJoin(c, [b], rest);
      DivideWord(Divide(c, [b]), rest);
      WordStep(c, b, rest);
      StepsAdd(Xor(c, Pad(w)), 8, 8 * |rest|);
    }
  }

  lemma DivideNothing(c: Word)
    ensures Divide(c, []) == Steps(Xor(c, Pad([])), 0)
  {
    assert Xor(c, Pad([])) == c;
  }

  lemma DivideOne(c: Word, b: byte)
    ensures Divide(c, [b]) == Steps(Xor(c, ByteWord(b)), 8)
  {
    assert [b][..0] == [];
    hide Steps, Xor, ByteWord;
  }

  lemma WordStep(c: Word, b: byte, rest: seq<byte>)
    requires |rest| <= 3
    ensures Xor(Steps(Xor(c, ByteWord(b)), 8), Pad(rest)) == Steps(Xor(c, Pad([b] + rest)), 8)
  {
    PadHigh(rest);
    UpShiftsBack(Pad(rest));
    PadCons(c, b, rest);
    hide Steps, Xor, ByteWord, Pad, Up;
    StepsXor(Xor(c, ByteWord(b)), Up(Pad(rest)), 8);
  }

  lemma PadHigh(w: seq<byte>)
    requires |w| <= 3
    ensures forall k :: 24 <= k < 32 ==> !Pad(w)[k]
  {
  }

  lemma {:induction false} BitsInjective(w: seq<byte>, v: seq<byte>)
    requires |w| == |v| && BitsOf(w) == BitsOf(v)
    ensures w == v
  {
    hide *;
    if w != [] {
      FirstByte(w);
      FirstByte(v);
      assert BitsOf(w)[8..] == BitsOf(v)[8..];
      BitsInjective(w[1..], v[1..]);
      assert w == [w[0]] + w[1..] && v == [v[0]] + v[1..];
    }
  }

  lemma FirstByte(w: seq<byte>)
    requires w != []
    ensures ToNat(BitsOf(w)[..8]) == w[0] as nat && BitsOf(w)[8..] == BitsOf(w[1..])
  {
    assert Power2(8) == 256;
    ToFromNat(w[0] as nat, 8);
    hide FromNat, ToNat;
    assert BitsOf(w)[..8] == FromNat(w[0] as nat, 8);
  }

  /** Different registers stay different while the same bytes come in. */
  lemma {:induction false} DivideInjective(x: Word, y: Word, s: seq<byte>)
    requires Divide(x, s) == Divide(y, s)
    ensures x == y
    decreases |s|
  {
    if s != [] {
      hide Steps, Xor, ByteWord;
      var n := |s| - 1;
      var u, v := Divide(x, s[..n]), Divide(y, s[..n]);
      StepsInjective(Xor(u, ByteWord(s[n])), Xor(v, ByteWord(s[n])), 8);
      XorInjective(u, v, ByteWord(s[n]));
      DivideInjective(x, y, s[..n]);
    }
  }

  /** s and t agree outside the four bytes from p on. */
  predicate BurstAt(s: seq<byte>, t: seq<byte>, p: nat) {
    && |s| == |t| && p + 4 <= |s|
    && s[..p] == t[..p] && s[p + 4..] == t[p + 4..]
  }

  lemma WindowDetected(c: Word, w: seq<byte>, v: seq<byte>)
    requires |w| == |v| == 4 && Divide(c, w) == Divide(c, v)
    ensures w == v
  {
    DivideWord(c, w);
    DivideWord(c, v);
    assert Pad(w) == BitsOf(w) && Pad(v) == BitsOf(v);
    StepsInjective(Xor(c, Pad(w)), Xor(c, Pad(v)), 32);
    XorCommutes(c, Pad(w));
    XorCommutes(c, Pad(v));
    XorInjective(Pad(w), Pad(v), c);
    BitsInjective(w, v);
    hide Steps, Xor, Pad, BitsOf, Divide;
  }

  lemma XorCommutes(x: Word, y: Word)
    ensures Xor(x, y) == Xor(y, x)
  {
  }

  /** A change confined to four consecutive bytes changes the CRC. */
  lemma BurstDetected(crc: Word, s: seq<byte>, t: seq<byte>, p: nat)
    requires BurstAt(s, t, p) && s != t
    ensures Crc(crc, s) != Crc(crc, t)
  {
    var c := Xor(crc, Ones(32));
    var w, v, tail := s[p..p + 4], t[p..p + 4], s[p + 4..];
    assert s == s[..p] + (w + tail);
    assert t == s[..p] + (v + tail);
    if Crc(crc, s) == Crc(crc, t) {
      XorInjective(Divide(c, s), Divide(c, t), Ones(32));
      var d := Divide(c, s[..p]);
      DivideJoin(c, s[..p], w + tail);
      DivideJoin(c, s[..p], v + tail);
      DivideJoin(d, w, tail);
      DivideJoin(d, v, tail);
      DivideInjective(Divide(d, w), Divide(d, v), tail);
      WindowDetected(d, w, v);
      assert false;
    }
  }

  // ----- Both inversions -----

  lemma XorSelf(x: Word)
    ensures Xor(x, x) == Zero(32) && Xor(Zero(32), x) == x
  {
  }

  /** The four bytes that are the complement of the CRC so far bring the register to zero, and the CRC to all ones. */
  lemma ComplementClears(crc: Word, w: seq<byte>)
    requires |w| == 4 && BitsOf(w) == Xor(crc, Ones(32))
    ensures Crc(crc, w) == Ones(32)
  {
    var c := Xor(crc, Ones(32));
    assert Pad(w) == c;
    DivideWord(c, w);
    XorSelf(c);
    XorSelf(Ones(32));
    StepsZero(32);
    hide Steps, Xor, Divide, Pad, BitsOf;
  }

  /** Every string, followed by its own CRC, has one and the same CRC. */
  lemma Residue(crc: Word, s: seq<byte>, w: seq<byte>)
    requires |w| == 4 && BitsOf(w) == Crc(crc, s)
    ensures Crc(crc, s + w) == Xor(Steps(Ones(32), 32), Ones(32))
  {
    var c := Xor(crc, Ones(32));
    var d := Divide(c, s);
    assert Pad(w) == Xor(d, Ones(32));
    DivideJoin(c, s, w);
    DivideWord(d, w);
    assert Xor(d, Xor(d, Ones(32))) == Ones(32);
    hide Steps, Xor, Divide, Pad, BitsOf;
  }
}
