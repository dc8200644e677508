/** Machine words as their bits, lowest first. */
module Bits {

  type Bits = seq<bool>

  function Zero(n: nat): (r: Bits)
    ensures |r| == n && forall k :: 0 <= k < n ==> !r[k]
  {
    seq(n, _ => false)
  }

  function Ones(n: nat): (r: Bits)
    ensures |r| == n && forall k :: 0 <= k < n ==> r[k]
  {
    seq(n, _ => true)
  }

  function Xor(a: Bits, b: Bits): (r: Bits)
    requires |a| == |b|
    ensures |r| == |a| && forall k :: 0 <= k < |a| ==> r[k] == (a[k] != b[k])
  {
    seq(|a|, k requires 0 <= k < |a| => a[k] != b[k])
  }

  /** x >> 1 */
  function Half(x: Bits): (r: Bits)
    requires |x| > 0
    ensures |r| == |x| && !r[|x| - 1] && forall k :: 0 <= k < |x| - 1 ==> r[k] == x[k + 1]
  {
    x[1..] + [false]
  }

  /** x << 1, in the width of x */
  function Double(x: Bits): (r: Bits)
    requires |x| > 0
    ensures |r| == |x| && !r[0] && forall k :: 1 <= k < |x| ==> r[k] == x[k - 1]
  {
    [false] + x[..|x| - 1]
  }

  function Reverse(x: Bits): (r: Bits)
    ensures |r| == |x| && forall k :: 0 <= k < |x| ==> r[k] == x[|x| - 1 - k]
  {
    seq(|x|, k requires 0 <= k < |x| => x[|x| - 1 - k])
  }

  /** The lowest w bits of n. */
  function FromNat(n: nat, w: nat): (r: Bits)
    ensures |r| == w
    decreases w
  {
    if w == 0 then [] else [n % 2 == 1] + FromNat(n / 2, w - 1)
  }

  lemma LowestBit(n: nat, w: nat)
    requires w > 0
    ensures FromNat(n, w)[0] == (n % 2 == 1)
  {
  }

  function Power2(w: nat): nat {
    if w == 0 then 1 else 2 * Power2(w - 1)
  }

  function ToNat(x: Bits): (r: nat)
    ensures r < Power2(|x|)
  {
    if x == [] then 0 else (if x[0] then 1 else 0) + 2 * ToNat(x[1..])
  }

  lemma {:induction false} ToFromNat(n: nat, w: nat)
    requires n < Power2(w)
    ensures ToNat(FromNat(n, w)) == n
    decreases w
  {
    if w > 0 {
      ToFromNat(n / 2, w - 1);
      assert FromNat(n, w)[1..] == FromNat(n / 2, w - 1);
    }
  }

  lemma {:induction false} FromToNat(x: Bits)
    ensures FromNat(ToNat(x), |x|) == x
  {
    if x != [] {
      FromToNat(x[1..]);
      assert x == [x[0]] + x[1..];
    }
  }

  /** A number below 2^w has no bits from w on. */
  lemma {:induction false} FromNatWide(n: nat, w: nat, z: nat)
    requires n < Power2(w)
    ensures FromNat(n, w + z) == FromNat(n, w) + Zero(z)
    decreases w
  {
    if w > 0 {
      FromNatWide(n / 2, w - 1, z);
      assert FromNat(n, w) + Zero(z) == [n % 2 == 1] + (FromNat(n / 2, w - 1) + Zero(z));
    } else {
      FromNatZero(z);
    }
  }

  lemma {:induction false} FromNatZero(z: nat)
    ensures FromNat(0, z) == Zero(z)
  {
    if z > 0 {
      FromNatZero(z - 1);
    }
  }

  lemma Halved(m: nat, p: nat, n: nat)
    ensures (m + 2 * p * n) / 2 == m / 2 + p * n && (m + 2 * p * n) % 2 == m % 2
  {
    var t := p * n;
    assert 2 * p * n == 2 * t;
  }

  /** Low bits first, then those above them. */
  lemma {:induction false} FromNatSplit(n: nat, m: nat, w: nat, z: nat)
    requires m < Power2(w)
    ensures FromNat(m + Power2(w) * n, w + z) == FromNat(m, w) + FromNat(n, z)
    decreases w
  {
    if w > 0 {
      FromNatSplit(n, m / 2, w - 1, z);
      Halved(m, Power2(w - 1), n);
      hide Power2;
      assert FromNat(m, w) + FromNat(n, z) == [m % 2 == 1] + (FromNat(m / 2, w - 1) + FromNat(n, z));
    } else {
      assert FromNat(m, 0) + FromNat(n, z) == FromNat(n, z);
    }
  }
}
