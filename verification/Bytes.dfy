/** Octets. */
module Bytes {

  newtype byte = x: int | 0 <= x < 256

  /** A string of bytes with these bytes in place of those from p on. */
  function Splice(s: seq<byte>, p: int, bytes: seq<byte>): (r: seq<byte>)
    requires 0 <= p && p + |bytes| <= |s|
    ensures |r| == |s|
    ensures forall k :: 0 <= k < |r| ==> r[k] == if p <= k < p + |bytes| then bytes[k - p] else s[k]
  {
    s[..p] + bytes + s[p + |bytes|..]
  }
}
