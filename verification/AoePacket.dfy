/** AoE packets as they lie in the receive buffer, and the tests that let one through. */
module AoePacket {
  import opened Bytes

  type Mac = seq<byte>

  /** A received packet: the buffer, and how many bytes of it came from the network. */
  datatype Packet = Packet(buf: seq<byte>, n: int)

  predicate Whole(p: Packet) {
    |p.buf| == 65536 && 0 <= p.n <= 65536
  }

  /** Byte i of a packet. */
  function At(buf: seq<byte>, i: int): int {
    if 0 <= i < |buf| then buf[i] as int else 0
  }

  /** A number of two bytes in network order. */
  function Word(buf: seq<byte>, i: int): int {
    256 * At(buf, i) + At(buf, i + 1)
  }

  function MacAt(buf: seq<byte>, i: int): Mac
    requires 0 <= i && i + 6 <= |buf|
  {
    buf[i..i + 6]
  }

  function Source(p: Packet): Mac
    requires Whole(p)
  {
    MacAt(p.buf, 6)
  }

  /** Type, response flag, shelf and slot let the packet through. */
  predicate ForUs(p: Packet, shelf: int, slot: int) {
    && p.n >= 24
    && Word(p.buf, 12) == 0x88a2
    && At(p.buf, 14) / 8 % 2 == 0
    && (Word(p.buf, 16) == shelf || Word(p.buf, 16) == 0xffff)
    && (At(p.buf, 18) == slot || At(p.buf, 18) == 0xff)
  }
}
