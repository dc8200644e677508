/** The LZ4 frame format, version 1 and legacy, as a plain decoder reads it: one unbounded output to which
    literals are appended and from which matches are copied one byte at a time. Counters have 32 bits.
    This is the specification of the ring-buffer decoder in module Lz4Decoder. */
module Lz4Format {
  import opened Bytes

  const HISTORY_SIZE := 65536
  const WORD := 0x1_0000_0000
  const MODERN := 0x184D2204
  const LEGACY := 0x184C2102

  // What every block of a legacy frame but the last one holds.
  const LEGACY_SIZE := 0x80_0000

  datatype Error =
    | OutOfData
    | BadSignature
    | BadVersion
    | BadOffset
    | Overrun        // a length so near to 2^32 that a copy would leave the ring

  /** What a decoding phase did to the output, and where in the input it left off. */
  datatype Outcome =
    | Run(next: nat, out: seq<byte>)
    | Stop(out: seq<byte>, error: Error)

  /** A decoded length field, or why there is none. */
  datatype Length = Length(value: nat, next: nat) | NoLength(error: Error)

  /** What 32 bits hold of a number. */
  function Low(n: int): (r: nat)
    ensures r < WORD
  {
    n % WORD
  }

  function Word(input: seq<byte>, p: nat): nat
    requires p + 4 <= |input|
  {
    input[p] as nat + 0x100 * input[p + 1] as nat
    + 0x1_0000 * input[p + 2] as nat + 0x100_0000 * input[p + 3] as nat
  }

  /** Adds extension bytes to a length until one of them is not 255. */
  function Extend(input: seq<byte>, next: nat, acc: nat): (r: Length)
    requires acc < WORD
    ensures r.Length? ==> next < r.next <= |input| && r.value < WORD
    decreases |input| - next
  {
    if next >= |input| then NoLength(OutOfData)
    else
      var c := input[next] as nat;
      if c == 255 then Extend(input, next + 1, (acc + c) % WORD)
      else Length((acc + c) % WORD, next + 1)
  }

  /** A length from its 4-bit start; 15 says that extension bytes follow. */
  function FieldLength(input: seq<byte>, next: nat, nibble: nat, base: nat): (r: Length)
    requires nibble <= 15 && base <= 4 && next <= |input|
    ensures r.Length? ==> next <= r.next <= |input| && r.value < WORD
  {
    if nibble == 15 then Extend(input, next, base + nibble) else Length(base + nibble, next)
  }

  /** Byte k of the initial history followed by everything decoded. */
  function At(initial: seq<byte>, out: seq<byte>, k: nat): byte
    requires |initial| == HISTORY_SIZE && k < HISTORY_SIZE + |out|
  {
    if k < HISTORY_SIZE then initial[k] else out[k - HISTORY_SIZE]
  }

  /** Copies n bytes from delta bytes back, one at a time. */
  function AppendMatch(initial: seq<byte>, out: seq<byte>, delta: nat, n: nat): (r: seq<byte>)
    requires |initial| == HISTORY_SIZE && 1 <= delta < HISTORY_SIZE
    ensures |r| == |out| + n && r[..|out|] == out
    decreases n
  {
    if n == 0 then out
    else
      var out' := out + [At(initial, out, HISTORY_SIZE + |out| - delta)];
      var r := AppendMatch(initial, out', delta, n - 1);
      assert r[..|out|] == r[..|out'|][..|out|];
      r
  }

  /** A run of n bytes copied from the input. */
  function DecodeStored(input: seq<byte>, next: nat, n: nat, out: seq<byte>): (r: Outcome)
    requires next <= |input|
    ensures r.Run? ==> next <= r.next <= |input|
  {
    if next + n > |input| then Stop(out + input[next..], OutOfData)
    else Run(next + n, out + input[next..next + n])
  }

  /** Where the byte delta back from position pos lies in a ring. */
  function Reference(pos: nat, delta: nat): nat
    requires delta < HISTORY_SIZE
  {
    if pos >= delta then pos - delta else HISTORY_SIZE + pos - delta
  }

  /** The 32-bit test for the literal loop without flushes passes by wrap-around, and there are bytes enough to fill
      the ring. */
  predicate LiteralsOverrun(input: seq<byte>, next: nat, n: nat, done: nat) {
    var pos := done % HISTORY_SIZE;
    pos + n >= WORD && next + (HISTORY_SIZE - pos) <= |input|
  }

  /** Both 32-bit tests for a match within the ring pass by wrap-around. */
  predicate MatchOverruns(delta: nat, n: nat, done: nat)
    requires delta < HISTORY_SIZE
  {
    var pos := done % HISTORY_SIZE;
    pos + n >= WORD && Reference(pos, delta) + n >= WORD
  }

  /** The literals of a token at next - 1. */
  function DecodeLiterals(input: seq<byte>, next: nat, nibble: nat, out: seq<byte>): (r: Outcome)
    requires next <= |input| && nibble < 16
    ensures r.Run? ==> next <= r.next <= |input|
  {
    match FieldLength(input, next, nibble, 0)
    case NoLength(e) => Stop(out, e)
    case Length(n, p) =>
      if LiteralsOverrun(input, p, n, |out|) then Stop(out, Overrun)
      else DecodeStored(input, p, n, out)
  }

  /** The rest of the compressed block of `size` bytes that began at `start`. */
  function DecodeBlock(initial: seq<byte>, input: seq<byte>, next: nat, start: nat, size: nat,
                       out: seq<byte>): (r: Outcome)
    requires |initial| == HISTORY_SIZE && start <= next <= |input|
    ensures r.Run? ==> next <= r.next <= |input|
    decreases |input| - next
  {
    if Low(next - start) >= size then Run(next, out)
    else if next >= |input| then Stop(out, OutOfData)
    else
      var token := input[next] as nat;
      match DecodeLiterals(input, next + 1, token / 16, out)
      case Stop(o, e) => Stop(o, e)
      case Run(p, o) =>
        if Low(p - start) == size then Run(p, o)
        else DecodeMatch(initial, input, p, start, size, token % 16, o)
  }

  /** The match that follows the literals of a token. */
  function DecodeMatch(initial: seq<byte>, input: seq<byte>, next: nat, start: nat, size: nat, nibble: nat,
                       out: seq<byte>): (r: Outcome)
    requires |initial| == HISTORY_SIZE && start <= next <= |input| && nibble < 16
    ensures r.Run? ==> next <= r.next <= |input|
    decreases |input| - next
  {
    if next + 2 > |input| then Stop(out, OutOfData)
    else
      var delta := input[next] as nat + 0x100 * input[next + 1] as nat;
      if delta == 0 then Stop(out, BadOffset)
      else
        match FieldLength(input, next + 2, nibble, 4)
        case NoLength(e) => Stop(out, e)
        case Length(m, p) =>
          if MatchOverruns(delta, m, |out|) then Stop(out, Overrun)
          else DecodeBlock(initial, input, p, start, size, AppendMatch(initial, out, delta, m))
  }

  function Skip(input: seq<byte>, n: nat, r: Outcome): (r': Outcome)
    requires r.Run? ==> r.next <= |input|
    ensures r'.Run? ==> r.Run? && r'.next == r.next + n <= |input| && r'.out == r.out
  {
    if r.Run? then
      if r.next + n > |input| then Stop(r.out, OutOfData) else Run(r.next + n, r.out)
    else r
  }

  /** The size of a block; in version 1 the highest bit says that the block is stored. */
  function BlockSize(word: nat, legacy: bool): nat {
    if legacy then word else word % 0x8000_0000
  }

  /** The contents of a block with the given size word, with its checksum if there is one. */
  function DecodePayload(initial: seq<byte>, input: seq<byte>, next: nat, word: nat, legacy: bool,
                         blockChecksum: bool, out: seq<byte>): (r: Outcome)
    requires |initial| == HISTORY_SIZE && next <= |input|
    ensures r.Run? ==> next <= r.next <= |input|
  {
    Skip(input, if blockChecksum then 4 else 0,
         if legacy || word < 0x8000_0000 then DecodeBlock(initial, input, next, next, BlockSize(word, legacy), out)
         else DecodeStored(input, next, BlockSize(word, legacy), out))
  }

  /** A legacy frame ends with the first block that is not full. What the block flushed and what it left in the ring
      is counted, with whatever the ring held before it. */
  predicate EndsLegacy(before: nat, after: nat) {
    Low(before % HISTORY_SIZE + (after - before)) < LEGACY_SIZE
  }

  /** All blocks up to the end mark, a block size of 0, or the last block of a legacy frame. */
  function DecodeBlocks(initial: seq<byte>, input: seq<byte>, next: nat, legacy: bool, blockChecksum: bool,
                        out: seq<byte>): (r: Outcome)
    requires |initial| == HISTORY_SIZE && next <= |input|
    ensures r.Run? ==> next <= r.next <= |input|
    decreases |input| - next
  {
    if next + 4 > |input| then Stop(out, OutOfData)
    else if BlockSize(Word(input, next), legacy) == 0 then Run(next + 4, out)
    else
      match DecodePayload(initial, input, next + 4, Word(input, next), legacy, blockChecksum, out)
      case Stop(o, e) => Stop(o, e)
      case Run(p, o) =>
        if legacy && EndsLegacy(|out|, |o|) then Run(p, o)
        else DecodeBlocks(initial, input, p, legacy, blockChecksum, o)
  }

  predicate Flag(flags: nat, bit: nat)
    requires bit > 0
  {
    flags / bit % 2 == 1
  }

  /** Bytes between the flag byte and the first block. */
  function DescriptorLength(flags: nat): nat
  {
    2 + (if Flag(flags, 8) then 8 else 0) + (if Flag(flags, 1) then 4 else 0)
  }

  /** Everything after the flag byte at offset 4. */
  function DecodeBody(initial: seq<byte>, input: seq<byte>, flags: nat): (r: Outcome)
    requires |initial| == HISTORY_SIZE && |input| >= 5
    ensures r.Run? ==> r.next <= |input|
  {
    if flags / 64 != 1 then Stop([], BadVersion)
    else if 5 + DescriptorLength(flags) > |input| then Stop([], OutOfData)
    else
      Skip(input, if Flag(flags, 4) then 4 else 0,
           DecodeBlocks(initial, input, 5 + DescriptorLength(flags), false, Flag(flags, 16), []))
  }

  /** A whole frame; on success, next is just past it. */
  function DecodeFrame(initial: seq<byte>, input: seq<byte>): (r: Outcome)
    requires |initial| == HISTORY_SIZE
    ensures r.Run? ==> r.next <= |input|
  {
    if |input| < 4 then Stop([], OutOfData)
    else if Word(input, 0) == LEGACY then DecodeBlocks(initial, input, 4, true, false, [])
    else if Word(input, 0) != MODERN then Stop([], BadSignature)
    else if |input| < 5 then Stop([], OutOfData)
    else DecodeBody(initial, input, input[4] as nat)
  }
}
