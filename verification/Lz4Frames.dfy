/** LZ4 frames as values: what they mean, how they are written down, and the theorem that the
    decoder undoes the writing. */
module Lz4Frames {
  import opened Bytes
  import opened Lz4Format

  /** Literals followed by a match. */
  datatype Sequence = Sequence(literals: seq<byte>, offset: nat, length: nat)

  /** The last token of a compressed block has only literals. */
  datatype Block = Compressed(sequences: seq<Sequence>, last: seq<byte>) | Stored(bytes: seq<byte>)

  /** A block and the checksum that may follow it. */
  datatype Entry = Entry(block: Block, checksum: seq<byte>)

  /** A frame with its descriptor: flags, block size, content size and dictionary id where the flags say so, and a
      header checksum. The blocks and the frame may end in a checksum. All of it but the flags is skipped. */
  datatype Frame = Frame(flags: byte, blockSize: byte, contentSize: seq<byte>, dictionaryId: seq<byte>,
                         headerChecksum: byte, blocks: seq<Entry>, checksum: seq<byte>)

  // From here on a length could make a 32-bit sum of the decoder wrap around.
  const LENGTH_LIMIT := 0xFFFF_0000

  // What a full block of a legacy frame holds.
  const FULL_BLOCK := 8 * 1024 * 1024

  // ----- Meaning -----

  /** j modulo m. */
  function Wrap(j: nat, m: nat): (r: nat)
    requires m > 0
    ensures r < m && r <= j
  {
    if j < m then j else Wrap(j - m, m)
  }

  /** The match bytes: the `offset` bytes before the match, repeated as often as needed. */
  function MatchBytes(dictionary: seq<byte>, out: seq<byte>, offset: nat, length: nat): seq<byte>
    requires 1 <= offset <= |dictionary| + |out|
  {
    var source := dictionary + out;
    seq(length, j requires 0 <= j => source[|source| - offset + Wrap(j, offset)])
  }

  predicate ValidSequence(dictionary: seq<byte>, s: Sequence, out: seq<byte>)
  {
    && 1 <= s.offset < 65536 && s.offset <= |dictionary| + |out| + |s.literals|
    && 4 <= s.length < LENGTH_LIMIT
  }

  predicate ValidSequences(dictionary: seq<byte>, sequences: seq<Sequence>, out: seq<byte>)
    decreases |sequences|
  {
    sequences == [] ||
    (&& ValidSequence(dictionary, sequences[0], out)
     && ValidSequences(dictionary, sequences[1..], Apply(dictionary, sequences[0], out)))
  }

  function Apply(dictionary: seq<byte>, s: Sequence, out: seq<byte>): (r: seq<byte>)
    requires ValidSequence(dictionary, s, out)
  {
    out + s.literals + MatchBytes(dictionary, out + s.literals, s.offset, s.length)
  }

  function Expand(dictionary: seq<byte>, sequences: seq<Sequence>, out: seq<byte>): seq<byte>
    requires ValidSequences(dictionary, sequences, out)
    decreases |sequences|
  {
    if sequences == [] then out
    else Expand(dictionary, sequences[1..], Apply(dictionary, sequences[0], out))
  }

  predicate ValidBlock(dictionary: seq<byte>, block: Block, out: seq<byte>)
  {
    && 0 < |EncodeBlock(block)| < 0x8000_0000
    && (block.Compressed? ==> ValidSequences(dictionary, block.sequences, out))
  }

  function BlockMeaning(dictionary: seq<byte>, block: Block, out: seq<byte>): seq<byte>
    requires ValidBlock(dictionary, block, out)
  {
    match block
    case Compressed(sequences, last) => Expand(dictionary, sequences, out) + last
    case Stored(bytes) => out + bytes
  }

  function ChecksumSize(present: bool): nat {
    if present then 4 else 0
  }

  predicate ValidBlocks(dictionary: seq<byte>, blocks: seq<Entry>, checksums: bool, out: seq<byte>)
    decreases |blocks|
  {
    blocks == [] ||
    (&& ValidBlock(dictionary, blocks[0].block, out) && |blocks[0].checksum| == ChecksumSize(checksums)
     && ValidBlocks(dictionary, blocks[1..], checksums, BlockMeaning(dictionary, blocks[0].block, out)))
  }

  function BlocksMeaning(dictionary: seq<byte>, blocks: seq<Entry>, checksums: bool, out: seq<byte>): seq<byte>
    requires ValidBlocks(dictionary, blocks, checksums, out)
    decreases |blocks|
  {
    if blocks == [] then out
    else BlocksMeaning(dictionary, blocks[1..], checksums, BlockMeaning(dictionary, blocks[0].block, out))
  }

  /** The flags, as the format gives them: two bits of version, block checksums in bit 4, the content size in bit 3,
      the content checksum in bit 2, and the dictionary id in bit 0. */
  predicate ValidFrame(dictionary: seq<byte>, frame: Frame)
  {
    var flags := frame.flags as nat;
    && 64 <= flags < 128
    && |frame.contentSize| == (if flags / 8 % 2 == 1 then 8 else 0)
    && |frame.dictionaryId| == (if flags % 2 == 1 then 4 else 0)
    && |frame.checksum| == (if flags / 4 % 2 == 1 then 4 else 0)
    && ValidBlocks(dictionary, frame.blocks, flags / 16 % 2 == 1, [])
  }

  function Meaning(dictionary: seq<byte>, frame: Frame): seq<byte>
    requires ValidFrame(dictionary, frame)
  {
    BlocksMeaning(dictionary, frame.blocks, frame.flags as nat / 16 % 2 == 1, [])
  }

  /** The blocks of a legacy frame: compressed, and all but the last one full. */
  predicate ValidLegacy(dictionary: seq<byte>, blocks: seq<Block>, out: seq<byte>)
    decreases |blocks|
  {
    blocks == [] ||
    (&& blocks[0].Compressed? && ValidBlock(dictionary, blocks[0], out)
     && var out' := BlockMeaning(dictionary, blocks[0], out);
        && |out'| <= |out| + FULL_BLOCK
        && (|out'| < |out| + FULL_BLOCK ==> |blocks| == 1)
        && ValidLegacy(dictionary, blocks[1..], out'))
  }

  function LegacyMeaning(dictionary: seq<byte>, blocks: seq<Block>, out: seq<byte>): seq<byte>
    requires ValidLegacy(dictionary, blocks, out)
    decreases |blocks|
  {
    if blocks == [] then out
    else LegacyMeaning(dictionary, blocks[1..], BlockMeaning(dictionary, blocks[0], out))
  }

  // ----- Writing -----

  function Nibble(n: nat): (r: nat)
    ensures r < 16
  {
    if n < 15 then n else 15
  }

  /** The extension bytes of a length that is `rest` above what its nibble says. */
  function Extension(rest: nat): seq<byte> {
    if rest < 255 then [rest as byte] else [255] + Extension(rest - 255)
  }

  function ExtensionOf(n: nat): seq<byte> {
    if n < 15 then [] else Extension(n - 15)
  }

  /** Two numbers of four bits in a byte. */
  function Token(high: nat, low: nat): byte
    requires high < 16 && low < 16
  {
    (16 * high + low) as byte
  }

  function EncodeLiterals(literals: seq<byte>, matchNibble: nat): seq<byte>
    requires matchNibble < 16
  {
    [Token(Nibble(|literals|), matchNibble)] + ExtensionOf(|literals|) + literals
  }

  function EncodeMatch(offset: nat, length: nat): seq<byte>
  {
    [(offset % 256) as byte, (offset / 256 % 256) as byte] + ExtensionOf(if length < 4 then 0 else length - 4)
  }

  function EncodeSequence(s: Sequence): seq<byte> {
    EncodeLiterals(s.literals, Nibble(if s.length < 4 then 0 else s.length - 4)) + EncodeMatch(s.offset, s.length)
  }

  function EncodeTokens(sequences: seq<Sequence>, last: seq<byte>): seq<byte>
    decreases |sequences|
  {
    if sequences == [] then EncodeLiterals(last, 0)
    else EncodeSequence(sequences[0]) + EncodeTokens(sequences[1..], last)
  }

  function EncodeBlock(block: Block): seq<byte> {
    match block
    case Compressed(sequences, last) => EncodeTokens(sequences, last)
    case Stored(bytes) => bytes
  }

  function EncodeWord(w: nat): seq<byte> {
    var w1 := w / 256;
    var w2 := w1 / 256;
    [(w % 256) as byte, (w1 % 256) as byte, (w2 % 256) as byte, (w2 / 256 % 256) as byte]
  }

  function SizeWord(block: Block): nat {
    |EncodeBlock(block)| + if block.Stored? then 0x8000_0000 else 0
  }

  function EncodeEntry(e: Entry): seq<byte> {
    EncodeWord(SizeWord(e.block)) + (EncodeBlock(e.block) + e.checksum)
  }

  function EncodeBlocks(blocks: seq<Entry>): seq<byte> {
    if blocks == [] then EncodeWord(0)
    else EncodeEntry(blocks[0]) + EncodeBlocks(blocks[1..])
  }

  function EncodeDescriptor(frame: Frame): seq<byte> {
    [frame.flags, frame.blockSize] + frame.contentSize + frame.dictionaryId + [frame.headerChecksum]
  }

  function EncodeFrame(frame: Frame): seq<byte> {
    [0x04, 0x22, 0x4D, 0x18] + EncodeDescriptor(frame) + EncodeBlocks(frame.blocks) + frame.checksum
  }

  /** A legacy frame ends with a block that is not full, or else with an end mark. */
  function EncodeLegacy(dictionary: seq<byte>, blocks: seq<Block>, out: seq<byte>): seq<byte>
    requires ValidLegacy(dictionary, blocks, out)
    decreases |blocks|
  {
    if blocks == [] then EncodeWord(0)
    else
      var out' := BlockMeaning(dictionary, blocks[0], out);
      var rest := EncodeLegacy(dictionary, blocks[1..], out');
      EncodeWord(|EncodeBlock(blocks[0])|)
      + (EncodeBlock(blocks[0]) + if |out'| < |out| + FULL_BLOCK then [] else rest)
  }

  // ----- Matches -----

  /** Every byte a match appends equals the byte delta before it. */
  lemma {:induction false} AppendMatchLooksBack(initial: seq<byte>, out: seq<byte>, delta: nat, n: nat, k: nat)
    requires |initial| == HISTORY_SIZE && 1 <= delta < HISTORY_SIZE && |out| <= k < |out| + n
    ensures var r := AppendMatch(initial, out, delta, n);
            r[k] == At(initial, r, HISTORY_SIZE + k - delta)
    decreases n
  {
    var out' := out + [At(initial, out, HISTORY_SIZE + |out| - delta)];
    var r := AppendMatch(initial, out', delta, n - 1);
    assert r == AppendMatch(initial, out, delta, n);
    if k > |out| {
      AppendMatchLooksBack(initial, out', delta, n - 1, k);
    } else {
      assert r[k] == r[..|out'|][k] && r[..|out|] == out;
      assert forall i :: 0 <= i < |out| ==> r[i] == r[..|out|][i];
    }
  }

  /** So it repeats the last delta bytes. */
  lemma {:induction false} AppendMatchRepeats(initial: seq<byte>, out: seq<byte>, delta: nat, n: nat, j: nat)
    requires |initial| == HISTORY_SIZE && 1 <= delta < HISTORY_SIZE && j < n
    ensures AppendMatch(initial, out, delta, n)[|out| + j]
         == At(initial, out, HISTORY_SIZE + |out| - delta + Wrap(j, delta))
    decreases j
  {
    var r := AppendMatch(initial, out, delta, n);
    AppendMatchLooksBack(initial, out, delta, n, |out| + j);
    if j < delta {
      assert forall i :: 0 <= i < |out| ==> r[i] == r[..|out|][i];
    } else {
      AppendMatchRepeats(initial, out, delta, n, j - delta);
    }
  }

  /** A history that ends with the dictionary, or with the last 64 KiB of it. */
  ghost predicate EndsWith(initial: seq<byte>, dictionary: seq<byte>) {
    && |initial| == HISTORY_SIZE == 65536
    && forall i :: 0 <= i < 65536 && 65536 <= |dictionary| + i ==> initial[i] == dictionary[|dictionary| + i - 65536]
  }

  /** The byte `back` places before the end, in the history or in the dictionary. */
  lemma SourceByte(initial: seq<byte>, dictionary: seq<byte>, out: seq<byte>, back: nat)
    requires EndsWith(initial, dictionary) && 1 <= back < 65536 && back <= |dictionary| + |out|
    ensures At(initial, out, HISTORY_SIZE + |out| - back) == (dictionary + out)[|dictionary| + |out| - back]
  {
  }

  /** A match within the dictionary and the decoded bytes means the same whatever else the
      history holds. */
  lemma MatchMeaning(initial: seq<byte>, dictionary: seq<byte>, out: seq<byte>, offset: nat, length: nat)
    requires EndsWith(initial, dictionary)
    requires 1 <= offset < HISTORY_SIZE && offset <= |dictionary| + |out|
    ensures AppendMatch(initial, out, offset, length) == out + MatchBytes(dictionary, out, offset, length)
  {
    var r := AppendMatch(initial, out, offset, length);
    hide AppendMatch;
    forall j | 0 <= j < length
      ensures r[|out| + j] == MatchBytes(dictionary, out, offset, length)[j]
    {
      AppendMatchRepeats(initial, out, offset, length, j);
      SourceByte(initial, dictionary, out, offset - Wrap(j, offset));
      hide EndsWith, At, Wrap;
    }
    hide EndsWith;
    assert r == out + MatchBytes(dictionary, out, offset, length) by {
      assert r[..|out|] == out;
      assert r[|out|..] == MatchBytes(dictionary, out, offset, length);
    }
  }

  // ----- Reading back -----

  ghost predicate Occurs(input: seq<byte>, p: nat, s: seq<byte>) {
    p + |s| <= |input| && forall i :: 0 <= i < |s| ==> s[i] == input[p + i]
  }

  lemma OccursSplit(input: seq<byte>, p: nat, a: seq<byte>, b: seq<byte>)
    requires Occurs(input, p, a + b)
    ensures Occurs(input, p, a) && Occurs(input, p + |a|, b)
  {
    forall i | 0 <= i < |a| ensures a[i] == input[p + i] {
      assert (a + b)[i] == a[i];
    }
    forall i | 0 <= i < |b| ensures b[i] == input[p + |a| + i] {
      assert (a + b)[|a| + i] == b[i];
    }
  }

  lemma {:induction false} ExtensionRead(input: seq<byte>, p: nat, acc: nat, rest: nat)
    requires Occurs(input, p, Extension(rest)) && acc + rest < LENGTH_LIMIT
    ensures Extend(input, p, acc) == Length(acc + rest, p + |Extension(rest)|)
    decreases rest
  {
    if rest < 255 {
      assert Extension(rest)[0] == rest as byte;
    } else {
      OccursSplit(input, p, [255], Extension(rest - 255));
      assert Extension(rest)[0] == 255;
      ExtensionRead(input, p + 1, acc + 255, rest - 255);
    }
  }

  lemma FieldRead(input: seq<byte>, p: nat, n: nat, base: nat)
    requires base <= 4 && Occurs(input, p, ExtensionOf(n)) && base + n < LENGTH_LIMIT
    ensures FieldLength(input, p, Nibble(n), base) == Length(base + n, p + |ExtensionOf(n)|)
  {
    if n >= 15 {
      ExtensionRead(input, p, base + 15, n - 15);
    }
  }

  lemma TokenNibbles(high: nat, low: nat)
    requires high < 16 && low < 16
    ensures Token(high, low) as nat / 16 == high && Token(high, low) as nat % 16 == low
  {
  }

  lemma StoredRead(input: seq<byte>, p: nat, bytes: seq<byte>, out: seq<byte>)
    requires Occurs(input, p, bytes)
    ensures DecodeStored(input, p, |bytes|, out) == Run(p + |bytes|, out + bytes)
  {
    assert input[p..p + |bytes|] == bytes;
  }

  lemma LiteralsParts(input: seq<byte>, p: nat, literals: seq<byte>, nibble: nat)
    requires nibble < 16 && Occurs(input, p, EncodeLiterals(literals, nibble))
    ensures p < |input| && input[p] as nat / 16 == Nibble(|literals|) && input[p] as nat % 16 == nibble
    ensures Occurs(input, p + 1, ExtensionOf(|literals|))
    ensures Occurs(input, p + 1 + |ExtensionOf(|literals|)|, literals)
    ensures |EncodeLiterals(literals, nibble)| == 1 + |ExtensionOf(|literals|)| + |literals|
  {
    var high := Nibble(|literals|);
    TokenNibbles(high, nibble);
    hide ExtensionOf, Token, Nibble;
    var token := [Token(high, nibble)];
    var extension := ExtensionOf(|literals|);
    OccursSplit(input, p, token + extension, literals);
    OccursSplit(input, p, token, extension);
    assert token[0] == input[p];
  }

  lemma LiteralsRead(input: seq<byte>, p: nat, start: nat, literals: seq<byte>, nibble: nat, out: seq<byte>)
    requires nibble < 16 && start <= p && Occurs(input, p, EncodeLiterals(literals, nibble))
    requires p - start + |EncodeLiterals(literals, nibble)| < LENGTH_LIMIT
    ensures p < |input| && input[p] as nat / 16 == Nibble(|literals|) && input[p] as nat % 16 == nibble
    ensures DecodeLiterals(input, p + 1, Nibble(|literals|), out)
         == Run(p + |EncodeLiterals(literals, nibble)|, out + literals)
  {
    LiteralsParts(input, p, literals, nibble);
    FieldRead(input, p + 1, |literals|, 0);
    StoredRead(input, p + 1 + |ExtensionOf(|literals|)|, literals, out);
  }

  lemma OffsetBytes(offset: nat)
    requires offset < HISTORY_SIZE
    ensures (offset % 256) + 0x100 * (offset / 256 % 256) == offset
  {
  }

  lemma OffsetRead(input: seq<byte>, p: nat, offset: nat, length: nat)
    requires offset < HISTORY_SIZE && 4 <= length && Occurs(input, p, EncodeMatch(offset, length))
    ensures p + 2 <= |input| && input[p] as nat + 0x100 * input[p + 1] as nat == offset
    ensures Occurs(input, p + 2, ExtensionOf(length - 4))
    ensures |EncodeMatch(offset, length)| == 2 + |ExtensionOf(length - 4)|
    ensures p + |EncodeMatch(offset, length)| <= |input|
  {
    var pair := [(offset % 256) as byte, (offset / 256 % 256) as byte];
    OccursSplit(input, p, pair, ExtensionOf(length - 4));
    assert pair[0] == input[p] && pair[1] == input[p + 1];
    OffsetBytes(offset);
  }

  /** If the block decodes to r from behind a match on, it does so from the match on. */
  lemma MatchRead(initial: seq<byte>, dictionary: seq<byte>, input: seq<byte>, p: nat, start: nat, size: nat,
                  offset: nat, length: nat, out: seq<byte>, r: Outcome)
    requires EndsWith(initial, dictionary) && start <= p && Occurs(input, p, EncodeMatch(offset, length))
    requires 1 <= offset < HISTORY_SIZE && offset <= |dictionary| + |out| && 4 <= length < LENGTH_LIMIT
    requires p - start + |EncodeMatch(offset, length)| < LENGTH_LIMIT
    requires r == DecodeBlock(initial, input, p + |EncodeMatch(offset, length)|, start, size,
                              out + MatchBytes(dictionary, out, offset, length))
    ensures DecodeMatch(initial, input, p, start, size, Nibble(length - 4), out) == r
  {
    OffsetRead(input, p, offset, length);
    FieldRead(input, p + 2, length - 4, 4);
    MatchMeaning(initial, dictionary, out, offset, length);
    var q := p + |EncodeMatch(offset, length)|;
    hide Occurs, EncodeMatch, ExtensionOf, MatchBytes, EndsWith, AppendMatch, DecodeBlock, DecodeMatch, FieldLength;
    MatchStep(initial, input, p, start, size, Nibble(length - 4), offset, length, q, out, r);
  }

  /** A distance and a length that do not overrun the ring are one match. */
  lemma MatchStep(initial: seq<byte>, input: seq<byte>, p: nat, start: nat, size: nat, nibble: nat, delta: nat, m: nat,
                  q: nat, out: seq<byte>, r: Outcome)
    requires |initial| == HISTORY_SIZE && start <= p <= q <= |input| && p + 2 <= |input| && nibble < 16
    requires input[p] as nat + 0x100 * input[p + 1] as nat == delta && 1 <= delta < HISTORY_SIZE
    requires FieldLength(input, p + 2, nibble, 4) == Length(m, q) && m < LENGTH_LIMIT
    requires r == DecodeBlock(initial, input, q, start, size, AppendMatch(initial, out, delta, m))
    ensures DecodeMatch(initial, input, p, start, size, nibble, out) == r
  {
    hide FieldLength, AppendMatch, DecodeBlock;
  }

  /** A token whose literals do not end the block goes on with its match. */
  lemma TokenStep(initial: seq<byte>, input: seq<byte>, p: nat, start: nat, size: nat, nibble: nat, q: nat,
                  out: seq<byte>, out': seq<byte>, r: Outcome)
    requires |initial| == HISTORY_SIZE && start <= p < |input| && Low(p - start) < size && Low(q - start) != size
    requires input[p] as nat % 16 == nibble && start <= q <= |input|
    requires DecodeLiterals(input, p + 1, input[p] as nat / 16, out) == Run(q, out')
    requires DecodeMatch(initial, input, q, start, size, nibble, out') == r
    ensures DecodeBlock(initial, input, p, start, size, out) == r
  {
    hide DecodeMatch, DecodeLiterals, Low;
  }

  lemma SequenceParts(input: seq<byte>, p: nat, s: Sequence, nibble: nat)
    requires Occurs(input, p, EncodeSequence(s)) && s.length >= 4 && nibble == Nibble(s.length - 4)
    ensures Occurs(input, p, EncodeLiterals(s.literals, nibble))
    ensures Occurs(input, p + |EncodeLiterals(s.literals, nibble)|, EncodeMatch(s.offset, s.length))
    ensures |EncodeSequence(s)| == |EncodeLiterals(s.literals, nibble)| + |EncodeMatch(s.offset, s.length)|
    ensures 0 < |EncodeLiterals(s.literals, nibble)| && 0 < |EncodeMatch(s.offset, s.length)|
  {
    OccursSplit(input, p, EncodeLiterals(s.literals, nibble), EncodeMatch(s.offset, s.length));
  }

  lemma SequenceLiterals(input: seq<byte>, p: nat, s: Sequence, out: seq<byte>, nibble: nat, q: nat)
    requires Occurs(input, p, EncodeSequence(s)) && s.length >= 4 && nibble == Nibble(s.length - 4)
    requires q == p + |EncodeLiterals(s.literals, nibble)| && |EncodeSequence(s)| < 0x8000_0000
    ensures p < q <= |input| && q < p + |EncodeSequence(s)| && input[p] as nat % 16 == nibble
    ensures DecodeLiterals(input, p + 1, input[p] as nat / 16, out) == Run(q, out + s.literals)
  {
    SequenceParts(input, p, s, nibble);
    hide EncodeSequence, EncodeLiterals, EncodeMatch, Occurs, DecodeLiterals;
    LiteralsRead(input, p, p, s.literals, nibble, out);
  }

  lemma SequenceMatch(initial: seq<byte>, dictionary: seq<byte>, input: seq<byte>, p: nat, start: nat, size: nat,
                      s: Sequence, out: seq<byte>, nibble: nat, q: nat, r: Outcome)
    requires EndsWith(initial, dictionary) && ValidSequence(dictionary, s, out) && nibble == Nibble(s.length - 4)
    requires start <= p && Occurs(input, p, EncodeSequence(s)) && p - start + |EncodeSequence(s)| < 0x8000_0000
    requires q == p + |EncodeLiterals(s.literals, nibble)|
    requires r == DecodeBlock(initial, input, p + |EncodeSequence(s)|, start, size, Apply(dictionary, s, out))
    ensures q <= |input| && DecodeMatch(initial, input, q, start, size, nibble, out + s.literals) == r
  {
    SequenceParts(input, p, s, nibble);
    hide EncodeSequence, EncodeLiterals, EncodeMatch, Occurs, DecodeBlock, DecodeMatch, EndsWith;
    MatchRead(initial, dictionary, input, q, start, size, s.offset, s.length, out + s.literals, r);
  }

  lemma SequenceRead(initial: seq<byte>, dictionary: seq<byte>, input: seq<byte>, p: nat, start: nat, size: nat,
                     s: Sequence, out: seq<byte>, r: Outcome)
    requires EndsWith(initial, dictionary) && ValidSequence(dictionary, s, out)
    requires start <= p && Occurs(input, p, EncodeSequence(s))
    requires p - start + |EncodeSequence(s)| < size < 0x8000_0000
    requires r == DecodeBlock(initial, input, p + |EncodeSequence(s)|, start, size, Apply(dictionary, s, out))
    ensures DecodeBlock(initial, input, p, start, size, out) == r
  {
    hide EncodeSequence, EncodeLiterals, Occurs, DecodeBlock, DecodeMatch, DecodeLiterals, Low;
    var nibble := Nibble(s.length - 4);
    var q := p + |EncodeLiterals(s.literals, nibble)|;
    SequenceLiterals(input, p, s, out, nibble, q);
    SequenceMatch(initial, dictionary, input, p, start, size, s, out, nibble, q, r);
    LowBelow(p - start);
    LowBelow(q - start);
    TokenStep(initial, input, p, start, size, nibble, q, out, out + s.literals, r);
  }

  /** The token that ends a block has only literals. */
  lemma LastRead(initial: seq<byte>, input: seq<byte>, p: nat, start: nat, size: nat, last: seq<byte>, out: seq<byte>)
    requires |initial| == HISTORY_SIZE && start <= p && Occurs(input, p, EncodeLiterals(last, 0))
    requires p - start + |EncodeLiterals(last, 0)| == size < 0x8000_0000
    ensures p < |input| && DecodeBlock(initial, input, p, start, size, out) == Run(start + size, out + last)
  {
    LiteralsRead(input, p, start, last, 0, out);
    LiteralsParts(input, p, last, 0);
    LowBelow(p - start);
    LowBelow(size);
    hide DecodeLiterals, DecodeMatch, Low, EncodeLiterals, Occurs;
  }

  lemma {:induction false} SequencesRead(initial: seq<byte>, dictionary: seq<byte>, input: seq<byte>, p: nat,
                                         start: nat, size: nat, sequences: seq<Sequence>, last: seq<byte>,
                                         out: seq<byte>)
    requires EndsWith(initial, dictionary) && ValidSequences(dictionary, sequences, out)
    requires start <= p && Occurs(input, p, EncodeTokens(sequences, last))
    requires p - start + |EncodeTokens(sequences, last)| == size < 0x8000_0000
    ensures DecodeBlock(initial, input, p, start, size, out)
         == Run(start + size, Expand(dictionary, sequences, out) + last)
    decreases |sequences|
  {
    hide DecodeBlock, DecodeLiterals, Low, Occurs;
    if sequences == [] {
      LastRead(initial, input, p, start, size, last, out);
    } else {
      var s := sequences[0];
      OccursSplit(input, p, EncodeSequence(s), EncodeTokens(sequences[1..], last));
      TokensNotEmpty(sequences[1..], last);
      var q := p + |EncodeSequence(s)|;
      SequencesRead(initial, dictionary, input, q, start, size, sequences[1..], last, Apply(dictionary, s, out));
      SequenceRead(initial, dictionary, input, p, start, size, s, out,
                   Run(start + size, Expand(dictionary, sequences, out) + last));
    }
  }

  lemma LowBelow(n: nat)
    requires n < WORD
    ensures Low(n) == n
  {
  }

  lemma TokensNotEmpty(sequences: seq<Sequence>, last: seq<byte>)
    ensures |EncodeTokens(sequences, last)| > 0
  {
  }

  lemma WordRead(input: seq<byte>, p: nat, w: nat)
    requires w < WORD && Occurs(input, p, EncodeWord(w))
    ensures Word(input, p) == w
  {
    var s := EncodeWord(w);
    assert s[0] == input[p] && s[1] == input[p + 1] && s[2] == input[p + 2] && s[3] == input[p + 3];
    var w1 := w / 256;
    var w2 := w1 / 256;
    assert w2 / 256 < 256;
  }

  lemma PayloadRead(initial: seq<byte>, dictionary: seq<byte>, input: seq<byte>, p: nat, checksums: bool, e: Entry,
                    out: seq<byte>)
    requires EndsWith(initial, dictionary) && ValidBlock(dictionary, e.block, out)
    requires |e.checksum| == ChecksumSize(checksums) && Occurs(input, p, EncodeBlock(e.block) + e.checksum)
    ensures DecodePayload(initial, input, p, SizeWord(e.block), false, checksums, out)
         == Run(p + |EncodeBlock(e.block)| + |e.checksum|, BlockMeaning(dictionary, e.block, out))
  {
    hide Occurs, EncodeBlock, BlockMeaning, EndsWith, DecodeBlock, DecodeStored, ValidBlock;
    OccursSplit(input, p, EncodeBlock(e.block), e.checksum);
    BlockRead(initial, dictionary, input, p, e.block, out);
    SizeWordSplit(e.block);
    hide SizeWord;
    ChecksumThere(input, p + |EncodeBlock(e.block)|, e.checksum);
  }

  lemma SizeWordSplit(block: Block)
    requires 0 < |EncodeBlock(block)| < 0x8000_0000
    ensures SizeWord(block) < WORD && SizeWord(block) % 0x8000_0000 == |EncodeBlock(block)|
    ensures SizeWord(block) < 0x8000_0000 <==> block.Compressed?
  {
    hide EncodeBlock;
  }

  lemma ChecksumThere(input: seq<byte>, p: nat, checksum: seq<byte>)
    requires Occurs(input, p, checksum)
    ensures p + |checksum| <= |input|
  {
  }

  lemma BlockRead(initial: seq<byte>, dictionary: seq<byte>, input: seq<byte>, p: nat, block: Block, out: seq<byte>)
    requires EndsWith(initial, dictionary) && ValidBlock(dictionary, block, out)
    requires Occurs(input, p, EncodeBlock(block))
    ensures p <= |input| && 0 < |EncodeBlock(block)| < 0x8000_0000
    ensures (if block.Stored? then DecodeStored(input, p, |EncodeBlock(block)|, out)
             else DecodeBlock(initial, input, p, p, |EncodeBlock(block)|, out))
         == Run(p + |EncodeBlock(block)|, BlockMeaning(dictionary, block, out))
  {
    hide DecodeBlock, DecodeStored, Expand, EndsWith;
    if block.Stored? {
      StoredRead(input, p, block.bytes, out);
    } else {
      SequencesRead(initial, dictionary, input, p, p, |EncodeBlock(block)|, block.sequences, block.last, out);
    }
  }

  lemma EntryParts(input: seq<byte>, p: nat, e: Entry)
    requires 0 < |EncodeBlock(e.block)| < 0x8000_0000 && Occurs(input, p, EncodeEntry(e))
    ensures p + 4 <= |input| && Word(input, p) == SizeWord(e.block) && Word(input, p) % 0x8000_0000 != 0
    ensures Occurs(input, p + 4, EncodeBlock(e.block) + e.checksum)
    ensures |EncodeEntry(e)| == 4 + |EncodeBlock(e.block)| + |e.checksum|
  {
    OccursSplit(input, p, EncodeWord(SizeWord(e.block)), EncodeBlock(e.block) + e.checksum);
    WordRead(input, p, SizeWord(e.block));
  }

  lemma EntryRead(initial: seq<byte>, dictionary: seq<byte>, input: seq<byte>, p: nat, checksums: bool, e: Entry,
                  out: seq<byte>, q: nat, out': seq<byte>)
    requires EndsWith(initial, dictionary)
    requires ValidBlock(dictionary, e.block, out) && |e.checksum| == ChecksumSize(checksums)
    requires Occurs(input, p, EncodeEntry(e)) && q == p + |EncodeEntry(e)|
    requires out' == BlockMeaning(dictionary, e.block, out)
    ensures DecodeBlocks(initial, input, p, false, checksums, out)
         == DecodeBlocks(initial, input, q, false, checksums, out')
  {
    EntryParts(input, p, e);
    PayloadRead(initial, dictionary, input, p + 4, checksums, e, out);
  }

  lemma EndRead(initial: seq<byte>, input: seq<byte>, p: nat, checksums: bool, out: seq<byte>)
    requires |initial| == HISTORY_SIZE && Occurs(input, p, EncodeWord(0))
    ensures DecodeBlocks(initial, input, p, false, checksums, out) == Run(p + 4, out)
  {
    WordRead(input, p, 0);
  }

  lemma {:induction false} BlocksRead(initial: seq<byte>, dictionary: seq<byte>, input: seq<byte>, p: nat,
                                      checksums: bool, blocks: seq<Entry>, out: seq<byte>)
    requires EndsWith(initial, dictionary) && ValidBlocks(dictionary, blocks, checksums, out)
    requires Occurs(input, p, EncodeBlocks(blocks))
    ensures var r := DecodeBlocks(initial, input, p, false, checksums, out);
            && r.Run? && r.next == p + |EncodeBlocks(blocks)|
            && r.out == BlocksMeaning(dictionary, blocks, checksums, out)
    decreases |blocks|
  {
    if blocks == [] {
      EndRead(initial, input, p, checksums, out);
    } else {
      var e, rest, q := blocks[0], blocks[1..], p + |EncodeEntry(blocks[0])|;
      var out' := BlockMeaning(dictionary, e.block, out);
      OccursSplit(input, p, EncodeEntry(e), EncodeBlocks(rest));
      BlocksRead(initial, dictionary, input, q, checksums, rest, out');
      EntryRead(initial, dictionary, input, p, checksums, e, out, q, out');
      assert p + |EncodeBlocks(blocks)| == q + |EncodeBlocks(rest)|;
    }
  }

  /** The data begins with the written form of a valid frame. */
  ghost predicate Holds(data: seq<byte>, dictionary: seq<byte>, frame: Frame) {
    ValidFrame(dictionary, frame) && EncodeFrame(frame) <= data
  }

  /** Whatever the rest of the history holds, the written form of a frame decodes to its
      meaning, and the decoder stops exactly at the frame's end. */
  lemma FrameRoundTrip(initial: seq<byte>, dictionary: seq<byte>, frame: Frame, data: seq<byte>)
    requires EndsWith(initial, dictionary) && Holds(data, dictionary, frame)
    ensures DecodeFrame(initial, data) == Run(|EncodeFrame(frame)|, Meaning(dictionary, frame))
  {
    var p := 4 + |EncodeDescriptor(frame)|;
    FrameParts(data, frame);
    DescriptorRead(dictionary, frame);
    hide EncodeFrame, EncodeDescriptor, EncodeBlocks, DecodeBlocks, BlocksMeaning, ValidBlocks, Flag, DescriptorLength;
    BlocksRead(initial, dictionary, data, p, frame.flags as nat / 16 % 2 == 1, frame.blocks, []);
  }

  /** What the decoder skips of a descriptor, and what it takes from the flags. */
  lemma DescriptorRead(dictionary: seq<byte>, frame: Frame)
    requires ValidFrame(dictionary, frame)
    ensures |EncodeDescriptor(frame)| == 1 + DescriptorLength(frame.flags as nat)
    ensures Flag(frame.flags as nat, 16) <==> frame.flags as nat / 16 % 2 == 1
    ensures |frame.checksum| == if Flag(frame.flags as nat, 4) then 4 else 0
    ensures frame.flags as nat / 64 == 1
  {
  }

  lemma FrameParts(data: seq<byte>, frame: Frame)
    requires EncodeFrame(frame) <= data
    ensures |data| >= 5 && Word(data, 0) == MODERN && data[4] == frame.flags
    ensures Occurs(data, 4 + |EncodeDescriptor(frame)|, EncodeBlocks(frame.blocks))
    ensures |EncodeFrame(frame)| == 4 + |EncodeDescriptor(frame)| + |EncodeBlocks(frame.blocks)| + |frame.checksum|
  {
    var signature: seq<byte> := [0x04, 0x22, 0x4D, 0x18];
    var head := EncodeDescriptor(frame);
    Sections(signature, head, EncodeBlocks(frame.blocks), frame.checksum, data);
    hide EncodeBlocks, EncodeFrame;
    ModernSignature(data);
    FlagsFirst(frame, data);
  }

  lemma Sections(a: seq<byte>, b: seq<byte>, c: seq<byte>, d: seq<byte>, data: seq<byte>)
    requires a + b + c + d <= data
    ensures Occurs(data, 0, a) && Occurs(data, |a|, b) && Occurs(data, |a| + |b|, c)
  {
    assert a + b + c + d == a + (b + (c + d));
    PrefixOccurs(a + (b + (c + d)), data);
    hide Occurs;
    OccursSplit(data, 0, a, b + (c + d));
    OccursSplit(data, |a|, b, c + d);
    OccursSplit(data, |a| + |b|, c, d);
  }

  lemma PrefixOccurs(s: seq<byte>, data: seq<byte>)
    requires s <= data
    ensures Occurs(data, 0, s)
  {
    assert forall i :: 0 <= i < |s| ==> s[i] == data[0 + i];
  }

  lemma FlagsFirst(frame: Frame, data: seq<byte>)
    requires Occurs(data, 4, EncodeDescriptor(frame))
    ensures |data| >= 5 && data[4] == frame.flags
  {
    assert EncodeDescriptor(frame)[0] == data[4];
  }

  lemma ModernSignature(data: seq<byte>)
    requires Occurs(data, 0, [0x04, 0x22, 0x4D, 0x18])
    ensures |data| >= 4 && Word(data, 0) == MODERN
  {
    var s: seq<byte> := [0x04, 0x22, 0x4D, 0x18];
    assert s[0] == data[0] && s[1] == data[1] && s[2] == data[2] && s[3] == data[3];
  }

  // ----- Legacy frames -----

  /** A block of a legacy frame, read from its size word on. */
  lemma LegacyBlockRead(initial: seq<byte>, dictionary: seq<byte>, input: seq<byte>, p: nat, block: Block,
                        out: seq<byte>, q: nat, out': seq<byte>)
    requires EndsWith(initial, dictionary) && block.Compressed? && ValidBlock(dictionary, block, out)
    requires Occurs(input, p, EncodeWord(|EncodeBlock(block)|)) && Occurs(input, p + 4, EncodeBlock(block))
    requires q == p + 4 + |EncodeBlock(block)| && out' == BlockMeaning(dictionary, block, out)
    ensures q <= |input|
    ensures DecodeBlocks(initial, input, p, true, false, out)
         == if EndsLegacy(|out|, |out'|) then Run(q, out') else DecodeBlocks(initial, input, q, true, false, out')
  {
    BlockRead(initial, dictionary, input, p + 4, block, out);
    WordRead(input, p, |EncodeBlock(block)|);
    hide EncodeBlock, EncodeWord, Word, DecodeBlock, BlockMeaning, ValidBlock, EndsLegacy;
  }

  /** The count at the end of a block is that of its bytes, since full blocks leave nothing in the ring. */
  lemma LegacyEnd(before: nat, after: nat)
    requires before % FULL_BLOCK == 0 && before <= after <= before + FULL_BLOCK
    ensures EndsLegacy(before, after) <==> after < before + FULL_BLOCK
    ensures after == before + FULL_BLOCK ==> after % FULL_BLOCK == 0
  {
    FullBlocks(before);
    LowBelow(after - before);
    hide Low;
    if after == before + FULL_BLOCK {
      FullBlocks(after);
    }
  }

  lemma FullBlocks(n: nat)
    requires n % FULL_BLOCK == 0
    ensures n % HISTORY_SIZE == 0 && (n + FULL_BLOCK) % FULL_BLOCK == 0
  {
    var q := n / FULL_BLOCK;
    assert n == 65536 * (128 * q);
  }

  lemma {:induction false} ExpandGrows(dictionary: seq<byte>, sequences: seq<Sequence>, out: seq<byte>)
    requires ValidSequences(dictionary, sequences, out)
    ensures |out| <= |Expand(dictionary, sequences, out)|
    decreases |sequences|
  {
    if sequences != [] {
      ExpandGrows(dictionary, sequences[1..], Apply(dictionary, sequences[0], out));
    }
  }

  lemma LegacyParts(dictionary: seq<byte>, input: seq<byte>, p: nat, blocks: seq<Block>, out: seq<byte>)
    requires blocks != [] && ValidLegacy(dictionary, blocks, out)
    requires Occurs(input, p, EncodeLegacy(dictionary, blocks, out))
    ensures var b, out' := blocks[0], BlockMeaning(dictionary, blocks[0], out);
            && |out| <= |out'|
            && Occurs(input, p, EncodeWord(|EncodeBlock(b)|)) && Occurs(input, p + 4, EncodeBlock(b))
            && if |out'| < |out| + FULL_BLOCK then
                 |EncodeLegacy(dictionary, blocks, out)| == 4 + |EncodeBlock(b)|
               else
                 var rest := EncodeLegacy(dictionary, blocks[1..], out');
                 && |EncodeLegacy(dictionary, blocks, out)| == 4 + |EncodeBlock(b)| + |rest|
                 && Occurs(input, p + 4 + |EncodeBlock(b)|, rest)
  {
    hide Occurs, EncodeBlock;
    var b := blocks[0];
    var out' := BlockMeaning(dictionary, b, out);
    var rest := if |out'| < |out| + FULL_BLOCK then [] else EncodeLegacy(dictionary, blocks[1..], out');
    OccursSplit(input, p, EncodeWord(|EncodeBlock(b)|), EncodeBlock(b) + rest);
    OccursSplit(input, p + 4, EncodeBlock(b), rest);
    ExpandGrows(dictionary, b.sequences, out);
  }

  lemma {:induction false} LegacyBlocksRead(initial: seq<byte>, dictionary: seq<byte>, input: seq<byte>, p: nat,
                                            blocks: seq<Block>, out: seq<byte>)
    requires EndsWith(initial, dictionary) && ValidLegacy(dictionary, blocks, out) && |out| % FULL_BLOCK == 0
    requires Occurs(input, p, EncodeLegacy(dictionary, blocks, out))
    ensures DecodeBlocks(initial, input, p, true, false, out)
         == Run(p + |EncodeLegacy(dictionary, blocks, out)|, LegacyMeaning(dictionary, blocks, out))
    decreases |blocks|
  {
    if blocks == [] {
      WordRead(input, p, 0);
    } else {
      var b := blocks[0];
      var out' := BlockMeaning(dictionary, b, out);
      var q := p + 4 + |EncodeBlock(b)|;
      LegacyParts(dictionary, input, p, blocks, out);
      hide Occurs, EncodeBlock, EncodeWord, BlockMeaning, ValidBlock, DecodeBlocks, EndsLegacy;
      LegacyBlockRead(initial, dictionary, input, p, b, out, q, out');
      LegacyEnd(|out|, |out'|);
      if |out'| == |out| + FULL_BLOCK {
        LegacyBlocksRead(initial, dictionary, input, q, blocks[1..], out');
      }
    }
  }

  /** The data begins with the written form of a legacy frame. */
  ghost predicate HoldsLegacy(data: seq<byte>, dictionary: seq<byte>, blocks: seq<Block>) {
    ValidLegacy(dictionary, blocks, []) && [0x02, 0x21, 0x4C, 0x18] + EncodeLegacy(dictionary, blocks, []) <= data
  }

  lemma LegacySignature(data: seq<byte>)
    requires Occurs(data, 0, [0x02, 0x21, 0x4C, 0x18])
    ensures |data| >= 4 && Word(data, 0) == LEGACY
  {
    var s: seq<byte> := [0x02, 0x21, 0x4C, 0x18];
    assert s[0] == data[0] && s[1] == data[1] && s[2] == data[2] && s[3] == data[3];
  }

  /** The decoder undoes the writing of legacy frames, too. */
  lemma LegacyRoundTrip(initial: seq<byte>, dictionary: seq<byte>, blocks: seq<Block>, data: seq<byte>)
    requires EndsWith(initial, dictionary) && HoldsLegacy(data, dictionary, blocks)
    ensures DecodeFrame(initial, data)
         == Run(4 + |EncodeLegacy(dictionary, blocks, [])|, LegacyMeaning(dictionary, blocks, []))
  {
    OccursSplit(data, 0, [0x02, 0x21, 0x4C, 0x18], EncodeLegacy(dictionary, blocks, []));
    LegacySignature(data);
    hide EncodeLegacy, LegacyMeaning, ValidLegacy, DecodeBlocks, Word;
    LegacyBlocksRead(initial, dictionary, data, 4, blocks, []);
  }

  // ----- What is refused -----

  /** Blocks stop for want of data, for a distance of 0, or at a copy that would leave the ring. */
  predicate BlockError(r: Outcome) {
    r.Stop? ==> r.error == OutOfData || r.error == BadOffset || r.error == Overrun
  }

  lemma {:induction false} BlockErrors(initial: seq<byte>, input: seq<byte>, next: nat, start: nat, size: nat,
                                       out: seq<byte>)
    requires |initial| == HISTORY_SIZE && start <= next <= |input|
    ensures BlockError(DecodeBlock(initial, input, next, start, size, out))
    decreases |input| - next
  {
    hide AppendMatch, MatchOverruns, Extend, LiteralsOverrun, Low;
    if next < |input| {
      var token := input[next] as nat;
      LiteralsErrors(input, next + 1, token / 16, out);
      var r := DecodeLiterals(input, next + 1, token / 16, out);
      if r.Run? && r.next + 2 <= |input| {
        LengthErrors(input, r.next + 2, token % 16, 4);
        var delta := input[r.next] as nat + 0x100 * input[r.next + 1] as nat;
        var m := FieldLength(input, r.next + 2, token % 16, 4);
        hide FieldLength, DecodeLiterals;
        if delta != 0 && m.Length? {
          BlockErrors(initial, input, m.next, start, size, AppendMatch(initial, r.out, delta, m.value));
        }
      }
    }
  }

  lemma LengthErrors(input: seq<byte>, next: nat, nibble: nat, base: nat)
    requires nibble <= 15 && base <= 4 && next <= |input|
    ensures var r := FieldLength(input, next, nibble, base); r.NoLength? ==> r.error == OutOfData
  {
    if nibble == 15 {
      ExtendErrors(input, next, base + nibble);
    }
  }

  lemma {:induction false} ExtendErrors(input: seq<byte>, next: nat, acc: nat)
    requires acc < WORD
    ensures Extend(input, next, acc).NoLength? ==> Extend(input, next, acc).error == OutOfData
    decreases |input| - next
  {
    if next < |input| {
      ExtendErrors(input, next + 1, (acc + input[next] as nat) % WORD);
    }
  }

  lemma LiteralsErrors(input: seq<byte>, next: nat, nibble: nat, out: seq<byte>)
    requires next <= |input| && nibble < 16
    ensures BlockError(DecodeLiterals(input, next, nibble, out))
  {
    LengthErrors(input, next, nibble, 0);
  }

  lemma {:induction false} BlocksErrors(initial: seq<byte>, input: seq<byte>, next: nat, legacy: bool, checksums: bool,
                                        out: seq<byte>)
    requires |initial| == HISTORY_SIZE && next <= |input|
    ensures BlockError(DecodeBlocks(initial, input, next, legacy, checksums, out))
    decreases |input| - next
  {
    hide DecodeBlock, Word;
    if next + 4 <= |input| {
      var word := Word(input, next);
      BlockErrors(initial, input, next + 4, next + 4, BlockSize(word, legacy), out);
      var r := DecodePayload(initial, input, next + 4, word, legacy, checksums, out);
      if r.Run? {
        BlocksErrors(initial, input, r.next, legacy, checksums, r.out);
      }
    }
  }

  /** Exactly the streams that do not begin with one of the two signatures are refused for it, and exactly those of
      another version for that. */
  lemma SignatureRefused(initial: seq<byte>, input: seq<byte>)
    requires |initial| == HISTORY_SIZE
    ensures var r := DecodeFrame(initial, input);
            var modern, legacy: seq<byte> := [0x04, 0x22, 0x4D, 0x18], [0x02, 0x21, 0x4C, 0x18];
            && (r.Stop? && r.error == BadSignature <==> |input| >= 4 && input[..4] != modern && input[..4] != legacy)
            && (r.Stop? && r.error == BadVersion
                <==> |input| >= 5 && input[..4] == modern && !(64 <= input[4] < 128))
            && (r.Stop? && (r.error == BadSignature || r.error == BadVersion) ==> r.out == [])
  {
    SignatureBytes(input);
    hide DecodeBlocks, Word;
    if |input| >= 4 {
      BlocksErrors(initial, input, 4, true, false, []);
    }
    if |input| >= 5 {
      var p := 5 + DescriptorLength(input[4] as nat);
      if p <= |input| {
        BlocksErrors(initial, input, p, false, Flag(input[4] as nat, 16), []);
      }
    }
  }

  lemma SignatureBytes(input: seq<byte>)
    ensures |input| >= 4 ==> (Word(input, 0) == MODERN <==> input[..4] == [0x04, 0x22, 0x4D, 0x18])
    ensures |input| >= 4 ==> (Word(input, 0) == LEGACY <==> input[..4] == [0x02, 0x21, 0x4C, 0x18])
  {
    if |input| >= 4 {
      assert input[..4] == [input[0], input[1], input[2], input[3]];
    }
  }
}
