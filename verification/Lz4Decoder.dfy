/** The LZ4 decoder over a 64 KiB ring buffer that is flushed whenever it is full. */
module Lz4Decoder {
  import opened Bytes
  import opened Lz4Format
  import opened Lz4Frames

  datatype Option<T> = None | Some(value: T) {
    function GetOr(default: T): T {
      if Some? then value else default
    }
  }

  /** What is left of a dictionary: only its last 64 KiB are relevant. */
  function Relevant(dictionary: seq<byte>): seq<byte> {
    if |dictionary| < HISTORY_SIZE then dictionary else dictionary[|dictionary| - HISTORY_SIZE..]
  }

  /** Allocates a history with arbitrary contents, except that a dictionary ends it. */
  method NewHistory(dictionary: Option<seq<byte>>) returns (ring: array<byte>)
    ensures fresh(ring) && ring.Length == 65536 && EndsWith(ring[..], dictionary.GetOr([]))
  {
    ring := new byte[HISTORY_SIZE];
    if dictionary.Some? {
      var d := Relevant(dictionary.value);
      forall i | 0 <= i < |d| {
        ring[HISTORY_SIZE - |d| + i] := d[i];
      }
    }
  }

  class Decoder {
    const input: seq<byte>
    const history: array<byte>
    var next: nat          // input cursor
    var pos: nat           // next free position in history
    var sent: seq<byte>    // everything handed to sendBytes so far
    var failure: Option<Error>

    ghost const initial: seq<byte>   // history before the first byte was decoded
    ghost var out: seq<byte>         // everything decoded so far

    /** history is the last 64 KiB of initial + out, rotated by pos; the rest has been sent.
        Only between a store and the flush that follows it can pos be HISTORY_SIZE. */
    ghost predicate Ring()
      reads this, history
    {
      && history.Length == HISTORY_SIZE == |initial|
      && next <= |input|
      && pos <= HISTORY_SIZE && pos <= |out|
      && (|out| - pos) % HISTORY_SIZE == 0
      && sent == out[..|out| - pos]
      && forall i :: 0 <= i < HISTORY_SIZE ==>
           history[i] == At(initial, out, |out| - pos + i + if i < pos then HISTORY_SIZE else 0)
    }

    ghost predicate Valid()
      reads this, history
    {
      Ring() && pos < HISTORY_SIZE && failure == None
    }

    /** The state agrees with an outcome of the plain decoder. */
    ghost predicate Reached(r: Outcome)
      reads this, history
    {
      && Ring() && pos < HISTORY_SIZE
      && out == r.out
      && match r
         case Run(p, o) => failure == None && next == p
         case Stop(o, e) => failure == Some(e)
    }

    /** A decoder over an allocated history, whose contents are whatever they are. */
    constructor (data: seq<byte>, ring: array<byte>)
      requires ring.Length == HISTORY_SIZE
      ensures Valid() && next == 0 && out == []
      ensures input == data && history == ring && initial == ring[..]
    {
      input, history, initial := data, ring, ring[..];
      next, pos, sent, failure, out := 0, 0, [], None, [];
    }

    method Store(b: byte)
      requires Ring() && pos < HISTORY_SIZE
      modifies history, `pos, `out
      ensures Ring() && pos == old(pos) + 1
      ensures out == old(out) + [b]
    {
      history[pos] := b;
      pos := pos + 1;
      out := out + [b];
      assert sent == out[..|out| - pos];
    }

    method FlushIfFull()
      requires Ring()
      modifies `pos, `sent
      ensures Ring() && pos == if old(pos) == HISTORY_SIZE then 0 else old(pos)
    {
      if pos == HISTORY_SIZE {
        ghost var cut := |out| - HISTORY_SIZE;
        assert history[..] == out[cut..] by {
          forall i | 0 <= i < HISTORY_SIZE ensures history[i] == out[cut..][i] {
            assert history[i] == At(initial, out, cut + i + HISTORY_SIZE);
          }
        }
        assert out[..cut] + out[cut..] == out[..|out| - 0];
        sent := sent + history[..];
        pos := 0;
      }
    }

    /** Reads one byte, or stops with OutOfData. */
    method GetByte() returns (b: byte)
      requires Valid()
      modifies `next, `failure
      ensures Ring()
      ensures old(next) < |input| ==> failure == None && next == old(next) + 1 && b == input[old(next)]
      ensures old(next) >= |input| ==> failure == Some(OutOfData) && next == old(next)
    {
      if next >= |input| {
        b, failure := 0, Some(OutOfData);
      } else {
        b, next := input[next], next + 1;
      }
    }

    /** The literal copy when the run cannot reach the end of the ring. */
    method CopyFast(n: nat)
      requires Valid() && (pos + n < HISTORY_SIZE || |input| - next < HISTORY_SIZE - pos)
      modifies history, `next, `pos, `out, `failure
      ensures Reached(DecodeStored(input, old(next), n, old(out)))
    {
      var left := n;
      while left > 0
        invariant 0 <= left <= n && old(next) + (n - left) == next
        invariant Valid() && (pos + left < HISTORY_SIZE || |input| - next < HISTORY_SIZE - pos)
        invariant out == old(out) + input[old(next)..next]
      {
        var b := GetByte();
        if failure.Some? {
          assert input[old(next)..] == input[old(next)..next];
          return;
        }
        Store(b);
        left := left - 1;
      }
    }

    /** The copy of a run, literals or a stored block, that flushes the ring whenever it is full. */
    method CopySlow(n: nat)
      requires Valid()
      modifies this, history
      ensures Reached(DecodeStored(input, old(next), n, old(out)))
    {
      var left := n;
      while left > 0
        invariant 0 <= left <= n && old(next) + (n - left) == next
        invariant Valid()
        invariant out == old(out) + input[old(next)..next]
      {
        var b := GetByte();
        if failure.Some? {
          assert input[old(next)..] == input[old(next)..next];
          return;
        }
        Store(b);
        FlushIfFull();
        left := left - 1;
      }
    }

    /** The position is that of the whole output in the ring. */
    lemma Position()
      requires Ring() && pos < HISTORY_SIZE
      ensures pos == |out| % HISTORY_SIZE && |sent| == |out| - pos
    {
      FullRings(|out|, pos);
    }

    /** The literal copy. Where its 32-bit test passes by wrap-around and the input would fill the ring, nothing is
        known of what the code does, and the model ends. */
    method CopyLiterals(n: nat)
      requires Valid() && n < WORD
      modifies this, history
      ensures Reached(if LiteralsOverrun(input, old(next), n, |old(out)|) then Stop(old(out), Overrun)
                      else DecodeStored(input, old(next), n, old(out)))
    {
      Position();
      if (pos + n) % WORD < HISTORY_SIZE {
        if pos + n >= WORD && |input| - next >= HISTORY_SIZE - pos {
          Fail(Overrun);
          return;
        }
        CopyFast(n);
      } else {
        CopySlow(n);
      }
    }

    method CopyByte(ref: nat, delta: nat)
      requires Valid() && 1 <= delta < HISTORY_SIZE && ref == Reference(pos, delta)
      modifies history, `pos, `out
      ensures Ring() && pos == old(pos) + 1
      ensures out == old(out) + [At(initial, old(out), HISTORY_SIZE + |old(out)| - delta)]
    {
      assert history[ref] == At(initial, out, |out| - pos + ref + if ref < pos then HISTORY_SIZE else 0);
      Store(history[ref]);
    }

    /** The overlapping copy when neither end reaches the end of the ring. */
    method CopyForward(ref: nat, delta: nat, n: nat)
      requires Valid() && 1 <= delta < HISTORY_SIZE && ref == Reference(pos, delta)
      requires pos + n < HISTORY_SIZE && ref + n < HISTORY_SIZE
      modifies history, `pos, `out
      ensures Valid() && out == AppendMatch(initial, old(out), delta, n)
    {
      var from, left := ref, n;
      while left > 0
        invariant 0 <= left <= n
        invariant Valid() && pos + left < HISTORY_SIZE && from + left < HISTORY_SIZE
        invariant from == Reference(pos, delta)
        invariant AppendMatch(initial, out, delta, left) == AppendMatch(initial, old(out), delta, n)
      {
        CopyByte(from, delta);
        from := from + 1;
        left := left - 1;
      }
    }

    /** One byte of the copy that may flush and wrap around at the end of the ring. */
    method CopyStep(ref: nat, delta: nat) returns (ref': nat)
      requires Valid() && 1 <= delta < HISTORY_SIZE && ref == Reference(pos, delta)
      modifies history, `pos, `sent, `out
      ensures Valid() && ref' == Reference(pos, delta)
      ensures out == old(out) + [At(initial, old(out), HISTORY_SIZE + |old(out)| - delta)]
    {
      CopyByte(ref, delta);
      ref' := ref + 1;
      FlushIfFull();
      ref' := ref' % HISTORY_SIZE;
    }

    method CopyAround(ref: nat, delta: nat, n: nat)
      requires Valid() && 1 <= delta < HISTORY_SIZE && ref == Reference(pos, delta)
      modifies history, `pos, `sent, `out
      ensures Valid() && out == AppendMatch(initial, old(out), delta, n)
    {
      var from, left := ref, n;
      while left > 0
        invariant 0 <= left <= n
        invariant Valid() && from == Reference(pos, delta)
        invariant AppendMatch(initial, out, delta, left) == AppendMatch(initial, old(out), delta, n)
      {
        from := CopyStep(from, delta);
        left := left - 1;
      }
    }

    /** A match that does not reach into its own output is a block of the ring. */
    lemma DistantMatch(ref: nat, delta: nat, n: nat)
      requires Valid() && 1 <= delta < HISTORY_SIZE && ref == Reference(pos, delta)
      requires ref + n < HISTORY_SIZE && (pos >= ref + n || ref >= pos + n)
      ensures AppendMatch(initial, out, delta, n) == out + history[ref..ref + n]
    {
      var block := history[ref..ref + n];
      forall i | 0 <= i < n
        ensures block[i] == At(initial, out, HISTORY_SIZE + |out| - delta + i)
      {
        assert history[ref + i]
            == At(initial, out, |out| - pos + (ref + i) + if ref + i < pos then HISTORY_SIZE else 0);
      }
      AppendDistantMatch(initial, out, delta, n, block);
    }

    /** memcpy within the ring, for ranges that do not overlap. */
    method MoveBlock(ref: nat, delta: nat, n: nat)
      requires Valid() && 1 <= delta < HISTORY_SIZE && ref == Reference(pos, delta)
      requires pos + n < HISTORY_SIZE && ref + n < HISTORY_SIZE
      requires pos >= ref + n || ref >= pos + n
      modifies history, `pos, `out
      ensures Valid() && out == AppendMatch(initial, old(out), delta, n)
    {
      ghost var block := history[ref..ref + n];
      DistantMatch(ref, delta, n);
      hide At, AppendMatch, Reference;
      forall i | pos <= i < pos + n {
        history[i] := history[ref + (i - pos)];
      }
      Advance(n, block);
    }

    /** Moves pos over a block that was just written there. */
    method Advance(n: nat, ghost block: seq<byte>)
      requires history.Length == HISTORY_SIZE == |initial| && next <= |input| && failure == None
      requires n == |block| && pos + n < HISTORY_SIZE && pos <= |out|
      requires (|out| - pos) % HISTORY_SIZE == 0 && sent == out[..|out| - pos]
      requires forall i :: 0 <= i < HISTORY_SIZE && !(pos <= i < pos + n) ==>
                 history[i] == At(initial, out, |out| - pos + i + if i < pos then HISTORY_SIZE else 0)
      requires forall i :: pos <= i < pos + n ==> history[i] == block[i - pos]
      modifies `pos, `out
      ensures Valid() && out == old(out) + block
    {
      pos := pos + n;
      out := out + block;
      assert sent == out[..|out| - pos];
    }

    /** The match copy: one block move, a forward byte copy within the ring, or a byte copy
        that wraps around at its end. Where both 32-bit tests pass by wrap-around, nothing is known of what the code
        does, and the model ends. */
    method CopyMatch(delta: nat, n: nat)
      requires Valid() && 1 <= delta < HISTORY_SIZE && n < WORD
      modifies history, `pos, `sent, `out, `failure
      ensures Reached(if MatchOverruns(delta, n, |old(out)|) then Stop(old(out), Overrun)
                      else Run(old(next), AppendMatch(initial, old(out), delta, n)))
    {
      Position();
      var ref := Reference(pos, delta);
      if (pos + n) % WORD < HISTORY_SIZE && (ref + n) % WORD < HISTORY_SIZE {
        if pos + n >= WORD {
          Fail(Overrun);
        } else if pos >= ref + n || ref >= pos + n {
          MoveBlock(ref, delta, n);
        } else {
          CopyForward(ref, delta, n);
        }
      } else {
        CopyAround(ref, delta, n);
      }
    }

    /** Ends the decoding with an error. */
    method Fail(e: Error)
      requires Valid()
      modifies `failure
      ensures Ring() && failure == Some(e)
    {
      failure := Some(e);
    }

    /** A length from its 4-bit start, with the number of extension bytes read. */
    method ReadLength(nibble: nat, base: nat) returns (length: nat, count: nat)
      requires Valid() && nibble <= 15 && base <= 4
      modifies `next, `failure
      ensures Ring()
      ensures match FieldLength(input, old(next), nibble, base)
              case NoLength(e) => failure == Some(e)
              case Length(n, p) => failure == None && length == n && next == p && count == p - old(next)
    {
      length, count := base + nibble, 0;
      if nibble != 15 {
        return;
      }
      var current := 255;
      while current == 255
        invariant Valid() && length < WORD && count == next - old(next)
        invariant if current == 255 then Extend(input, next, length) == Extend(input, old(next), base + nibble)
                  else Length(length, next) == Extend(input, old(next), base + nibble)
        decreases current == 255, |input| - next
      {
        var b := GetByte();
        if failure.Some? {
          return;
        }
        current := b as nat;
        length := (length + current) % WORD;
        count := count + 1;
      }
    }

    /** The literals of a token, in a block of which blockOffset bytes have been read. */
    method ReadLiterals(nibble: nat, blockOffset: nat, ghost start: nat) returns (offset: nat)
      requires Valid() && nibble < 16 && start <= next && blockOffset == Low(next - start)
      modifies this, history
      ensures Reached(DecodeLiterals(input, old(next), nibble, old(out)))
      ensures failure == None ==> offset == Low(next - start)
    {
      offset := blockOffset;
      var numLiterals, extra := ReadLength(nibble, 0);
      if failure.Some? {
        return;
      }
      Counted(next - extra - start, extra + numLiterals);
      offset := Low(blockOffset + extra + numLiterals);
      CopyLiterals(numLiterals);
    }

    /** The two-byte offset of a match. */
    method ReadOffset() returns (delta: nat)
      requires Valid()
      modifies `next, `failure
      ensures Ring()
      ensures if old(next) + 2 > |input| then failure == Some(OutOfData)
              else
                var d := input[old(next)] as nat + 0x100 * input[old(next) + 1] as nat;
                if d == 0 then failure == Some(BadOffset)
                else failure == None && delta == d && next == old(next) + 2
    {
      delta := 0;
      var low := GetByte();
      if failure.Some? {
        return;
      }
      var high := GetByte();
      if failure.Some? {
        return;
      }
      delta := low as nat + 0x100 * high as nat;
      if delta == 0 {
        Fail(BadOffset);
      }
    }

    /** The offset and length of a match, and its copy. */
    method ReadMatch(nibble: nat, blockOffset: nat, ghost start: nat, ghost blockSize: nat) returns (offset: nat)
      requires Valid() && nibble < 16 && start <= next && blockOffset == Low(next - start)
      modifies this, history
      ensures Ring() && pos < HISTORY_SIZE
      ensures var r := DecodeMatch(initial, input, old(next), start, blockSize, nibble, old(out));
              if failure == None then
                && old(next) < next && offset == Low(next - start)
                && r == DecodeBlock(initial, input, next, start, blockSize, out)
              else Reached(r)
    {
      offset := blockOffset;
      var delta := ReadOffset();
      if failure.Some? {
        return;
      }
      var matchLength, extra := ReadLength(nibble, 4);
      if failure.Some? {
        return;
      }
      Counted(next - extra - 2 - start, 2 + extra);
      offset := Low(blockOffset + 2 + extra);
      CopyMatch(delta, matchLength);
    }

    /** One token with its literals and, unless they end the block, its match. */
    method ReadSequence(blockOffset: nat, blockSize: nat, ghost start: nat) returns (offset: nat)
      requires Valid() && start <= next && blockOffset == Low(next - start) && blockOffset < blockSize
      modifies this, history
      ensures Ring() && pos < HISTORY_SIZE
      ensures var r := DecodeBlock(initial, input, old(next), start, blockSize, old(out));
              if failure == None then
                && old(next) < next && offset == Low(next - start)
                && r == DecodeBlock(initial, input, next, start, blockSize, out)
              else Reached(r)
    {
      hide At, Extend, FieldLength, DecodeMatch, DecodeLiterals, Low;
      offset := blockOffset;
      var token := GetByte();
      if failure.Some? {
        return;
      }
      Counted(next - 1 - start, 1);
      offset := ReadLiterals(token as nat / 16, Low(blockOffset + 1), start);
      if failure.Some? || offset == blockSize {
        return;
      }
      offset := ReadMatch(token as nat % 16, offset, start, blockSize);
    }

    /** One compressed block: tokens until its size is used up. */
    method ReadCompressed(blockSize: nat)
      requires Valid()
      modifies this, history
      ensures Reached(DecodeBlock(initial, input, old(next), old(next), blockSize, old(out)))
    {
      hide At, DecodeMatch, DecodeLiterals;
      var blockOffset := 0;
      while blockOffset < blockSize
        invariant old(next) <= next && Valid() && blockOffset == Low(next - old(next))
        invariant DecodeBlock(initial, input, next, old(next), blockSize, out)
               == DecodeBlock(initial, input, old(next), old(next), blockSize, old(out))
        decreases |input| - next
      {
        blockOffset := ReadSequence(blockOffset, blockSize, old(next));
        if failure.Some? {
          return;
        }
      }
    }

    method SkipBytes(n: nat, ghost r: Outcome)
      requires Valid() && Reached(r)
      modifies `next, `failure
      ensures Reached(Skip(input, n, r))
    {
      var left := n;
      while left > 0
        invariant 0 <= left <= n
        invariant Valid() && next == r.next + (n - left) && out == r.out
      {
        var _ := GetByte();
        if failure.Some? {
          return;
        }
        left := left - 1;
      }
    }

    /** Little-endian 32-bit word. */
    method ReadWord() returns (w: nat)
      requires Valid()
      modifies `next, `failure
      ensures Ring()
      ensures if old(next) + 4 <= |input| then failure == None && next == old(next) + 4 && w == Word(input, old(next))
              else failure == Some(OutOfData)
    {
      w := 0;
      var b0 := GetByte();
      if failure.Some? {
        return;
      }
      var b1 := GetByte();
      if failure.Some? {
        return;
      }
      var b2 := GetByte();
      if failure.Some? {
        return;
      }
      var b3 := GetByte();
      if failure.Some? {
        return;
      }
      w := b0 as nat + 0x100 * b1 as nat + 0x1_0000 * b2 as nat + 0x100_0000 * b3 as nat;
    }

    /** A block after its size word. */
    method ReadPayload(header: nat, legacy: bool, blockChecksum: bool)
      requires Valid()
      modifies this, history
      ensures Reached(DecodePayload(initial, input, old(next), header, legacy, blockChecksum, old(out)))
    {
      var blockSize := BlockSize(header, legacy);
      ghost var block;
      if legacy || header < 0x8000_0000 {
        block := DecodeBlock(initial, input, next, next, blockSize, out);
        ReadCompressed(blockSize);
      } else {
        block := DecodeStored(input, next, blockSize, out);
        CopySlow(blockSize);
      }
      if failure.Some? {
        return;
      }
      SkipBytes(if blockChecksum then 4 else 0, block);
    }

    /** One block; last says that its size word was the end mark, or that it ended a legacy frame. The bytes that the
        code counts whenever it flushes are those sent since the block began. */
    method ReadBlock(legacy: bool, blockChecksum: bool) returns (last: bool)
      requires Valid()
      modifies this, history
      ensures Ring() && pos < HISTORY_SIZE
      ensures var r := DecodeBlocks(initial, input, old(next), legacy, blockChecksum, old(out));
              if failure == None && !last then
                old(next) < next && r == DecodeBlocks(initial, input, next, legacy, blockChecksum, out)
              else Reached(r)
    {
      hide At, Extend, FieldLength, DecodeBlock, DecodeMatch, DecodeLiterals, DecodePayload, Low, Word;
      last := false;
      var header := ReadWord();
      if failure.Some? {
        return;
      }
      if BlockSize(header, legacy) == 0 {
        last := true;
        return;
      }
      Position();
      var already := |sent|;
      ReadPayload(header, legacy, blockChecksum);
      if failure.Some? {
        return;
      }
      Position();
      var numWritten := Low(|sent| - already);
      Counted(|sent| - already, pos);
      last := legacy && Low(numWritten + pos) < LEGACY_SIZE;
    }

    /** All blocks up to the end mark or the end of a legacy frame. */
    method ReadBlocks(legacy: bool, blockChecksum: bool)
      requires Valid()
      modifies this, history
      ensures Reached(DecodeBlocks(initial, input, old(next), legacy, blockChecksum, old(out)))
    {
      var last := false;
      while !last
        invariant Ring() && pos < HISTORY_SIZE && failure == None
        invariant var r := DecodeBlocks(initial, input, old(next), legacy, blockChecksum, old(out));
                  if last then Reached(r) else r == DecodeBlocks(initial, input, next, legacy, blockChecksum, out)
        decreases !last, |input| - next
      {
        last := ReadBlock(legacy, blockChecksum);
        if failure.Some? {
          return;
        }
      }
    }

    /** Hands the unflushed part of the ring to sendBytes. */
    method Finish()
      requires Valid()
      modifies `sent
      ensures sent == out && next == old(next)
    {
      assert history[..pos] == out[|out| - pos..];
      assert out[..|out| - pos] + out[|out| - pos..] == out;
      sent := sent + history[..pos];
    }

    /** Everything after the flag byte. */
    method ReadBody(flags: nat)
      requires Valid() && next == 5 && out == []
      modifies this, history
      ensures Reached(DecodeBody(initial, input, flags))
    {
      if flags / 64 != 1 {
        Fail(BadVersion);
        return;
      }
      SkipBytes(DescriptorLength(flags), Run(5, []));
      if failure.Some? {
        return;
      }
      ghost var blocks := DecodeBlocks(initial, input, next, false, Flag(flags, 16), []);
      ReadBlocks(false, Flag(flags, 16));
      if failure == None {
        SkipBytes(if Flag(flags, 4) then 4 else 0, blocks);
      }
    }

    /** The frame up to its last checksum, before the final flush. */
    method ReadFrame()
      requires Valid() && next == 0 && out == []
      modifies this, history
      ensures Reached(DecodeFrame(initial, input))
    {
      var signature := ReadWord();
      if failure.Some? {
        return;
      }
      if signature == LEGACY {
        ReadBlocks(true, false);
        return;
      }
      if signature != MODERN {
        Fail(BadSignature);
        return;
      }
      var flags := GetByte();
      if failure.Some? {
        return;
      }
      ReadBody(flags as nat);
    }

    /** Without an error the ring still holds what has not been sent. */
    lemma Ran(r: Outcome)
      requires Reached(r) && failure == None
      ensures Valid() && r.Run? && next == r.next && out == r.out
    {
    }

    /** After an error everything up to the last full ring has been sent. */
    lemma Stopped(r: Outcome)
      requires Reached(r) && failure.Some?
      ensures r.Stop? && failure == Some(r.error) && sent == r.out[..|r.out| - |r.out| % 65536]
    {
      FullRings(|out|, pos);
    }

    /** The whole decoder. What it sends is everything decoded on success, and on an error
        everything decoded up to the last full ring. */
    method Unlz4()
      requires Valid() && next == 0 && out == []
      modifies this, history
      ensures match DecodeFrame(initial, input)
              case Run(p, o) => failure == None && next == p && sent == o
              case Stop(o, e) => failure == Some(e) && sent == o[..|o| - |o| % 65536]
    {
      ghost var r := DecodeFrame(initial, input);
      hide *;
      ReadFrame();
      if failure == None {
        Ran(r);
        Finish();
      } else {
        Stopped(r);
      }
    }
  }

  /** Counting on in 32 bits. */
  lemma Counted(n: int, more: int)
    ensures Low(Low(n) + more) == Low(n + more)
  {
  }

  lemma FullRings(n: nat, pos: nat)
    requires pos <= n && (n - pos) % HISTORY_SIZE == 0 && pos < HISTORY_SIZE
    ensures n % HISTORY_SIZE == pos
  {
  }

  /** Decodes a stream with an optional dictionary: for every valid frame of either format at its start, what is
      sent is the frame's meaning. */
  method Decompress(data: seq<byte>, dictionary: Option<seq<byte>>) returns (sent: seq<byte>, failure: Option<Error>)
    ensures var d := dictionary.GetOr([]);
            && (forall frame | Holds(data, d, frame) :: failure == None && sent == Meaning(d, frame))
            && (forall blocks | HoldsLegacy(data, d, blocks) ::
                  failure == None && sent == LegacyMeaning(d, blocks, []))
  {
    var ring := NewHistory(dictionary);
    var decoder := new Decoder(data, ring);
    ghost var initial := ring[..];
    ghost var d := dictionary.GetOr([]);
    hide *;
    decoder.Unlz4();
    sent, failure := decoder.sent, decoder.failure;
    forall frame | Holds(data, d, frame)
      ensures failure == None && sent == Meaning(d, frame)
    {
      FrameRoundTrip(initial, d, frame, data);
    }
    forall blocks | HoldsLegacy(data, d, blocks)
      ensures failure == None && sent == LegacyMeaning(d, blocks, [])
    {
      LegacyRoundTrip(initial, d, blocks, data);
    }
  }

  /** A match that does not reach into its own output is one block of the old bytes. */
  lemma {:induction false} AppendDistantMatch(initial: seq<byte>, out: seq<byte>, delta: nat, n: nat, block: seq<byte>)
    requires |initial| == HISTORY_SIZE && 1 <= delta < HISTORY_SIZE && n == |block| <= delta
    requires forall i :: 0 <= i < n ==> block[i] == At(initial, out, HISTORY_SIZE + |out| - delta + i)
    ensures AppendMatch(initial, out, delta, n) == out + block
    decreases n
  {
    if n > 0 {
      var out' := out + [block[0]];
      AppendDistantMatch(initial, out', delta, n - 1, block[1..]);
      assert out' + block[1..] == out + block;
    }
  }
}
