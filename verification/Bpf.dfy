/** The packet filter program handed to the kernel, run as the packet filter machine runs it. */
module Bpf {
  import opened Bytes
  import opened AoePacket

  datatype Insn = Insn(code: int, jt: int, jf: int, k: int)

  /** What a run returns: how much of the packet to keep, or nothing if it leaves the program or meets an unknown
      code. */
  datatype Result = Keep(k: int) | Wrong

  function Statement(code: int, k: int): Insn {
    Insn(code, 0, 0, k % 0x1_0000_0000)
  }

  function Jump(code: int, k: int, jt: int, jf: int): Insn {
    Insn(code, jt, jf, k % 0x1_0000_0000)
  }

  /** Bitwise and with one bit. */
  function AndBit(a: int, bit: int): int
    requires bit > 0
  {
    if a / bit % 2 == 1 then bit else 0
  }

  /** One run from pc on with accumulator a, over the first n bytes of a packet; loads behind them reject it. */
  function Run(program: seq<Insn>, p: Packet, pc: int, a: int): Result
    decreases |program| - pc
  {
    if !(0 <= pc < |program|) then Wrong
    else
      var i := program[pc];
      if i.code == 0x28 then
        if i.k + 2 > p.n then Keep(0) else Run(program, p, pc + 1, Word(p.buf, i.k))
      else if i.code == 0x30 then
        if i.k + 1 > p.n then Keep(0) else Run(program, p, pc + 1, At(p.buf, i.k))
      else if i.code == 0x54 && i.k == 8 then
        Run(program, p, pc + 1, AndBit(a, 8))
      else if i.code == 0x15 then
        var jump := if a == i.k then i.jt else i.jf;
        if jump < 0 then Wrong else Run(program, p, pc + 1 + jump, a)
      else if i.code == 0x06 then Keep(i.k)
      else Wrong
  }

  /** The program for a shelf and a slot. */
  function Program(shelf: int, slot: int): seq<Insn> {
    [
      Statement(0x28, 12),
      Jump(0x15, 0x88a2, 0, 10),
      Statement(0x30, 14),
      Statement(0x54, 8),
      Jump(0x15, 0, 0, 7),
      Statement(0x28, 16),
      Jump(0x15, shelf, 1, 0),
      Jump(0x15, 0xffff, 0, 4),
      Statement(0x30, 18),
      Jump(0x15, slot, 1, 0),
      Jump(0x15, 0xff, 0, 1),
      Statement(0x06, -1),
      Statement(0x06, 0)
    ]
  }

  predicate Int32(x: int) {
    -0x8000_0000 <= x < 0x8000_0000
  }

  /** What the slot test makes of a packet, and the shelf test in front of it, and so on to the start. */
  function SlotTest(slot: int, p: Packet): Result {
    if 19 > p.n then Keep(0)
    else if At(p.buf, 18) == slot % 0x1_0000_0000 || At(p.buf, 18) == 0xff then Keep(0xFFFF_FFFF)
    else Keep(0)
  }

  function ShelfTest(shelf: int, slot: int, p: Packet): Result {
    if 18 > p.n then Keep(0)
    else if Word(p.buf, 16) == shelf % 0x1_0000_0000 || Word(p.buf, 16) == 0xffff then SlotTest(slot, p)
    else Keep(0)
  }

  function FlagTest(shelf: int, slot: int, p: Packet): Result {
    if 15 > p.n then Keep(0)
    else if AndBit(At(p.buf, 14), 8) == 0 then ShelfTest(shelf, slot, p)
    else Keep(0)
  }

  lemma Returns(shelf: int, slot: int, p: Packet, a: int)
    ensures Run(Program(shelf, slot), p, 11, a) == Keep(0xFFFF_FFFF)
    ensures Run(Program(shelf, slot), p, 12, a) == Keep(0)
  {
    var program := Program(shelf, slot);
    assert program[11] == Statement(0x06, -1) && program[12] == Statement(0x06, 0);
  }

  lemma JumpStep(shelf: int, slot: int, p: Packet, pc: int, a: int)
    requires 0 <= pc < 13 && Program(shelf, slot)[pc].code == 0x15
    ensures var i := Program(shelf, slot)[pc];
            i.jt >= 0 && i.jf >= 0 ==>
              Run(Program(shelf, slot), p, pc, a)
                  == Run(Program(shelf, slot), p, pc + 1 + if a == i.k then i.jt else i.jf, a)
  {
  }

  lemma FromSlot(shelf: int, slot: int, p: Packet, a: int)
    ensures Run(Program(shelf, slot), p, 8, a) == SlotTest(slot, p)
  {
    var program := Program(shelf, slot);
    var b := At(p.buf, 18);
    assert program[8] == Statement(0x30, 18);
    assert program[9] == Jump(0x15, slot, 1, 0) && program[10] == Jump(0x15, 0xff, 0, 1);
    JumpStep(shelf, slot, p, 9, b);
    JumpStep(shelf, slot, p, 10, b);
    Returns(shelf, slot, p, b);
  }

  lemma FromShelf(shelf: int, slot: int, p: Packet, a: int)
    ensures Run(Program(shelf, slot), p, 5, a) == ShelfTest(shelf, slot, p)
  {
    var program := Program(shelf, slot);
    var w := Word(p.buf, 16);
    assert program[5] == Statement(0x28, 16);
    assert program[6] == Jump(0x15, shelf, 1, 0) && program[7] == Jump(0x15, 0xffff, 0, 4);
    JumpStep(shelf, slot, p, 6, w);
    JumpStep(shelf, slot, p, 7, w);
    Returns(shelf, slot, p, w);
    FromSlot(shelf, slot, p, w);
  }

  lemma FromFlags(shelf: int, slot: int, p: Packet, a: int)
    ensures Run(Program(shelf, slot), p, 2, a) == FlagTest(shelf, slot, p)
  {
    var program := Program(shelf, slot);
    var f := At(p.buf, 14);
    var b := AndBit(f, 8);
    assert program[2] == Statement(0x30, 14) && program[3] == Statement(0x54, 8) && program[4] == Jump(0x15, 0, 0, 7);
    assert Run(program, p, 3, f) == Run(program, p, 4, b);
    JumpStep(shelf, slot, p, 4, b);
    Returns(shelf, slot, p, b);
    FromShelf(shelf, slot, p, b);
  }

  /** Every run of the program ends in a return, and keeps all or nothing of the packet; which of them is told by the
      type and the tests of flags, shelf and slot. */
  lemma ProgramReturns(shelf: int, slot: int, p: Packet)
    ensures Run(Program(shelf, slot), p, 0, 0) in {Keep(0), Keep(0xFFFF_FFFF)}
    ensures Run(Program(shelf, slot), p, 0, 0)
         == if 14 <= p.n && Word(p.buf, 12) == 0x88a2 then FlagTest(shelf, slot, p) else Keep(0)
  {
    var program := Program(shelf, slot);
    var w := Word(p.buf, 12);
    assert program[0] == Statement(0x28, 12) && program[1] == Jump(0x15, 0x88a2, 0, 10);
    JumpStep(shelf, slot, p, 1, w);
    Returns(shelf, slot, p, w);
    FromFlags(shelf, slot, p, w);
  }

  /** Packets of at least a header are kept exactly when the tests in the receive loop let them through. */
  lemma ProgramFilters(shelf: int, slot: int, p: Packet)
    requires Whole(p) && Int32(shelf) && Int32(slot) && p.n >= 24
    ensures Run(Program(shelf, slot), p, 0, 0) == if ForUs(p, shelf, slot) then Keep(0xFFFF_FFFF) else Keep(0)
  {
    hide Run, Program;
    ProgramReturns(shelf, slot, p);
  }
}
