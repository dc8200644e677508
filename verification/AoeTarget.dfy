/** The AoE target as a state machine over received packets: its mask list and its reservation list. */
module AoeTarget {
  import opened Bytes
  import opened AoePacket
  import opened AoeMasks

  datatype State = State(masks: seq<byte>, nmasks: int, srr: seq<Mac>)

  predicate Good(s: State) {
    Sound(s.masks, s.nmasks) && |s.srr| <= 255
  }

  /** What becomes of a packet: the next state and whether an ATA command reached the disk, or a move of a negative
      number of bytes. */
  datatype Outcome = Next(state: State, issued: bool) | Crash

  /** A mask edit: every directive done, or refused at one of them, or crashed. */
  datatype Edit = Edited(masks: seq<byte>, n: int) | Refused(masks: seq<byte>, n: int, at: int, error: int) | Broken

  function Directive(buf: seq<byte>, i: int): (d: (int, Mac))
    requires |buf| == 65536 && 0 <= i < 256
    ensures |d.1| == 6
  {
    (At(buf, 28 + 8 * i + 1), MacAt(buf, 28 + 8 * i + 2))
  }

  /** One directive. */
  function Directed(masks: seq<byte>, n: int, cmd: int, ea: Mac): (e: Edit)
    requires Sound(masks, n) && |ea| == 6
    ensures e.Edited? ==> Sound(e.masks, e.n)
    ensures e.Refused? ==> e.masks == masks && e.n == n
  {
    if cmd == 2 then
      match Remove(masks, n, ea)
      case Done(m, k) => Edited(m, k)
      case _ => Broken
    else if cmd == 1 then
      match Add(masks, n, ea)
      case Done(m, k) => Edited(m, k)
      case _ => Refused(masks, n, 0, 3)
    else if cmd == 0 then Edited(masks, n)
    else Refused(masks, n, 0, 2)
  }

  function EditFrom(masks: seq<byte>, n: int, buf: seq<byte>, i: int, count: int): (e: Edit)
    requires Sound(masks, n) && |buf| == 65536 && 0 <= i && count <= 255
    ensures e.Edited? ==> Sound(e.masks, e.n)
    ensures e.Refused? ==> Sound(e.masks, e.n) && i <= e.at < count
    decreases count - i
  {
    if i >= count then Edited(masks, n)
    else
      var (cmd, ea) := Directive(buf, i);
      match Directed(masks, n, cmd, ea)
      case Edited(m, k) => EditFrom(m, k, buf, i + 1, count)
      case Refused(m, k, _, e) => Refused(m, k, i, e)
      case Broken => Broken
  }

  function Macs(bytes: seq<byte>, n: int): (r: seq<Mac>)
    ensures |r| == if n > 0 then n else 0
    ensures forall i :: 0 <= i < |r| ==> r[i] == Slot(bytes, i)
  {
    seq(if n > 0 then n else 0, i => Slot(bytes, i))
  }

  /** A reserved target obeys the addresses on the list only. */
  predicate RrOk(srr: seq<Mac>, ea: Mac) {
    srr == [] || ea in srr
  }

  predicate MaskOk(masks: seq<byte>, n: int, ea: Mac) {
    n == 0 || ea in Members(masks, n)
  }

  function SrrStep(srr: seq<Mac>, p: Packet): seq<Mac>
    requires Whole(p)
  {
    var rcmd, nmacs := At(p.buf, 24), At(p.buf, 25);
    if (rcmd == 2 || (rcmd == 1 && RrOk(srr, Source(p)))) && p.n >= 26 + 6 * nmacs then
      Macs(p.buf[26..26 + 1536], nmacs)
    else srr
  }

  /** The error a reservation command is answered with: 6 to strangers, 2 for a wrong command or a short packet. */
  function SrrError(srr: seq<Mac>, p: Packet): int
    requires Whole(p)
  {
    var rcmd, nmacs := At(p.buf, 24), At(p.buf, 25);
    if rcmd > 2 then 2
    else if rcmd == 1 && !RrOk(srr, Source(p)) then 6
    else if rcmd > 0 && p.n < 26 + 6 * nmacs then 2
    else 0
  }

  /** A packet that passed the tests of the receive loop. */
  function Handle(s: State, p: Packet): Outcome
    requires Good(s) && Whole(p)
  {
    var cmd := At(p.buf, 19);
    if cmd == 0 then Next(s, p.n >= 36 && (At(p.buf, 27) == 0xec || RrOk(s.srr, Source(p))))
    else if cmd == 2 && p.n >= 28 && At(p.buf, 25) == 1 then
      match EditFrom(s.masks, s.nmasks, p.buf, 0, At(p.buf, 27))
      case Edited(m, n) => Next(s.(masks := m, nmasks := n), false)
      case Refused(m, n, _, _) => Next(s.(masks := m, nmasks := n), false)
      case Broken => Crash
    else if cmd == 3 && p.n >= 26 then Next(s.(srr := SrrStep(s.srr, p)), false)
    else Next(s, false)
  }

  /** One packet through the receive loop. */
  function Step(s: State, p: Packet, shelf: int, slot: int): Outcome
    requires Good(s) && Whole(p)
  {
    if !ForUs(p, shelf, slot) || !MaskOk(s.masks, s.nmasks, Source(p)) then Next(s, false) else Handle(s, p)
  }

  /** The packet is a set or a force set of the reservation list. */
  predicate SetsList(p: Packet, rcmd: int) {
    At(p.buf, 19) == 3 && At(p.buf, 24) == rcmd
  }

  /** One packet: no command of a stranger but 0xec reaches a reserved disk, and the list changes only by a force set
      or by a set of one who may; it never has more than 255 entries. */
  lemma StepReserves(s: State, p: Packet, shelf: int, slot: int)
    requires Good(s) && Whole(p)
    ensures var r := Step(s, p, shelf, slot);
            r.Next? ==>
              && Good(r.state)
              && (r.issued ==> At(p.buf, 19) == 0 && (At(p.buf, 27) == 0xec || RrOk(s.srr, Source(p))))
              && (r.state.srr != s.srr ==> SetsList(p, 2) || (SetsList(p, 1) && RrOk(s.srr, Source(p))))
  {
    hide EditFrom, ForUs, MaskOk;
  }

  // ----- What a packet does, by its bytes -----

  /** Of the AoE type, no response, and for this shelf and slot or for all. */
  predicate Addressed(p: Packet, shelf: int, slot: int)
    requires Whole(p)
  {
    && p.n >= 24 && p.buf[12] == 0x88 && p.buf[13] == 0xa2 && p.buf[14] as int / 8 % 2 == 0
    && (256 * p.buf[16] as int + p.buf[17] as int == shelf || (p.buf[16] == 0xff && p.buf[17] == 0xff))
    && (p.buf[18] as int == slot || p.buf[18] == 0xff)
  }

  /** Its sender is among the masks, if there are any. */
  predicate LetThrough(s: State, p: Packet)
    requires Good(s) && Whole(p)
  {
    s.nmasks == 0 || exists i :: 0 <= i < s.nmasks && s.masks[6 * i..6 * i + 6] == p.buf[6..12]
  }

  /** An ATA command reaches the disk. */
  predicate Issues(s: State, p: Packet, shelf: int, slot: int)
    requires Good(s) && Whole(p)
  {
    && Addressed(p, shelf, slot) && LetThrough(s, p) && p.buf[19] == 0 && p.n >= 36
    && (p.buf[27] == 0xec || s.srr == [] || p.buf[6..12] in s.srr)
  }

  /** The reservation list becomes that of the packet: by a force set, or by a set of one who may. */
  predicate Reserves(s: State, p: Packet, shelf: int, slot: int)
    requires Good(s) && Whole(p)
  {
    && Addressed(p, shelf, slot) && LetThrough(s, p) && p.buf[19] == 3
    && (p.buf[24] == 2 || (p.buf[24] == 1 && (s.srr == [] || p.buf[6..12] in s.srr)))
    && p.n >= 26 + 6 * p.buf[25] as int
  }

  /** The packet's directives edit the masks. */
  predicate Edits(s: State, p: Packet, shelf: int, slot: int)
    requires Good(s) && Whole(p)
  {
    Addressed(p, shelf, slot) && LetThrough(s, p) && p.buf[19] == 2 && p.n >= 28 && p.buf[25] == 1
  }

  /** The addresses in a packet, from byte 26 on. */
  predicate ListsMacs(list: seq<Mac>, p: Packet)
    requires Whole(p)
  {
    |list| == p.buf[25] as int && forall i :: 0 <= i < |list| ==> list[i] == p.buf[26 + 6 * i..32 + 6 * i]
  }

  lemma MemberBytes(s: State, p: Packet)
    requires Good(s) && Whole(p)
    ensures MaskOk(s.masks, s.nmasks, Source(p)) <==> LetThrough(s, p)
  {
    if s.nmasks != 0 {
      if Source(p) in Members(s.masks, s.nmasks) {
        var i :| 0 <= i < s.nmasks && Slot(s.masks, i) == Source(p);
        assert s.masks[6 * i..6 * i + 6] == p.buf[6..12];
      }
      if i :| 0 <= i < s.nmasks && s.masks[6 * i..6 * i + 6] == p.buf[6..12] {
        assert Slot(s.masks, i) == Source(p);
      }
    }
  }

  lemma AddressedBytes(p: Packet, shelf: int, slot: int)
    requires Whole(p)
    ensures ForUs(p, shelf, slot) <==> Addressed(p, shelf, slot)
  {
  }

  lemma ListInPacket(p: Packet)
    requires Whole(p)
    ensures ListsMacs(Macs(p.buf[26..26 + 1536], At(p.buf, 25)), p)
  {
    var list := Macs(p.buf[26..26 + 1536], At(p.buf, 25));
    forall i | 0 <= i < |list| ensures list[i] == p.buf[26 + 6 * i..32 + 6 * i] {
      assert list[i] == p.buf[26..26 + 1536][6 * i..6 * i + 6];
    }
  }

  /** One packet in full: when a command reaches the disk, when the reservation list becomes that of the packet, and
      when the masks are edited; otherwise nothing changes. */
  predicate InFull(s: State, p: Packet, shelf: int, slot: int, r: Outcome)
    requires Good(s) && Whole(p)
  {
    match r
    case Crash => Edits(s, p, shelf, slot) && EditFrom(s.masks, s.nmasks, p.buf, 0, p.buf[27] as int) == Broken
    case Next(t, issued) =>
      && (issued <==> Issues(s, p, shelf, slot))
      && (if Reserves(s, p, shelf, slot) then ListsMacs(t.srr, p) else t.srr == s.srr)
      && if Edits(s, p, shelf, slot) then
           Leaves(EditFrom(s.masks, s.nmasks, p.buf, 0, p.buf[27] as int), t.masks, t.nmasks)
         else t.masks == s.masks && t.nmasks == s.nmasks
  }

  /** The masks after an edit that was done or refused. */
  predicate Leaves(e: Edit, masks: seq<byte>, n: int) {
    match e
    case Edited(m, k) => masks == m && n == k
    case Refused(m, k, _, _) => masks == m && n == k
    case Broken => false
  }

  lemma StepInFull(s: State, p: Packet, shelf: int, slot: int)
    requires Good(s) && Whole(p)
    ensures InFull(s, p, shelf, slot, Step(s, p, shelf, slot))
  {
    MemberBytes(s, p);
    AddressedBytes(p, shelf, slot);
    ListInPacket(p);
    hide EditFrom, ForUs, MaskOk, Addressed, LetThrough, Macs, ListsMacs;
  }

  /** The state before packet k of a run, or none after a crash. */
  function StateAt(s: State, ps: seq<Packet>, k: int, shelf: int, slot: int): (r: Outcome)
    requires Good(s) && forall i :: 0 <= i < |ps| ==> Whole(ps[i])
    ensures r.Next? ==> Good(r.state)
  {
    if k <= 0 || k > |ps| then Next(s, false)
    else
      match StateAt(s, ps, k - 1, shelf, slot)
      case Crash => Crash
      case Next(t, _) =>
        StepReserves(t, ps[k - 1], shelf, slot);
        Step(t, ps[k - 1], shelf, slot)
  }

  /** A stretch of packets that leaves the reservation alone: no force set, and no set by one on the list. */
  predicate Undisturbed(srr: seq<Mac>, ps: seq<Packet>)
    requires forall i :: 0 <= i < |ps| ==> Whole(ps[i])
  {
    forall i :: 0 <= i < |ps| ==> !SetsList(ps[i], 2) && !(SetsList(ps[i], 1) && Source(ps[i]) in srr)
  }

  /** Over any such stretch the list stays as it is, and no command but 0xec of a stranger reaches the disk. */
  lemma {:induction false} ReservationHolds(s: State, ps: seq<Packet>, k: int, shelf: int, slot: int)
    requires Good(s) && s.srr != [] && (forall i :: 0 <= i < |ps| ==> Whole(ps[i]))
    requires Undisturbed(s.srr, ps) && 0 <= k <= |ps|
    ensures var r := StateAt(s, ps, k, shelf, slot);
            r.Next? ==>
              && r.state.srr == s.srr
              && (k > 0 && r.issued ==> At(ps[k - 1].buf, 27) == 0xec || Source(ps[k - 1]) in s.srr)
  {
    if k > 0 {
      ReservationHolds(s, ps, k - 1, shelf, slot);
      hide Step, SetsList;
      var before := StateAt(s, ps, k - 1, shelf, slot);
      if before.Next? {
        StepReserves(before.state, ps[k - 1], shelf, slot);
      }
    }
  }

  /** Over every run: whenever a command other than 0xec reaches the disk, its sender was on the list, or the list was
      empty; the list changes only by those two kinds of packet, and stays within 255 entries. */
  lemma {:induction false} RunReserves(s: State, ps: seq<Packet>, k: int, shelf: int, slot: int)
    requires Good(s) && (forall i :: 0 <= i < |ps| ==> Whole(ps[i])) && 0 < k <= |ps|
    ensures var before, after, p := StateAt(s, ps, k - 1, shelf, slot), StateAt(s, ps, k, shelf, slot), ps[k - 1];
            after.Next? ==>
              && before.Next? && |before.state.srr| <= 255 && |after.state.srr| <= 255
              && (after.issued && At(p.buf, 27) != 0xec ==> before.state.srr == [] || Source(p) in before.state.srr)
              && (after.state.srr != before.state.srr ==>
                    SetsList(p, 2) || (SetsList(p, 1) && (before.state.srr == [] || Source(p) in before.state.srr)))
  {
    var before := StateAt(s, ps, k - 1, shelf, slot);
    if before.Next? {
      StepReserves(before.state, ps[k - 1], shelf, slot);
      hide Step;
    }
  }

  /** A reservation command is answered without an error exactly if it is a read or sets the list; a set of one who may
      not is answered with 6, everything else with 2. */
  lemma ReservationErrors(s: State, p: Packet, shelf: int, slot: int)
    requires Good(s) && Whole(p) && Addressed(p, shelf, slot) && LetThrough(s, p) && p.buf[19] == 3
    ensures SrrError(s.srr, p) == 0 <==> p.buf[24] == 0 || Reserves(s, p, shelf, slot)
    ensures SrrError(s.srr, p) == 6 <==> p.buf[24] == 1 && s.srr != [] && p.buf[6..12] !in s.srr
    ensures SrrError(s.srr, p) in {0, 2, 6}
  {
    hide Addressed, LetThrough;
  }

  /** Over every run, every packet does just that to the state before it. */
  lemma RunInFull(s: State, ps: seq<Packet>, k: int, shelf: int, slot: int)
    requires Good(s) && (forall i :: 0 <= i < |ps| ==> Whole(ps[i])) && 0 < k <= |ps|
    ensures var before := StateAt(s, ps, k - 1, shelf, slot);
            before.Next? ==> InFull(before.state, ps[k - 1], shelf, slot, StateAt(s, ps, k, shelf, slot))
  {
    var before := StateAt(s, ps, k - 1, shelf, slot);
    if before.Next? {
      StepInFull(before.state, ps[k - 1], shelf, slot);
      hide Step, InFull;
    }
  }

  /** As long as nobody is on either list and no packet changes them, every command reaches the disk. */
  lemma {:induction false} OpenServes(s: State, ps: seq<Packet>, k: int, shelf: int, slot: int)
    requires Good(s) && (forall i :: 0 <= i < |ps| ==> Whole(ps[i]) && ps[i].buf[19] < 2) && 0 <= k <= |ps|
    requires s.nmasks == 0 && s.srr == []
    ensures var r := StateAt(s, ps, k, shelf, slot);
            && r.Next? && r.state.nmasks == 0 && r.state.srr == []
            && (k > 0 ==>
                  (r.issued <==> Addressed(ps[k - 1], shelf, slot) && ps[k - 1].buf[19] == 0 && ps[k - 1].n >= 36))
  {
    if k > 0 {
      OpenServes(s, ps, k - 1, shelf, slot);
      RunInFull(s, ps, k, shelf, slot);
      assert ps[k - 1].buf[19] < 2;
      hide Step, Addressed, ListsMacs, StateAt;
    }
  }
}
