/** Edits of the mask list against edits of a set of masks. */
module AoeEdits {
  import opened Bytes
  import opened AoePacket
  import opened AoeMasks
  import opened AoeTarget

  /** What a directive is meant to do to the set of masks: change it, or be refused with an error. */
  datatype Meant = Change(masks: set<Mac>) | Refusal(error: int)

  function MeantStep(s: set<Mac>, cmd: int, ea: Mac): Meant {
    if cmd == 2 then Change(s - {ea})
    else if cmd == 1 then
      if ea in s then Change(s) else if |s| >= 32 then Refusal(3) else Change(s + {ea})
    else if cmd == 0 then Change(s)
    else Refusal(2)
  }

  /** What a list of directives from number i on is meant to do: up to the first one refused. */
  function MeantEdit(s: set<Mac>, buf: seq<byte>, i: int, count: int): (set<Mac>, int, int)
    requires |buf| == 65536 && 0 <= i && count <= 255
    decreases count - i
  {
    if i >= count then (s, 0, count)
    else
      match MeantStep(s, Directive(buf, i).0, Directive(buf, i).1)
      case Change(t) => MeantEdit(t, buf, i + 1, count)
      case Refusal(e) => (s, e, i)
  }

  /** The list after a change holds exactly the set meant, each mask once; or the change was refused as meant. */
  predicate AsMeant(e: Edit, s: set<Mac>, meant: Meant) {
    match e
    case Edited(m, n) => meant.Change? && Distinct(m, n) && Members(m, n) == meant.masks
    case Refused(m, n, _, error) => meant == Refusal(error) && Distinct(m, n) && Members(m, n) == s
    case Broken => false
  }

  /** The guard under which a directive does what it is meant to. */
  predicate Harmless(masks: seq<byte>, n: int, cmd: int, ea: Mac)
    requires Sound(masks, n)
  {
    var f, c := Find(masks, n, ea, 0), Scanned(n);
    if cmd == 1 then f < c || (ea !in Members(masks, n) && (n >= 32 || c == n || Slot(masks, n) == Slot(masks, c)))
    else if cmd == 2 then
      if f < c then 6 * f + 6 <= n && Blend(masks, n, f) == Slot(masks, n - 1) else ea !in Members(masks, n)
    else true
  }

  /** A list without duplicates has as many masks as entries. */
  lemma {:induction false} MembersCount(masks: seq<byte>, n: int)
    requires 0 <= n && Distinct(masks, n)
    ensures |Members(masks, n)| == n
  {
    hide Slot;
    if n > 0 {
      MembersCount(masks, n - 1);
      assert Members(masks, n) == Members(masks, n - 1) + {Slot(masks, n - 1)};
      assert Slot(masks, n - 1) !in Members(masks, n - 1);
    }
  }

  lemma {:induction false} MembersAtMost(masks: seq<byte>, n: int)
    requires 0 <= n
    ensures |Members(masks, n)| <= n
    ensures |Members(masks, n)| == n ==> Distinct(masks, n)
  {
    hide Slot;
    if n > 0 {
      MembersAtMost(masks, n - 1);
      assert Members(masks, n) == Members(masks, n - 1) + {Slot(masks, n - 1)};
      if Slot(masks, n - 1) in Members(masks, n - 1) {
        assert Members(masks, n) == Members(masks, n - 1);
      }
    }
  }

  lemma FoundIsMember(masks: seq<byte>, n: int, ea: Mac)
    requires Sound(masks, n) && Find(masks, n, ea, 0) < Scanned(n)
    ensures ea in Members(masks, n)
  {
    assert Slot(masks, Find(masks, n, ea, 0)) == ea;
  }

  /** An addition does what it is meant to exactly under its guard. */
  lemma AddAsMeant(masks: seq<byte>, n: int, ea: Mac)
    requires Sound(masks, n) && Distinct(masks, n) && |ea| == 6
    ensures AsMeant(Directed(masks, n, 1, ea), Members(masks, n), MeantStep(Members(masks, n), 1, ea))
       <==> Harmless(masks, n, 1, ea)
  {
    MembersCount(masks, n);
    var f, c, s := Find(masks, n, ea, 0), Scanned(n), Members(masks, n);
    if f < c {
      FoundIsMember(masks, n, ea);
      hide Slot, Distinct, Members, Find;
    } else if n < 32 {
      AddRight(masks, n, ea);
      var r := Add(masks, n, ea);
      assert r.n == n + 1;
      if ea in s {
        AddedTwice(r.masks, n, s);
        hide Slot, Members, Find, Add;
      } else {
        assert c < n ==> Slot(masks, c) in s;
        AddedOnce(r.masks, n, s, ea);
        hide Slot, Distinct, Members, Find, Add;
      }
    } else {
      hide Slot, Distinct, Members;
    }
  }

  lemma AddedTwice(m: seq<byte>, n: int, s: set<Mac>)
    requires |s| == n
    ensures !(Distinct(m, n + 1) && Members(m, n + 1) == s)
  {
    if Distinct(m, n + 1) && 0 <= n {
      MembersCount(m, n + 1);
    }
  }

  lemma AddedOnce(m: seq<byte>, n: int, s: set<Mac>, ea: Mac)
    requires 0 <= n == |s| && ea !in s
    ensures Members(m, n + 1) == s + {ea} ==> Distinct(m, n + 1)
  {
    MembersAtMost(m, n + 1);
  }

  lemma RemovedOnce(m: seq<byte>, n: int, s: set<Mac>, ea: Mac)
    requires 0 < n == |s| && ea in s
    ensures Members(m, n - 1) == s - {ea} ==> Distinct(m, n - 1)
  {
    MembersAtMost(m, n - 1);
  }

  lemma RemoveAsMeant(masks: seq<byte>, n: int, ea: Mac)
    requires Sound(masks, n) && Distinct(masks, n) && |ea| == 6
    ensures AsMeant(Directed(masks, n, 2, ea), Members(masks, n), MeantStep(Members(masks, n), 2, ea))
       <==> Harmless(masks, n, 2, ea)
  {
    MembersCount(masks, n);
    var f, c, s := Find(masks, n, ea, 0), Scanned(n), Members(masks, n);
    if f < c {
      FoundIsMember(masks, n, ea);
      RemoveRight(masks, n, ea);
      var r := Remove(masks, n, ea);
      if r.Done? {
        assert r.n == n - 1;
        RemovedOnce(r.masks, n, s, ea);
      }
      hide Slot, Distinct, Members, Find, Remove, Blend;
    } else {
      hide Slot, Distinct, Members, Find;
    }
  }

  /** A directive does what it is meant to, and keeps the list without duplicates, exactly under its guard. */
  lemma StepAsMeant(masks: seq<byte>, n: int, cmd: int, ea: Mac)
    requires Sound(masks, n) && Distinct(masks, n) && |ea| == 6
    ensures AsMeant(Directed(masks, n, cmd, ea), Members(masks, n), MeantStep(Members(masks, n), cmd, ea))
       <==> Harmless(masks, n, cmd, ea)
  {
    if cmd == 1 {
      AddAsMeant(masks, n, ea);
    } else if cmd == 2 {
      RemoveAsMeant(masks, n, ea);
    } else {
      hide Slot, Distinct, Members, Find;
    }
  }

  /** Every directive up to the first one refused meets its guard. */
  predicate AllHarmless(masks: seq<byte>, n: int, buf: seq<byte>, i: int, count: int)
    requires Sound(masks, n) && |buf| == 65536 && 0 <= i && count <= 255
    decreases count - i
  {
    i < count ==>
      var (cmd, ea) := Directive(buf, i);
      && Harmless(masks, n, cmd, ea)
      && (Directed(masks, n, cmd, ea).Edited? ==>
            AllHarmless(Directed(masks, n, cmd, ea).masks, Directed(masks, n, cmd, ea).n, buf, i + 1, count))
  }

  /** A list of directives that all meet their guards edits the list as it is meant to edit the set: the same masks, no
      duplicates, at most 32, and refused at the same directive with the same error. */
  lemma {:induction false} EditAsMeant(masks: seq<byte>, n: int, buf: seq<byte>, i: int, count: int)
    requires Sound(masks, n) && Distinct(masks, n) && |buf| == 65536 && 0 <= i && count <= 255
    requires AllHarmless(masks, n, buf, i, count)
    ensures var (s, error, at) := MeantEdit(Members(masks, n), buf, i, count);
            match EditFrom(masks, n, buf, i, count)
            case Edited(m, k) => error == 0 && Distinct(m, k) && k <= 32 && Members(m, k) == s
            case Refused(m, k, j, e) => error == e && at == j && Distinct(m, k) && k <= 32 && Members(m, k) == s
            case Broken => false
    decreases count - i
  {
    hide Slot, Distinct, Members, Directive, Harmless, MeantStep, Directed;
    if i < count {
      var (cmd, ea) := Directive(buf, i);
      StepAsMeant(masks, n, cmd, ea);
      MeantErrors(Members(masks, n), cmd, ea);
      var e := Directed(masks, n, cmd, ea);
      if e.Edited? {
        EditAsMeant(e.masks, e.n, buf, i + 1, count);
      }
    }
  }

  lemma MeantErrors(s: set<Mac>, cmd: int, ea: Mac)
    ensures MeantStep(s, cmd, ea).Refusal? ==> MeantStep(s, cmd, ea).error > 0
  {
  }

  /** Every directive up to the first one refused does what it is meant to. */
  predicate AllAsMeant(masks: seq<byte>, n: int, buf: seq<byte>, i: int, count: int)
    requires Sound(masks, n) && |buf| == 65536 && 0 <= i && count <= 255
    decreases count - i
  {
    i < count ==>
      var (cmd, ea) := Directive(buf, i);
      var e := Directed(masks, n, cmd, ea);
      && AsMeant(e, Members(masks, n), MeantStep(Members(masks, n), cmd, ea))
      && (e.Edited? ==> AllAsMeant(e.masks, e.n, buf, i + 1, count))
  }

  /** Every directive of a list does what it is meant to exactly when all of them meet their guards. */
  lemma {:induction false} AllAsMeantIff(masks: seq<byte>, n: int, buf: seq<byte>, i: int, count: int)
    requires Sound(masks, n) && Distinct(masks, n) && |buf| == 65536 && 0 <= i && count <= 255
    ensures AllAsMeant(masks, n, buf, i, count) <==> AllHarmless(masks, n, buf, i, count)
    decreases count - i
  {
    hide Slot, Distinct, Members, Directive, Harmless, MeantStep, Directed;
    if i < count {
      var (cmd, ea) := Directive(buf, i);
      StepAsMeant(masks, n, cmd, ea);
      var e := Directed(masks, n, cmd, ea);
      if e.Edited? && AsMeant(e, Members(masks, n), MeantStep(Members(masks, n), cmd, ea)) {
        AllAsMeantIff(e.masks, e.n, buf, i + 1, count);
      }
    }
  }

  /** A packet whose directives all meet their guards leaves the masks that folding them over the set gives. */
  lemma PacketEdits(s: State, p: Packet, shelf: int, slot: int)
    requires Good(s) && Whole(p) && Edits(s, p, shelf, slot) && Distinct(s.masks, s.nmasks)
    requires AllHarmless(s.masks, s.nmasks, p.buf, 0, p.buf[27] as int)
    ensures var r := Step(s, p, shelf, slot);
            && r.Next? && !r.issued && r.state.srr == s.srr && Distinct(r.state.masks, r.state.nmasks)
            && Members(r.state.masks, r.state.nmasks)
               == MeantEdit(Members(s.masks, s.nmasks), p.buf, 0, p.buf[27] as int).0
  {
    StepInFull(s, p, shelf, slot);
    EditAsMeant(s.masks, s.nmasks, p.buf, 0, p.buf[27] as int);
    hide AllHarmless, MeantEdit, EditFrom, Step, Distinct, Members, Addressed, LetThrough;
  }

  // ----- Packets on which the edit goes wrong -----

  /** A packet buffer that holds these directives. */
  function EditPacket(ds: seq<(byte, Mac)>): (buf: seq<byte>)
    ensures |buf| == 65536
  {
    seq(65536, k requires 0 <= k < 65536 =>
      if 28 <= k < 28 + 8 * |ds| then DirectiveByte(ds[(k - 28) / 8], (k - 28) % 8) else 0)
  }

  function DirectiveByte(d: (byte, Mac), k: int): byte {
    if k == 1 then d.0 else if 2 <= k < 2 + |d.1| then d.1[k - 2] else 0
  }

  lemma DirectivePacked(ds: seq<(byte, Mac)>, i: int)
    requires 0 <= i < |ds| <= 255 && |ds[i].1| == 6
    ensures Directive(EditPacket(ds), i) == (ds[i].0 as int, ds[i].1)
  {
    var buf := EditPacket(ds);
    var p := 28 + 8 * i;
    assert At(buf, p + 1) == ds[i].0 as int;
    var mac := MacAt(buf, p + 2);
    forall j | 0 <= j < 6 ensures mac[j] == ds[i].1[j] {
      assert (p + 2 + j - 28) / 8 == i && (p + 2 + j - 28) % 8 == 2 + j;
    }
    assert mac == ds[i].1;
  }

  /** With fewer than six masks, taking the first one away always moves a negative number of bytes. */
  lemma RemoveFirstBreaks(masks: seq<byte>, n: int)
    requires Sound(masks, n) && 0 < n < 6
    ensures Remove(masks, n, Slot(masks, 0)) == Undefined
  {
    assert Find(masks, n, Slot(masks, 0), 0) == 0;
  }

  /** A packet that adds a mask to an empty list and takes it away again. */
  lemma AddThenDeleteBreaks(masks: seq<byte>, a: Mac)
    requires |masks| == 192 && |a| == 6
    ensures EditFrom(masks, 0, EditPacket([(1, a), (2, a)]), 0, 2) == Broken
  {
    var ds: seq<(byte, Mac)> := [(1, a), (2, a)];
    var buf := EditPacket(ds);
    DirectivePacked(ds, 0);
    DirectivePacked(ds, 1);
    hide EditPacket, Directive, Slot, Splice;
    var m := Splice(masks, 0, a);
    SplicedSlot(masks, 0, a, 0);
    RemoveFirstBreaks(m, 1);
    assert Directed(masks, 0, 1, a) == Edited(m, 1);
    assert EditFrom(masks, 0, buf, 0, 2) == EditFrom(m, 1, buf, 1, 2);
    assert EditFrom(m, 1, buf, 1, 2) == Broken;
  }

  /** A packet that adds three different masks to an empty list, in memory never written: the second is lost, and a
      mask of zeros is let through. */
  lemma ThreeAddsLoseOne(masks: seq<byte>, a: Mac, b: Mac, c: Mac)
    requires |masks| == 192 && (forall i :: 0 <= i < 192 ==> masks[i] == 0)
    requires |a| == |b| == |c| == 6 && a != b && a != c && b != c
    ensures var e := EditFrom(masks, 0, EditPacket([(1, a), (1, b), (1, c)]), 0, 3);
            e.Edited? && e.n == 3 && Members(e.masks, 3) == {a, c, [0, 0, 0, 0, 0, 0]}
  {
    var ds: seq<(byte, Mac)> := [(1, a), (1, b), (1, c)];
    var buf := EditPacket(ds);
    DirectivePacked(ds, 0);
    DirectivePacked(ds, 1);
    DirectivePacked(ds, 2);
    ThirdMaskOverwrites(a, b, c, masks);
    hide EditPacket, Directive, Add, Members;
    var m1 := Add(masks, 0, a).masks;
    var m2 := Add(m1, 1, b).masks;
    assert EditFrom(masks, 0, buf, 0, 3) == EditFrom(m1, 1, buf, 1, 3);
    assert EditFrom(m1, 1, buf, 1, 3) == EditFrom(m2, 2, buf, 2, 3);
    assert EditFrom(m2, 2, buf, 2, 3) == EditFrom(Add(m2, 2, c).masks, 3, buf, 3, 3);
  }
}
