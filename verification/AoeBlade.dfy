/** The target's own code: its lists as byte arrays, changed in place while packets are answered in their buffer. */
module AoeBlade {
  import opened Bytes
  import opened AoePacket
  import opened AoeMasks
  import opened AoeTarget

  class Blade {
    const shelf: int
    const slot: int
    const masks: array<byte>
    var nmasks: int
    const srr: array<byte>
    var nsrr: int

    ghost predicate Valid()
      reads this, masks, srr
    {
      masks.Length == 192 && srr.Length == 1536 && masks != srr && 0 <= nmasks <= 32 && 0 <= nsrr <= 255
    }

    ghost function Abstract(): (s: State)
      requires Valid()
      reads this, masks, srr
      ensures Good(s)
    {
      State(masks[..], nmasks, Macs(srr[..], nsrr))
    }

    constructor (sh: int, sl: int)
      ensures Valid() && shelf == sh && slot == sl && nmasks == 0 && Abstract().srr == []
      ensures fresh(masks) && fresh(srr)
    {
      shelf, slot, nmasks, nsrr := sh, sl, 0, 0;
      masks := new byte[192](_ => 0);
      srr := new byte[1536](_ => 0);
    }

    /** The search of both changes: every sixth byte up to as many bytes as there are masks. */
    method FindMask(ea: Mac) returns (p: int)
      requires Valid()
      ensures p == 6 * Find(masks[..], nmasks, ea, 0)
    {
      p := 0;
      while p < nmasks && masks[p..p + 6] != ea
        invariant 0 <= p <= nmasks + 5 && p % 6 == 0
        invariant Find(masks[..], nmasks, ea, 0) == Find(masks[..], nmasks, ea, p / 6)
        decreases nmasks - p
      {
        assert Slot(masks[..], p / 6) == masks[p..p + 6];
        p := p + 6;
      }
      if p < nmasks {
        assert Slot(masks[..], p / 6) == masks[p..p + 6];
      }
    }

    /** Returns 2 if the search found the mask, 0 if the list is full, 1 if the mask was put in. */
    method AddMask(ea: Mac) returns (r: int)
      requires Valid() && |ea| == 6
      modifies masks, this`nmasks
      ensures Valid()
      ensures match Add(old(masks[..]), old(nmasks), ea)
              case Done(m, n) => masks[..] == m && nmasks == n && r == if n == old(nmasks) then 2 else 1
              case _ => r == 0 && masks[..] == old(masks[..]) && nmasks == old(nmasks)
    {
      var p := FindMask(ea);
      if p < nmasks {
        return 2;
      }
      if nmasks >= 32 {
        return 0;
      }
      ghost var m := Splice(masks[..], p, ea);
      forall i | p <= i < p + 6 {
        masks[i] := ea[i - p];
      }
      assert masks[..] == m;
      nmasks := nmasks + 1;
      r := 1;
    }

    /** Moves the bytes behind the mask found over it; not ok if their number would be negative. */
    method RmMask(ea: Mac) returns (ok: bool)
      requires Valid()
      modifies masks, this`nmasks
      ensures Valid()
      ensures match Remove(old(masks[..]), old(nmasks), ea)
              case Done(m, n) => ok && masks[..] == m && nmasks == n
              case _ => !ok && masks[..] == old(masks[..]) && nmasks == old(nmasks)
    {
      var p := FindMask(ea);
      if p >= nmasks {
        return true;
      }
      if nmasks - p - 6 < 0 {
        return false;
      }
      MoveDown(p);
      nmasks := nmasks - 1;
      ok := true;
    }

    method MoveDown(p: int)
      requires Valid() && 0 <= p && p + 6 <= nmasks
      modifies masks
      ensures masks[..] == Splice(old(masks[..]), p, old(masks[..])[p + 6..nmasks])
    {
      ghost var m := Splice(masks[..], p, masks[..][p + 6..nmasks]);
      forall i | p <= i < nmasks - 6 {
        masks[i] := masks[i + 6];
      }
      assert masks[..] == m;
    }

    method RrOkay(ea: Mac) returns (ok: bool)
      requires Valid()
      ensures ok == RrOk(Abstract().srr, ea)
    {
      if nsrr == 0 {
        return true;
      }
      ok := false;
      var i := 0;
      while !ok && i < nsrr
        invariant 0 <= i <= nsrr
        invariant ok <==> exists k :: 0 <= k < i && Slot(srr[..], k) == ea
      {
        ok := srr[6 * i..6 * i + 6] == ea;
        assert srr[6 * i..6 * i + 6] == Slot(srr[..], i);
        i := i + 1;
      }
    }

    method MaskOkay(ea: Mac) returns (ok: bool)
      requires Valid()
      ensures ok <==> ea in Members(masks[..], nmasks)
    {
      ok := false;
      var i := 0;
      while !ok && i < nmasks
        invariant 0 <= i <= nmasks
        invariant ok <==> exists k :: 0 <= k < i && Slot(masks[..], k) == ea
      {
        ok := masks[6 * i..6 * i + 6] == ea;
        assert masks[6 * i..6 * i + 6] == Slot(masks[..], i);
        i := i + 1;
      }
    }

    /** Marks an error in the packet's header. */
    static method SetError(buf: array<byte>, code: byte)
      requires buf.Length == 65536
      modifies buf
      ensures At(buf[..], 15) == code as int
      ensures At(buf[..], 14) == old(At(buf[..], 14)) + if old(At(buf[..], 14)) / 4 % 2 == 0 then 4 else 0
      ensures forall i :: 0 <= i < 65536 && i != 14 && i != 15 ==> buf[i] == old(buf[i])
    {
      buf[15] := code;
      if buf[14] / 4 % 2 == 0 {
        buf[14] := buf[14] + 4;
      }
    }

    /** The reservation command: read, set or force set, answered with the list. */
    method AoeSrr(buf: array<byte>, n: int) returns (len: int)
      requires Valid() && buf.Length == 65536 && buf != srr && buf != masks && 26 <= n <= 65536
      modifies buf, srr, this`nsrr
      ensures Valid() && nmasks == old(nmasks) && masks[..] == old(masks[..])
      ensures Abstract().srr == SrrStep(old(Abstract().srr), Packet(old(buf[..]), n))
      ensures At(buf[..], 25) == nsrr && len == 26 + 6 * nsrr
      ensures Macs(buf[26..26 + 1536], nsrr) == Abstract().srr
      ensures var e := SrrError(old(Abstract().srr), Packet(old(buf[..]), n));
              if e == 0 then buf[14] == old(buf[14]) && buf[15] == old(buf[15])
              else At(buf[..], 14) / 4 % 2 == 1 && At(buf[..], 15) == e
    {
      ghost var was, list := buf[..], Abstract().srr;
      var e := SrrVerdict(buf, n);
      SrrStepCases(list, Packet(was, n));
      hide SrrStep, SrrError, Macs, RrOk;
      if e > 0 {
        SetError(buf, e);
      } else if buf[24] > 0 {
        SetList(buf, buf[25] as int, was);
      }
      Answer(buf);
      len := 26 + nsrr * 6;
    }

    /** The error the command is answered with, or 0. */
    method SrrVerdict(buf: array<byte>, n: int) returns (e: byte)
      requires Valid() && buf.Length == 65536 && 26 <= n <= 65536
      ensures e as int == SrrError(Abstract().srr, Packet(buf[..], n))
    {
      var rcmd, count := buf[24], buf[25] as int;
      if rcmd > 2 {
        return 2;
      }
      if rcmd == 1 {
        assert buf[6..12] == MacAt(buf[..], 6);
        var allowed := RrOkay(buf[6..12]);
        if !allowed {
          return 6;
        }
      }
      e := if rcmd > 0 && n < 26 + 6 * count then 2 else 0;
    }

    /** The list becomes the addresses in the packet. */
    method SetList(buf: array<byte>, count: int, ghost was: seq<byte>)
      requires Valid() && buf.Length == 65536 && buf != srr && buf != masks && 0 <= count <= 255
      requires was == buf[..]
      modifies srr, this`nsrr
      ensures Valid() && nmasks == old(nmasks) && masks[..] == old(masks[..])
      ensures nsrr == count && Abstract().srr == Macs(was[26..26 + 1536], count)
    {
      nsrr := count;
      forall i | 0 <= i < 6 * count {
        srr[i] := buf[26 + i];
      }
      SameMacs(srr[..], was[26..26 + 1536], count);
    }

    method Answer(buf: array<byte>)
      requires Valid() && buf.Length == 65536 && buf != srr && buf != masks
      modifies buf
      ensures At(buf[..], 25) == nsrr && Macs(buf[26..26 + 1536], nsrr) == Macs(srr[..], nsrr)
      ensures buf[14] == old(buf[14]) && buf[15] == old(buf[15])
    {
      buf[25] := nsrr as byte;
      forall i | 0 <= i < 6 * nsrr {
        buf[26 + i] := srr[i];
      }
      SameMacs(buf[26..26 + 1536], srr[..], nsrr);
    }

    /** The edit command: directive after directive, and then the list in the packet. */
    method AoeMask(buf: array<byte>, n: int) returns (ok: bool, len: int)
      requires Valid() && buf.Length == 65536 && buf != srr && buf != masks && 28 <= n <= 65536
      modifies buf, masks, this`nmasks
      ensures Valid() && nsrr == old(nsrr) && srr[..] == old(srr[..])
      ensures old(At(buf[..], 25)) == 1 ==>
                var e := EditFrom(old(masks[..]), old(nmasks), old(buf[..]), 0, old(At(buf[..], 27)));
                && Agrees(e, masks[..], nmasks, ok, At(buf[..], 26), At(buf[..], 27))
                && (e.Edited? ==> Listed(buf[..], masks[..], nmasks) && len == 28 + 8 * nmasks)
                && (e.Refused? ==> len == 28)
      ensures old(At(buf[..], 25)) != 1 ==> ok && masks[..] == old(masks[..]) && nmasks == old(nmasks)
      ensures old(At(buf[..], 25)) == 0 ==>
                At(buf[..], 26) == 0 && Listed(buf[..], masks[..], nmasks) && len == 28 + 8 * nmasks
      ensures old(At(buf[..], 25)) > 1 ==> Refuses(buf[..], 2) && len == 28
    {
      ok, len := true, 28;
      var cmd := buf[25];
      if cmd > 1 {
        SetError(buf, 2);
        return;
      }
      if cmd == 1 {
        var error: byte, at: int;
        ok, error, at := Directives(buf, buf[27] as int, buf[..]);
        if !ok {
          return;
        }
        if error > 0 {
          buf[26], buf[27] := error, at as byte;
          return;
        }
      }
      ListMasks(buf);
      len := 28 + 8 * nmasks;
    }

    /** The directives of an edit, up to the first one refused. */
    method Directives(buf: array<byte>, count: int, ghost was: seq<byte>) returns (ok: bool, error: byte, at: int)
      requires Valid() && buf.Length == 65536 && buf != srr && buf != masks && 0 <= count <= 255 && was == buf[..]
      modifies masks, this`nmasks
      ensures Valid()
      ensures Agrees(EditFrom(old(masks[..]), old(nmasks), was, 0, count), masks[..], nmasks, ok, error as int, at)
    {
      ghost var all := EditFrom(masks[..], nmasks, was, 0, count);
      at := 0;
      while at < count
        invariant Valid() && 0 <= at <= count
        invariant EditFrom(masks[..], nmasks, was, at, count) == all
      {
        hide *;
        ok, error := DirectAt(buf, at, count, was);
        if !ok || error > 0 {
          return;
        }
        at := at + 1;
      }
      ok, error := true, 0;
    }

    method DirectAt(buf: array<byte>, at: int, ghost count: int, ghost was: seq<byte>) returns (ok: bool, error: byte)
      requires Valid() && buf.Length == 65536 && was == buf[..] && 0 <= at < count <= 255
      modifies masks, this`nmasks
      ensures Valid()
      ensures if ok && error == 0 then
                EditFrom(old(masks[..]), old(nmasks), was, at, count) == EditFrom(masks[..], nmasks, was, at + 1, count)
              else Agrees(EditFrom(old(masks[..]), old(nmasks), was, at, count), masks[..], nmasks, ok, error as int,
                          at)
    {
      hide EditFrom, Directed, Directive, Agrees;
      ghost var m, k := masks[..], nmasks;
      var d := buf[28 + 8 * at + 1];
      var ea := buf[28 + 8 * at + 2..28 + 8 * at + 8];
      assert ea == was[28 + 8 * at + 2..28 + 8 * at + 8];
      DirectiveIs(was, at);
      ok, error := Direct(d, ea);
      EditStep(m, k, was, at, count, masks[..], nmasks, ok, error as int);
    }

    method Direct(cmd: byte, ea: Mac) returns (ok: bool, error: byte)
      requires Valid() && |ea| == 6
      modifies masks, this`nmasks
      ensures Valid()
      ensures Agrees(Directed(old(masks[..]), old(nmasks), cmd as int, ea), masks[..], nmasks, ok, error as int, 0)
    {
      hide Add, Remove;
      ok, error := true, 0;
      if cmd == 2 {
        ok := RmMask(ea);
      } else if cmd == 1 {
        var r := AddMask(ea);
        error := if r == 0 then 3 else 0;
      } else if cmd > 2 {
        error := 2;
      }
    }

    method ListMasks(buf: array<byte>)
      requires Valid() && buf.Length == 65536 && buf != srr && buf != masks
      modifies buf
      ensures At(buf[..], 26) == 0 && Listed(buf[..], masks[..], nmasks)
    {
      for i := 0 to nmasks
        invariant forall k :: 0 <= k < i ==> Shows(buf[..], masks[..], k)
      {
        ghost var before := buf[..];
        ListOne(buf, i);
        forall k | 0 <= k < i ensures Shows(buf[..], masks[..], k) {
          StillShows(before, buf[..], masks[..], k);
        }
      }
      ghost var before := buf[..];
      buf[26], buf[27] := 0, nmasks as byte;
      forall k | 0 <= k < nmasks ensures Shows(buf[..], masks[..], k) {
        StillShows(before, buf[..], masks[..], k);
      }
    }

    method ListOne(buf: array<byte>, i: int)
      requires Valid() && buf.Length == 65536 && buf != srr && buf != masks && 0 <= i < nmasks
      modifies buf
      ensures Shows(buf[..], masks[..], i)
      ensures forall k :: 0 <= k < 65536 && !(28 + 8 * i <= k < 36 + 8 * i) ==> buf[..][k] == old(buf[..])[k]
    {
      buf[28 + 8 * i], buf[28 + 8 * i + 1] := 0, 0;
      forall j | 28 + 8 * i + 2 <= j < 28 + 8 * i + 8 {
        buf[j] := masks[6 * i + (j - (28 + 8 * i + 2))];
      }
      assert MacAt(buf[..], 28 + 8 * i + 2) == Slot(masks[..], i);
    }

    /** An ATA request goes to the disk unless the target is reserved for others; 0xec always does. */
    method AoeAta(buf: array<byte>) returns (issued: bool)
      requires Valid() && buf.Length == 65536 && buf != srr && buf != masks
      modifies buf
      ensures issued == (old(At(buf[..], 27)) == 0xec || RrOk(Abstract().srr, old(MacAt(buf[..], 6))))
      ensures !issued ==> Refuses(buf[..], 6)
    {
      issued := true;
      if buf[27] != 0xec {
        assert buf[6..12] == MacAt(buf[..], 6);
        issued := RrOkay(buf[6..12]);
        if !issued {
          SetError(buf, 6);
        }
      }
    }

    /** Dispatches a packet that passed the tests. */
    method DoAoe(buf: array<byte>, n: int) returns (ok: bool, issued: bool)
      requires Valid() && buf.Length == 65536 && buf != srr && buf != masks && 24 <= n <= 65536
      modifies buf, masks, srr, this`nmasks, this`nsrr
      ensures Valid()
      ensures Follows(Handle(old(Abstract()), Packet(old(buf[..]), n)), Abstract(), ok, issued)
      ensures old(buf[19]) == 0 && n >= 36 && !issued ==> Refuses(buf[..], 6)
      ensures old(buf[19]) > 3 ==> Refuses(buf[..], 1)
    {
      hide EditFrom, Macs, SrrStep;
      ok, issued := true, false;
      var cmd := buf[19];
      if cmd == 0 {
        if n >= 36 {
          issued := AoeAta(buf);
        }
      } else if cmd == 2 {
        if n >= 28 {
          var len;
          ok, len := AoeMask(buf, n);
        }
      } else if cmd == 3 {
        if n >= 26 {
          var len := AoeSrr(buf, n);
        }
      } else if cmd > 3 {
        SetError(buf, 1);
      }
    }

    /** The receive loop's turn for one packet. */
    method Receive(buf: array<byte>, n: int) returns (ok: bool, issued: bool)
      requires Valid() && buf.Length == 65536 && buf != srr && buf != masks && 0 <= n <= 65536
      modifies buf, masks, srr, this`nmasks, this`nsrr
      ensures Valid()
      ensures Follows(Step(old(Abstract()), Packet(old(buf[..]), n), shelf, slot), Abstract(), ok, issued)
    {
      hide Handle, Members, Macs;
      ok, issued := true, false;
      ghost var p := Packet(buf[..], n);
      if n < 24 || 256 * (buf[12] as int) + buf[13] as int != 0x88a2 || buf[14] / 8 % 2 == 1 {
        return;
      }
      var sh, min := 256 * (buf[16] as int) + buf[17] as int, buf[18] as int;
      if (sh != shelf && sh != 0xffff) || (min != slot && min != 0xff) {
        return;
      }
      assert ForUs(p, shelf, slot);
      if nmasks > 0 {
        assert buf[6..12] == Source(p);
        var member := MaskOkay(buf[6..12]);
        if !member {
          return;
        }
      }
      ok, issued := DoAoe(buf, n);
    }
  }

  /** The reply has the error flag and this error. */
  ghost predicate Refuses(buf: seq<byte>, error: int)
    requires |buf| == 65536
  {
    buf[14] as int / 4 % 2 == 1 && buf[15] as int == error
  }

  /** The reply lists the masks in force. */
  ghost predicate Listed(buf: seq<byte>, masks: seq<byte>, n: int)
    requires |buf| == 65536 && 0 <= n <= 32
  {
    At(buf, 27) == n && forall k :: 0 <= k < n ==> Shows(buf, masks, k)
  }

  ghost predicate Shows(buf: seq<byte>, masks: seq<byte>, k: int)
    requires |buf| == 65536 && 0 <= k < 256
  {
    Directive(buf, k) == (0, Slot(masks, k))
  }

  lemma StillShows(before: seq<byte>, after: seq<byte>, masks: seq<byte>, k: int)
    requires |before| == |after| == 65536 && 0 <= k < 256 && Shows(before, masks, k)
    requires forall j :: 28 + 8 * k <= j < 36 + 8 * k ==> after[j] == before[j]
    ensures Shows(after, masks, k)
  {
    assert MacAt(after, 28 + 8 * k + 2) == MacAt(before, 28 + 8 * k + 2);
  }

  /** The list is replaced by a set or force set without an error. */
  lemma SrrStepCases(srr: seq<Mac>, p: Packet)
    requires Whole(p)
    ensures SrrStep(srr, p)
         == if SrrError(srr, p) == 0 && At(p.buf, 24) > 0 then Macs(p.buf[26..26 + 1536], At(p.buf, 25)) else srr
  {
    hide Macs;
  }

  lemma SameMacs(a: seq<byte>, b: seq<byte>, n: int)
    requires 0 <= n <= 255 && |a| == |b| == 1536 && forall i :: 0 <= i < 6 * n ==> a[i] == b[i]
    ensures Macs(a, n) == Macs(b, n)
  {
    forall i | 0 <= i < n ensures Slot(a, i) == Slot(b, i) {
      assert forall j :: 0 <= j < 6 ==> Slot(a, i)[j] == Slot(b, i)[j];
    }
  }

  lemma DirectiveIs(buf: seq<byte>, i: int)
    requires |buf| == 65536 && 0 <= i < 256
    ensures Directive(buf, i) == (buf[28 + 8 * i + 1] as int, buf[28 + 8 * i + 2..28 + 8 * i + 8])
  {
  }

  /** The lists and the results after an edit are those of the specification. */
  ghost predicate Agrees(e: Edit, m: seq<byte>, n: int, ok: bool, error: int, at: int) {
    match e
    case Edited(m', n') => ok && error == 0 && m == m' && n == n'
    case Refused(m', n', i, e) => ok && 0 < error == e && at == i && m == m' && n == n'
    case Broken => !ok
  }

  lemma EditStep(masks: seq<byte>, n: int, buf: seq<byte>, i: int, count: int, m: seq<byte>, k: int, ok: bool,
                 error: int)
    requires Sound(masks, n) && Sound(m, k) && |buf| == 65536 && 0 <= i < count <= 255
    requires Agrees(Directed(masks, n, Directive(buf, i).0, Directive(buf, i).1), m, k, ok, error, 0)
    ensures if ok && error == 0 then EditFrom(masks, n, buf, i, count) == EditFrom(m, k, buf, i + 1, count)
            else Agrees(EditFrom(masks, n, buf, i, count), m, k, ok, error, i)
  {
    hide Directed, Directive;
  }

  ghost predicate Follows(r: Outcome, s: State, ok: bool, issued: bool) {
    match r
    case Next(t, i) => ok && s == t && issued == i
    case Crash => !ok
  }

  /** After i packets of a run the state is t. */
  ghost predicate ReachedAt(s: State, ps: seq<Packet>, i: int, shelf: int, slot: int, t: State)
    requires Good(s) && forall j :: 0 <= j < |ps| ==> Whole(ps[j])
  {
    var r := StateAt(s, ps, i, shelf, slot);
    0 <= i <= |ps| && r.Next? && r.state == t
  }

  /** Packet k of a run is got over, and an ATA command was issued or not, as the state before it says. */
  ghost predicate IssuedAt(s: State, ps: seq<Packet>, k: int, shelf: int, slot: int, issued: bool)
    requires Good(s) && forall j :: 0 <= j < |ps| ==> Whole(ps[j])
  {
    var before, r := StateAt(s, ps, k, shelf, slot), StateAt(s, ps, k + 1, shelf, slot);
    && 0 <= k < |ps| && before.Next? && r.Next? && r.issued == issued
    && (issued <==> Issues(before.state, ps[k], shelf, slot))
  }

  lemma RunStart(s: State, ps: seq<Packet>, shelf: int, slot: int)
    requires Good(s) && forall j :: 0 <= j < |ps| ==> Whole(ps[j])
    ensures ReachedAt(s, ps, 0, shelf, slot, s)
  {
  }

  lemma RunNext(s: State, ps: seq<Packet>, i: int, shelf: int, slot: int, t: State, t': State, ok: bool, issued: bool)
    requires Good(s) && forall j :: 0 <= j < |ps| ==> Whole(ps[j])
    requires 0 <= i < |ps| && Good(t) && ReachedAt(s, ps, i, shelf, slot, t)
    requires Follows(Step(t, ps[i], shelf, slot), t', ok, issued)
    ensures if ok then ReachedAt(s, ps, i + 1, shelf, slot, t') && IssuedAt(s, ps, i, shelf, slot, issued)
            else StateAt(s, ps, i + 1, shelf, slot).Crash?
  {
    StepInFull(t, ps[i], shelf, slot);
    hide Step, Issues, Reserves, Edits, ListsMacs, Leaves;
  }

  lemma Loaded(p: Packet, bytes: seq<byte>)
    requires Whole(p) && bytes == p.buf
    ensures Packet(bytes, p.n) == p && |bytes| == 65536 && 0 <= p.n <= 65536
  {
  }

  /** Receives packet after packet; each one fills the buffer. It follows the run of the state machine, and ends early,
      not ok, on a move of a negative number of bytes. */
  method Serve(b: Blade, buf: array<byte>, ps: seq<Packet>) returns (ok: bool, issued: seq<bool>)
    requires b.Valid() && buf.Length == 65536 && buf != b.srr && buf != b.masks
    requires forall j :: 0 <= j < |ps| ==> Whole(ps[j])
    modifies b`nmasks, b`nsrr, buf, b.masks, b.srr
    ensures b.Valid() && |issued| <= |ps|
    ensures forall k :: 0 <= k < |issued| ==> IssuedAt(old(b.Abstract()), ps, k, b.shelf, b.slot, issued[k])
    ensures if ok then |issued| == |ps| && ReachedAt(old(b.Abstract()), ps, |ps|, b.shelf, b.slot, b.Abstract())
            else |issued| < |ps| && StateAt(old(b.Abstract()), ps, |issued| + 1, b.shelf, b.slot).Crash?
  {
    ghost var s := b.Abstract();
    ok, issued := true, [];
    RunStart(s, ps, b.shelf, b.slot);
    while |issued| < |ps|
      invariant b.Valid() && |issued| <= |ps| && Good(s)
      invariant ReachedAt(s, ps, |issued|, b.shelf, b.slot, b.Abstract())
      invariant forall k :: 0 <= k < |issued| ==> IssuedAt(s, ps, k, b.shelf, b.slot, issued[k])
    {
      hide *;
      var sent: bool;
      ok, sent := Turn(b, buf, ps, |issued|, s);
      if !ok {
        return;
      }
      issued := issued + [sent];
    }
  }

  method Turn(b: Blade, buf: array<byte>, ps: seq<Packet>, i: int, ghost s: State) returns (ok: bool, issued: bool)
    requires b.Valid() && buf.Length == 65536 && buf != b.srr && buf != b.masks
    requires Good(s) && (forall j :: 0 <= j < |ps| ==> Whole(ps[j])) && 0 <= i < |ps|
    requires ReachedAt(s, ps, i, b.shelf, b.slot, b.Abstract())
    modifies b`nmasks, b`nsrr, buf, b.masks, b.srr
    ensures b.Valid()
    ensures if ok then
              ReachedAt(s, ps, i + 1, b.shelf, b.slot, b.Abstract()) && IssuedAt(s, ps, i, b.shelf, b.slot, issued)
            else StateAt(s, ps, i + 1, b.shelf, b.slot).Crash?
  {
    ghost var t := b.Abstract();
    assert Whole(ps[i]);
    Loaded(ps[i], ps[i].buf);
    hide *;
    Load(buf, ps[i].buf);
    Loaded(ps[i], buf[..]);
    ok, issued := b.Receive(buf, ps[i].n);
    RunNext(s, ps, i, b.shelf, b.slot, t, b.Abstract(), ok, issued);
  }

  /** So a reserved blade, over packets with no force set and no set by one on its list, keeps its list in the byte
      array and lets no command but 0xec of a stranger through. */
  method ServeReserved(b: Blade, buf: array<byte>, ps: seq<Packet>) returns (ok: bool, issued: seq<bool>)
    requires b.Valid() && buf.Length == 65536 && buf != b.srr && buf != b.masks
    requires forall j :: 0 <= j < |ps| ==> Whole(ps[j])
    requires b.nsrr > 0 && Undisturbed(Macs(b.srr[..], b.nsrr), ps)
    modifies b`nmasks, b`nsrr, buf, b.masks, b.srr
    ensures b.Valid() && |issued| <= |ps| && (ok ==> |issued| == |ps|)
    ensures ok ==> Macs(b.srr[..], b.nsrr) == old(Macs(b.srr[..], b.nsrr))
    ensures forall k :: 0 <= k < |issued| && issued[k] ==>
              At(ps[k].buf, 27) == 0xec || Source(ps[k]) in old(Macs(b.srr[..], b.nsrr))
  {
    ghost var s := b.Abstract();
    ok, issued := Serve(b, buf, ps);
    ReservationHolds(s, ps, |ps|, b.shelf, b.slot);
    forall k | 0 <= k < |issued| && issued[k] ensures At(ps[k].buf, 27) == 0xec || Source(ps[k]) in s.srr {
      ReservationHolds(s, ps, k + 1, b.shelf, b.slot);
      assert IssuedAt(s, ps, k, b.shelf, b.slot, issued[k]);
    }
  }

  /** With nobody on either list, over packets that change neither, every command to this target is issued. */
  method ServeOpen(b: Blade, buf: array<byte>, ps: seq<Packet>) returns (ok: bool, issued: seq<bool>)
    requires b.Valid() && buf.Length == 65536 && buf != b.srr && buf != b.masks && b.nmasks == b.nsrr == 0
    requires forall j :: 0 <= j < |ps| ==> Whole(ps[j]) && ps[j].buf[19] < 2
    modifies b`nmasks, b`nsrr, buf, b.masks, b.srr
    ensures b.Valid() && ok && |issued| == |ps|
    ensures forall k :: 0 <= k < |ps| ==>
              (issued[k] <==> Addressed(ps[k], b.shelf, b.slot) && ps[k].buf[19] == 0 && ps[k].n >= 36)
  {
    ghost var s := b.Abstract();
    ok, issued := Serve(b, buf, ps);
    if !ok {
      OpenServes(s, ps, |issued| + 1, b.shelf, b.slot);
    }
    forall k | 0 <= k < |ps|
      ensures issued[k] <==> Addressed(ps[k], b.shelf, b.slot) && ps[k].buf[19] == 0 && ps[k].n >= 36
    {
      OpenServes(s, ps, k + 1, b.shelf, b.slot);
      assert IssuedAt(s, ps, k, b.shelf, b.slot, issued[k]);
    }
  }

  /** Packets arrive in the buffer. */
  method Load(buf: array<byte>, bytes: seq<byte>)
    requires buf.Length == |bytes|
    modifies buf
    ensures buf[..] == bytes
  {
    forall i | 0 <= i < |bytes| {
      buf[i] := bytes[i];
    }
  }
}
