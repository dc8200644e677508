/** The mask list of the AoE target, as the bytes it is kept in, and its edit command. The search for a mask stops
    after as many bytes as there are masks. */
module AoeMasks {
  import opened Bytes
  import opened AoePacket

  function Slot(masks: seq<byte>, i: int): Mac {
    if 0 <= i && 6 * i + 6 <= |masks| then masks[6 * i..6 * i + 6] else []
  }

  /** The slots the search looks at, of n masks. */
  function Scanned(n: int): int {
    (n + 5) / 6
  }

  /** The slot the search finds, or Scanned(n). */
  function Find(masks: seq<byte>, n: int, ea: Mac, i: int): (f: int)
    ensures i <= f && (i <= Scanned(n) ==> f <= Scanned(n))
    ensures f < Scanned(n) ==> Slot(masks, f) == ea
    ensures forall k :: i <= k < f ==> Slot(masks, k) != ea
    decreases Scanned(n) - i
  {
    if i < Scanned(n) && Slot(masks, i) != ea then Find(masks, n, ea, i + 1) else i
  }

  predicate Sound(masks: seq<byte>, n: int) {
    |masks| == 192 && 0 <= n <= 32
  }

  /** The masks in force. */
  function Members(masks: seq<byte>, n: int): set<Mac> {
    set i | 0 <= i < n :: Slot(masks, i)
  }

  predicate Distinct(masks: seq<byte>, n: int) {
    forall i, j :: 0 <= i < j < n ==> Slot(masks, i) != Slot(masks, j)
  }

  /** A change of the list: done, refused, or a move of a negative number of bytes. */
  datatype Change = Done(masks: seq<byte>, n: int) | Full | Undefined

  function Add(masks: seq<byte>, n: int, ea: Mac): Change
    requires Sound(masks, n) && |ea| == 6
  {
    if Find(masks, n, ea, 0) < Scanned(n) then Done(masks, n)
    else if n >= 32 then Full
    else Done(Splice(masks, 6 * Scanned(n), ea), n + 1)
  }

  function Remove(masks: seq<byte>, n: int, ea: Mac): Change
    requires Sound(masks, n)
  {
    var f := Find(masks, n, ea, 0);
    if f >= Scanned(n) then Done(masks, n)
    else if n < 6 * f + 6 then Undefined
    else Done(Splice(masks, 6 * f, masks[6 * f + 6..n]), n - 1)
  }

  lemma SplicedSlot(masks: seq<byte>, c: int, ea: Mac, i: int)
    requires |masks| == 192 && 0 <= c < 32 && |ea| == 6 && 0 <= i < 32
    ensures Slot(Splice(masks, 6 * c, ea), i) == if i == c then ea else Slot(masks, i)
  {
    var a := Slot(Splice(masks, 6 * c, ea), i);
    var b := if i == c then ea else Slot(masks, i);
    assert |a| == 6 == |b|;
    assert forall k :: 0 <= k < 6 ==> a[k] == b[k];
  }

  /** An addition of a mask not found, to a list without duplicates, adds exactly that mask just when the search saw
      all of the list, or the slot behind the list happens to hold the mask that is overwritten, or that mask is the
      very one and the slot behind the list holds one of the list. */
  lemma AddRight(masks: seq<byte>, n: int, ea: Mac)
    requires Sound(masks, n) && n < 32 && |ea| == 6 && Distinct(masks, n) && Find(masks, n, ea, 0) == Scanned(n)
    ensures Add(masks, n, ea).Done?
    ensures Members(Add(masks, n, ea).masks, Add(masks, n, ea).n) == Members(masks, n) + {ea}
       <==> var c := Scanned(n);
            || c == n || Slot(masks, n) == Slot(masks, c)
            || (Slot(masks, c) == ea && Slot(masks, n) in Members(masks, n) + {ea})
  {
    var c := Scanned(n);
    var m := Splice(masks, 6 * c, ea);
    assert Add(masks, n, ea) == Done(m, n + 1);
    assert c <= n;
    forall i | 0 <= i < 32 ensures Slot(m, i) == if i == c then ea else Slot(masks, i) {
      SplicedSlot(masks, c, ea, i);
    }
    hide Splice, Add, Find, Scanned;
    AddedSet(masks, m, n, c, ea);
  }

  lemma AddedSet(masks: seq<byte>, m: seq<byte>, n: int, c: int, ea: Mac)
    requires 0 <= c <= n < 32 && Distinct(masks, n)
    requires forall i :: 0 <= i < 32 ==> Slot(m, i) == if i == c then ea else Slot(masks, i)
    ensures Members(m, n + 1) == Members(masks, n) + {ea}
       <==> || c == n || Slot(masks, n) == Slot(masks, c)
            || (Slot(masks, c) == ea && Slot(masks, n) in Members(masks, n) + {ea})
  {
    hide Slot;
    if
      || c == n || Slot(masks, n) == Slot(masks, c)
      || (Slot(masks, c) == ea && Slot(masks, n) in Members(masks, n) + {ea})
    {
      assert forall x :: x in Members(m, n + 1) ==> x in Members(masks, n) + {ea};
      forall x | x in Members(masks, n) + {ea} ensures x in Members(m, n + 1) {
        if x == ea {
          assert x == Slot(m, c);
        } else {
          var i :| 0 <= i < n && x == Slot(masks, i);
          assert x == Slot(m, if i == c then n else i);
        }
      }
    } else if Slot(masks, n) !in Members(masks, n) + {ea} {
      assert Slot(m, n) in Members(m, n + 1);
    } else {
      assert Slot(masks, c) in Members(masks, n) + {ea};
      forall i | 0 <= i < n + 1 ensures Slot(m, i) != Slot(masks, c) {
      }
    }
  }

  /** Where a removal stops moving whole masks, and what it leaves there: the head of the next mask and its own tail. */
  function Seam(n: int, f: int): int {
    f + (n - 6 * f - 6) / 6
  }

  function Blend(masks: seq<byte>, n: int, f: int): Mac
    requires Sound(masks, n) && 0 <= f && 6 * f + 6 <= n
  {
    var k, r := Seam(n, f), (n - 6 * f - 6) % 6;
    Slot(masks, k + 1)[..r] + Slot(masks, k)[r..]
  }

  /** What a removal leaves in slot i. */
  function Shifted(masks: seq<byte>, f: int, k: int, blend: Mac, i: int): Mac {
    if i < f || i > k then Slot(masks, i) else if i < k then Slot(masks, i + 1) else blend
  }

  lemma RemovedSlot(masks: seq<byte>, n: int, f: int, i: int)
    requires Sound(masks, n) && 0 <= f && 6 * f + 6 <= n && 0 <= i < 31
    ensures Slot(Splice(masks, 6 * f, masks[6 * f + 6..n]), i)
         == Shifted(masks, f, Seam(n, f), Blend(masks, n, f), i)
  {
    hide Splice, Slot, Shifted;
    MovedSlot(masks, n, f, Seam(n, f), (n - 6 * f - 6) % 6, i);
  }

  lemma MovedSlot(masks: seq<byte>, n: int, f: int, k: int, r: int, i: int)
    requires |masks| == 192 && n <= 32 && 0 <= f <= k && n == 6 * k + 6 + r && 0 <= r < 6 && 0 <= i < 31
    ensures Slot(Splice(masks, 6 * f, masks[6 * f + 6..n]), i)
         == Shifted(masks, f, k, Slot(masks, k + 1)[..r] + Slot(masks, k)[r..], i)
  {
    var m := Splice(masks, 6 * f, masks[6 * f + 6..n]);
    forall p | 0 <= p < 192 ensures m[p] == MovedByte(masks, 6 * f, n - 6, p) {
    }
    hide Splice;
    MovedBytes(masks, m, n, f, k, r, i);
  }

  /** Bytes lo to hi come from six places further on. */
  function MovedByte(masks: seq<byte>, lo: int, hi: int, p: int): byte
    requires |masks| == 192 && hi <= 186 && 0 <= p < 192
  {
    if lo <= p < hi then masks[p + 6] else masks[p]
  }

  lemma MovedBytes(masks: seq<byte>, m: seq<byte>, n: int, f: int, k: int, r: int, i: int)
    requires |masks| == 192 == |m| && n <= 32 && 0 <= f <= k && n == 6 * k + 6 + r && 0 <= r < 6 && 0 <= i < 31
    requires forall p :: 0 <= p < 192 ==> m[p] == MovedByte(masks, 6 * f, n - 6, p)
    ensures Slot(m, i) == Shifted(masks, f, k, Slot(masks, k + 1)[..r] + Slot(masks, k)[r..], i)
  {
    SlotBytes(masks, k);
    SlotBytes(masks, k + 1);
    SlotBytes(masks, i);
    SlotBytes(masks, i + 1);
    SlotBytes(m, i);
    hide Slot;
    var blend := Slot(masks, k + 1)[..r] + Slot(masks, k)[r..];
    var a, b := Slot(m, i), Shifted(masks, f, k, blend, i);
    forall j | 0 <= j < 6 ensures a[j] == b[j] {
      assert a[j] == m[6 * i + j] == MovedByte(masks, 6 * f, n - 6, 6 * i + j);
      assert blend[j] == if j < r then Slot(masks, k + 1)[j] else Slot(masks, k)[j];
    }
  }

  lemma SlotBytes(masks: seq<byte>, i: int)
    requires |masks| == 192 && 0 <= i < 32
    ensures |Slot(masks, i)| == 6 && forall j :: 0 <= j < 6 ==> Slot(masks, i)[j] == masks[6 * i + j]
  {
  }

  /** The removal of a mask that is found, from a list without duplicates, moves a negative number of bytes if there are
      fewer masks than its last byte; otherwise it takes exactly that mask away just when the blend at the seam happens
      to be the last mask of the list. */
  lemma RemoveRight(masks: seq<byte>, n: int, ea: Mac)
    requires Sound(masks, n) && Distinct(masks, n) && Find(masks, n, ea, 0) < Scanned(n)
    ensures var f := Find(masks, n, ea, 0);
            if n < 6 * f + 6 then Remove(masks, n, ea) == Undefined
            else
              && Remove(masks, n, ea).Done?
              && (Members(Remove(masks, n, ea).masks, Remove(masks, n, ea).n) == Members(masks, n) - {ea}
                  <==> Blend(masks, n, f) == Slot(masks, n - 1))
  {
    var f := Find(masks, n, ea, 0);
    if n >= 6 * f + 6 {
      assert f <= Seam(n, f) && Seam(n, f) + 2 < n;
      assert Slot(masks, f) == ea;
      hide *;
      RemovedIs(masks, n, ea, f);
      var m := Splice(masks, 6 * f, masks[6 * f + 6..n]);
      forall i | 0 <= i < 31 ensures Slot(m, i) == Shifted(masks, f, Seam(n, f), Blend(masks, n, f), i) {
        RemovedSlot(masks, n, f, i);
      }
      RemovedSet(masks, m, n, f, Seam(n, f), Blend(masks, n, f));
    }
  }

  lemma RemovedIs(masks: seq<byte>, n: int, ea: Mac, f: int)
    requires Sound(masks, n) && f == Find(masks, n, ea, 0) < Scanned(n) && 6 * f + 6 <= n
    ensures |masks| == 192 && 0 <= n <= 32
    ensures Remove(masks, n, ea) == Done(Splice(masks, 6 * f, masks[6 * f + 6..n]), n - 1)
  {
  }

  lemma RemovedSet(masks: seq<byte>, m: seq<byte>, n: int, f: int, k: int, blend: Mac)
    requires 0 <= f <= k && k + 2 < n <= 32 && Distinct(masks, n)
    requires forall i :: 0 <= i < 31 ==> Slot(m, i) == Shifted(masks, f, k, blend, i)
    ensures Members(m, n - 1) == Members(masks, n) - {Slot(masks, f)} <==> blend == Slot(masks, n - 1)
  {
    hide Slot;
    var ea := Slot(masks, f);
    if blend == Slot(masks, n - 1) {
      forall i | 0 <= i < n - 1 ensures Slot(m, i) in Members(masks, n) && Slot(m, i) != ea {
        if i < f || i > k {
          assert Slot(m, i) == Slot(masks, i);
        } else if i < k {
          assert Slot(m, i) == Slot(masks, i + 1);
        } else {
          assert Slot(m, i) == Slot(masks, n - 1);
        }
      }
      forall i | 0 <= i < n && i != f ensures Slot(masks, i) in Members(m, n - 1) {
        if i == n - 1 {
          assert Slot(m, k) == Slot(masks, i);
        } else if i < f || i > k {
          assert Slot(m, i) == Slot(masks, i);
        } else {
          assert Slot(m, i - 1) == Slot(masks, i);
        }
      }
    } else {
      var last := Slot(masks, n - 1);
      assert last in Members(masks, n) - {ea};
      forall i | 0 <= i < n - 1 ensures Slot(m, i) != last {
        assert Slot(m, i) == Shifted(masks, f, k, blend, i);
      }
    }
  }

  /** Three different masks added to an empty list: the second is lost, and a mask of zeros is let through. */
  lemma ThirdMaskOverwrites(a: Mac, b: Mac, c: Mac, masks: seq<byte>)
    requires |masks| == 192 && (forall i :: 0 <= i < 192 ==> masks[i] == 0)
    requires |a| == |b| == |c| == 6 && a != b && a != c && b != c
    ensures var first := Add(masks, 0, a);
            first.Done? && first.n == 1 && Members(first.masks, 1) == {a}
    ensures var second := Add(Add(masks, 0, a).masks, 1, b);
            second.Done? && second.n == 2 && Members(second.masks, 2) == {a, b}
    ensures var third := Add(Add(Add(masks, 0, a).masks, 1, b).masks, 2, c);
            third.Done? && third.n == 3 && Members(third.masks, 3) == {a, c, [0, 0, 0, 0, 0, 0]}
  {
    var m1 := Splice(masks, 0, a);
    var m2 := Splice(m1, 6, b);
    var m3 := Splice(m2, 6, c);
    Slots(masks, 0, a);
    Slots(m1, 1, b);
    Slots(m2, 1, c);
    assert Slot(masks, 2) == [0, 0, 0, 0, 0, 0];
    hide Slot, Splice;
    assert Add(masks, 0, a) == Done(m1, 1) by {
      assert Find(masks, 0, a, 0) == 0;
    }
    assert Members(m1, 1) == {a} by {
      MembersThree(m1, 1);
    }
    assert Find(m1, 1, b, 0) == 1;
    assert Add(m1, 1, b) == Done(m2, 2);
    assert Members(m2, 2) == {a, b} by {
      MembersThree(m2, 2);
    }
    assert Find(m2, 2, c, 0) == 1;
    assert Add(m2, 2, c) == Done(m3, 3);
    assert Members(m3, 3) == {a, c, [0, 0, 0, 0, 0, 0]} by {
      MembersThree(m3, 3);
    }
  }

  lemma Slots(masks: seq<byte>, c: int, ea: Mac)
    requires |masks| == 192 && 0 <= c < 32 && |ea| == 6
    ensures forall i :: 0 <= i < 32 ==> Slot(Splice(masks, 6 * c, ea), i) == if i == c then ea else Slot(masks, i)
  {
    hide Splice, Slot;
    forall i | 0 <= i < 32 ensures Slot(Splice(masks, 6 * c, ea), i) == if i == c then ea else Slot(masks, i) {
      SplicedSlot(masks, c, ea, i);
    }
  }

  lemma MembersThree(m: seq<byte>, n: int)
    ensures n == 1 ==> Members(m, n) == {Slot(m, 0)}
    ensures n == 2 ==> Members(m, n) == {Slot(m, 0), Slot(m, 1)}
    ensures n == 3 ==> Members(m, n) == {Slot(m, 0), Slot(m, 1), Slot(m, 2)}
  {
    hide Slot;
  }

  // ----- By the bytes of the list -----

  /** A pointer that starts at the list, goes on by six and stays below as many bytes as there are masks, finds the
      address at p. */
  predicate FoundAt(masks: seq<byte>, n: int, ea: Mac, p: int) {
    && 0 <= p < n && p % 6 == 0 && p + 6 <= |masks| && masks[p..p + 6] == ea
    && forall q :: 0 <= q < p && q % 6 == 0 ==> masks[q..q + 6] != ea
  }

  lemma FindBytes(masks: seq<byte>, n: int, ea: Mac)
    requires Sound(masks, n)
    ensures var f := Find(masks, n, ea, 0);
            if 6 * f < n then FoundAt(masks, n, ea, 6 * f)
            else n <= 6 * f < n + 6 && forall p :: 0 <= p < n && p % 6 == 0 ==> masks[p..p + 6] != ea
  {
    var f := Find(masks, n, ea, 0);
    assert 6 * f < n <==> f < Scanned(n);
    forall q | 0 <= q < 6 * f && q < n && q % 6 == 0 ensures masks[q..q + 6] != ea {
      assert Slot(masks, q / 6) != ea;
    }
  }

  /** An addition: nothing if the address is found, refused if there are 32 masks, and else the address is put where the
      pointer stopped. */
  lemma AddBytes(masks: seq<byte>, n: int, ea: Mac, p: int)
    requires Sound(masks, n) && |ea| == 6 && p % 6 == 0
    ensures FoundAt(masks, n, ea, p) ==> Add(masks, n, ea) == Done(masks, n)
    ensures (forall q :: 0 <= q < n && q % 6 == 0 ==> masks[q..q + 6] != ea) && n <= p < n + 6 ==>
              if n >= 32 then Add(masks, n, ea) == Full
              else Add(masks, n, ea) == Done(masks[..p] + ea + masks[p + 6..], n + 1)
  {
    FindBytes(masks, n, ea);
    var f := Find(masks, n, ea, 0);
    assert 6 * f < n <==> f < Scanned(n);
    assert f >= Scanned(n) ==> f == Scanned(n);
    hide Find, Scanned;
    if FoundAt(masks, n, ea, p) {
      assert 6 * f < n;
    } else if (forall q :: 0 <= q < n && q % 6 == 0 ==> masks[q..q + 6] != ea) && n <= p < n + 6 {
      assert p == 6 * f;
    }
  }

  /** A removal: nothing if the address is not found, a move of a negative length if it is found at p and there are
      fewer than p + 6 masks, and else as many bytes as there are masks, less p + 6, move down by six. */
  lemma RemoveBytes(masks: seq<byte>, n: int, ea: Mac, p: int)
    requires Sound(masks, n)
    ensures (forall q :: 0 <= q < n && q % 6 == 0 ==> masks[q..q + 6] != ea) ==> Remove(masks, n, ea) == Done(masks, n)
    ensures FoundAt(masks, n, ea, p) ==>
              if n < p + 6 then Remove(masks, n, ea) == Undefined
              else Remove(masks, n, ea) == Done(masks[..p] + masks[p + 6..n] + masks[n - 6..], n - 1)
  {
    FindBytes(masks, n, ea);
    var f := Find(masks, n, ea, 0);
    assert 6 * f < n <==> f < Scanned(n);
    hide Find, Scanned;
    if FoundAt(masks, n, ea, p) {
      assert 6 * f < n && FoundAt(masks, n, ea, 6 * f);
      assert p == 6 * f;
    }
  }
}
