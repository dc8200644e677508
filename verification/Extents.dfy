/** Where the partitions of a disk lie, whatever the kind of table, and what one more of them does. */
module Extents {

  /** Sectors start to end, the end not included; an entry not in use holds none. */
  datatype Extent = Extent(live: bool, start: int, end: int)

  predicate Apart(a: Extent, b: Extent) {
    !a.live || !b.live || a.end <= b.start || b.end <= a.start
  }

  predicate Disjoint(es: seq<Extent>) {
    forall i, j :: 0 <= i < j < |es| ==> Apart(es[i], es[j])
  }

  /** The partitions in use lie between the first mebibyte and the end of the usable area. */
  predicate Inside(es: seq<Extent>, limit: int) {
    forall i :: 0 <= i < |es| && es[i].live ==> 2048 <= es[i].start < es[i].end <= limit
  }

  /** None but the first begins before the first one ends. */
  predicate FirstIsFirst(es: seq<Extent>) {
    es != [] && forall i :: 0 < i < |es| && es[i].live ==> es[0].end <= es[i].start
  }

  /** The least start behind the first entry, or the limit. */
  function NextStart(es: seq<Extent>, limit: int): (r: int)
    ensures r <= limit
    ensures forall i :: 0 < i < |es| && es[i].live ==> r <= es[i].start
    ensures r == limit || exists i :: 0 < i < |es| && es[i].live && es[i].start == r
  {
    if |es| <= 1 then limit
    else
      var last := es[|es| - 1];
      var r := NextStart(es[..|es| - 1], limit);
      if last.live && last.start < r then last.start else r
  }

  /** The entries in use, in table order. */
  function Live(es: seq<Extent>): seq<Extent> {
    if es == [] then [] else (if es[0].live then [es[0]] else []) + Live(es[1..])
  }

  lemma LiveFirst(e: Extent, es: seq<Extent>)
    ensures Live([]) == [] && Live([e] + es) == (if e.live then [e] else []) + Live(es)
  {
    assert ([e] + es)[1..] == es;
  }

  lemma {:induction false} LiveJoin(a: seq<Extent>, b: seq<Extent>)
    ensures Live(a + b) == Live(a) + Live(b)
  {
    hide Live;
    if a == [] {
      assert a + b == b;
      LiveFirst(Extent(false, 0, 0), []);
    } else {
      var e, es := a[0], a[1..];
      LiveJoin(es, b);
      LiveFirst(e, es);
      LiveFirst(e, es + b);
      assert a == [e] + es && a + b == [e] + (es + b);
      var first := if e.live then [e] else [];
      assert first + (Live(es) + Live(b)) == first + Live(es) + Live(b);
    }
  }

  /** The first entry ends at p, the new one follows, and the old ones move up into the free place f. */
  function Inserted(es: seq<Extent>, f: int, p: int, n: int): seq<Extent>
    requires 0 < f < |es|
  {
    [es[0].(end := p), Extent(true, p, p + n)] + es[1..f] + es[f + 1..]
  }

  /** An entry of the new table is one of the two changed ones or an old one. */
  lemma InsertedAt(es: seq<Extent>, f: int, p: int, n: int, i: int) returns (k: int)
    requires 0 < f < |es| && 2 <= i < |es|
    ensures |Inserted(es, f, p, n)| == |es|
    ensures k == (if i <= f then i - 1 else i) && 0 < k < |es| && Inserted(es, f, p, n)[i] == es[k] && k != f
  {
    k := if i <= f then i - 1 else i;
  }

  lemma NextFree(es: seq<Extent>, limit: int, i: int, p: int, n: int)
    requires 0 < i < |es| && es[i].live && p + n <= NextStart(es, limit)
    ensures p + n <= es[i].start
  {
  }

  /** A place between the start of the first partition and the next one is used without touching another, whether the
      first one grows or shrinks: the partitions stay disjoint and inside, and the others as they were, in order. */
  lemma InsertKeeps(es: seq<Extent>, limit: int, f: int, p: int, n: int)
    requires 0 < f < |es| && !es[f].live && es[0].live && n > 0
    requires Disjoint(es) && Inside(es, limit)
    requires es[0].start < p && p + n <= NextStart(es, limit)
    ensures Disjoint(Inserted(es, f, p, n)) && Inside(Inserted(es, f, p, n), limit)
    ensures Live(Inserted(es, f, p, n)[2..]) == Live(es[1..])
  {
    InsertDisjoint(es, limit, f, p, n);
    InsertInside(es, limit, f, p, n);
    InsertOrder(es, f, p, n);
  }

  lemma InsertDisjoint(es: seq<Extent>, limit: int, f: int, p: int, n: int)
    requires 0 < f < |es| && !es[f].live && es[0].live && n > 0
    requires Disjoint(es) && p + n <= NextStart(es, limit)
    ensures Disjoint(Inserted(es, f, p, n))
  {
    var es' := Inserted(es, f, p, n);
    forall i, j | 0 <= i < j < |es'| ensures Apart(es'[i], es'[j]) {
      hide Inserted, NextStart;
      if j >= 2 {
        var l := InsertedAt(es, f, p, n, j);
        if i >= 2 {
          var k := InsertedAt(es, f, p, n, i);
          assert k < l;
        } else if es[l].live {
          NextFree(es, limit, l, p, n);
          FirstTwo(es, f, p, n);
        }
      } else {
        FirstTwo(es, f, p, n);
      }
    }
  }

  lemma FirstTwo(es: seq<Extent>, f: int, p: int, n: int)
    requires 0 < f < |es|
    ensures |Inserted(es, f, p, n)| == |es| >= 2
    ensures Inserted(es, f, p, n)[0] == es[0].(end := p) && Inserted(es, f, p, n)[1] == Extent(true, p, p + n)
  {
  }

  lemma InsertInside(es: seq<Extent>, limit: int, f: int, p: int, n: int)
    requires 0 < f < |es| && es[0].live && n > 0
    requires Inside(es, limit)
    requires es[0].start < p && p + n <= NextStart(es, limit)
    ensures Inside(Inserted(es, f, p, n), limit)
  {
    var es' := Inserted(es, f, p, n);
    forall i | 0 <= i < |es'| && es'[i].live ensures 2048 <= es'[i].start < es'[i].end <= limit {
      hide Inserted;
      FirstTwo(es, f, p, n);
      if i >= 2 {
        var k := InsertedAt(es, f, p, n, i);
      }
    }
  }

  lemma InsertOrder(es: seq<Extent>, f: int, p: int, n: int)
    requires 0 < f < |es| && !es[f].live
    ensures Live(Inserted(es, f, p, n)[2..]) == Live(es[1..])
  {
    assert Inserted(es, f, p, n)[2..] == es[1..f] + es[f + 1..];
    assert es[1..] == es[1..f] + ([es[f]] + es[f + 1..]);
    LiveJoin(es[1..f], es[f + 1..]);
    LiveJoin(es[1..f], [es[f]] + es[f + 1..]);
    LiveJoin([es[f]], es[f + 1..]);
    assert Live([es[f]]) == [];
  }
}
