/** What the totals of the statistics pass mean, in terms of the directories of a subtree. */
module DirMeaning {
  import opened DirNodes
  import opened DirTotals

  ghost function SumOver(own: Own, k: Kind, s: seq<Dir>): int {
    if s == [] then 0 else Of(own, k, s[0]) + SumOver(own, k, s[1..])
  }

  ghost function Siblings(f: Forest): seq<Dir> {
    match f
    case Nil => []
    case Cons(d, _, rest) => [d] + Siblings(rest)
  }

  /** Everything below the siblings themselves. */
  ghost function Deeper(f: Forest): seq<Dir> {
    match f
    case Nil => []
    case Cons(_, kids, rest) => Preorder(kids) + Deeper(rest)
  }

  lemma {:induction false} SumOverJoin(own: Own, k: Kind, a: seq<Dir>, b: seq<Dir>)
    ensures SumOver(own, k, a + b) == SumOver(own, k, a) + SumOver(own, k, b)
  {
    if a == [] {
      assert a + b == b;
    } else {
      SumOverJoin(own, k, a[1..], b);
      assert (a + b)[1..] == a[1..] + b;
    }
  }

  lemma {:induction false} PassedBySum(own: Own, k: Kind, f: Forest)
    ensures PassedBy(own, k, f) == SumOver(own, k, if k == Links then Siblings(f) else Preorder(f))
  {
    if f.Cons? {
      PassedBySum(own, k, f.kids);
      PassedBySum(own, k, f.rest);
      SumOverJoin(own, k, [f.dir], Siblings(f.rest));
      SumOverJoin(own, k, [f.dir] + Preorder(f.kids), Preorder(f.rest));
      SumOverJoin(own, k, [f.dir], Preorder(f.kids));
    }
  }

  /** The totals of directories, files, sectors and space are sums over the whole subtree. */
  lemma SubtreeTotal(own: Own, k: Kind, d: Dir, kids: Forest)
    requires k != Links
    ensures Total(own, k, d, kids) == SumOver(own, k, [d] + Preorder(kids))
  {
    PassedBySum(own, k, kids);
    SumOverJoin(own, k, [d], Preorder(kids));
  }

  /** The total of links is the directory's own count plus its children's own counts. */
  lemma LinkTotal(own: Own, d: Dir, kids: Forest)
    ensures Total(own, Links, d, kids) == SumOver(own, Links, [d] + Siblings(kids))
  {
    PassedBySum(own, Links, kids);
    SumOverJoin(own, Links, [d], Siblings(kids));
  }

  lemma {:induction false} SplitByDepth(own: Own, k: Kind, f: Forest)
    ensures SumOver(own, k, Preorder(f)) == SumOver(own, k, Siblings(f)) + SumOver(own, k, Deeper(f))
  {
    if f.Cons? {
      SplitByDepth(own, k, f.rest);
      SumOverJoin(own, k, [f.dir], Siblings(f.rest));
      SumOverJoin(own, k, Preorder(f.kids), Deeper(f.rest));
      SumOverJoin(own, k, [f.dir] + Preorder(f.kids), Preorder(f.rest));
      SumOverJoin(own, k, [f.dir], Preorder(f.kids));
    }
  }

  lemma {:induction false} ZeroSum(own: Own, k: Kind, s: seq<Dir>)
    requires forall i :: 0 <= i < |s| ==> Of(own, k, s[i]) >= 0
    ensures SumOver(own, k, s) >= 0
    ensures SumOver(own, k, s) == 0 <==> forall i :: 0 <= i < |s| ==> Of(own, k, s[i]) == 0
  {
    if s != [] {
      ZeroSum(own, k, s[1..]);
      assert forall i :: 1 <= i < |s| ==> s[i] == s[1..][i - 1];
      if SumOver(own, k, s) == 0 {
        forall i | 0 <= i < |s| ensures Of(own, k, s[i]) == 0 {
          if i > 0 {
            assert s[i] == s[1..][i - 1];
          }
        }
      }
    }
  }

  /** The link total is the subtree's sum exactly when no directory two or more levels down has
      links of its own. */
  lemma LinkTotalWhenRight(own: Own, d: Dir, kids: Forest)
    requires forall x | x in own :: own[x].links >= 0
    ensures Total(own, Links, d, kids) == SumOver(own, Links, [d] + Preorder(kids))
       <==> forall i :: 0 <= i < |Deeper(kids)| ==> Of(own, Links, Deeper(kids)[i]) == 0
  {
    LinkTotal(own, d, kids);
    SplitByDepth(own, Links, kids);
    SumOverJoin(own, Links, [d], Preorder(kids));
    SumOverJoin(own, Links, [d], Siblings(kids));
    ZeroSum(own, Links, Deeper(kids));
  }

  /** In pointers: the deeper directories are those whose parent is not d. */
  lemma {:induction false} DeeperParent(kids: Forest, d: Dir, first: Dir?, x: Dir)
    requires Shape(kids, d, first) && d !in Dirs(kids) && x in Dirs(kids)
    ensures x in Deeper(kids) <==> x.parent != d
  {
    PreorderOnce(kids, d, first);
    var c := kids.dir;
    PreorderDirs(kids.kids, x);
    if x in Dirs(kids.kids) {
      FromShape(kids.kids, c, c.child, x);
    }
    if x in Dirs(kids.rest) {
      DeeperParent(kids.rest, d, c.next, x);
    } else {
      DeeperDirs(kids.rest, x);
    }
  }

  lemma DeeperDirs(f: Forest, x: Dir)
    ensures x in Deeper(f) ==> x in Dirs(f)
  {
    if f.Cons? {
      PreorderDirs(f.kids, x);
      DeeperDirs(f.rest, x);
    }
  }

  /** The sum of one counter over directories. */
  ghost function Sum(own: Own, count: Counts -> int, s: seq<Dir>): int {
    if s == [] then 0 else (if s[0] in own then count(own[s[0]]) else 0) + Sum(own, count, s[1..])
  }

  lemma {:induction false} SumIs(own: Own, k: Kind, count: Counts -> int, s: seq<Dir>)
    requires forall c :: count(c) == Get(c, k)
    ensures SumOver(own, k, s) == Sum(own, count, s)
  {
    if s != [] {
      SumIs(own, k, count, s[1..]);
    }
  }

  /** Totals counter by counter, in their widths: sums over the directory and everything below it, and of the links
      over the directory and its children. */
  ghost predicate Sums(tot: Counts, own: Own, d: Dir, kids: Forest) {
    var all, near := [d] + Preorder(kids), [d] + Siblings(kids);
    && tot.dirs == Sum(own, (c: Counts) => c.dirs, all) % 0x1_0000_0000
    && tot.files == Sum(own, (c: Counts) => c.files, all) % 0x1_0000_0000
    && tot.links == Sum(own, (c: Counts) => c.links, near) % 0x1_0000_0000
    && tot.sectors == Sum(own, (c: Counts) => c.sectors, all) % 0x1_0000_0000
    && tot.space == Sum(own, (c: Counts) => c.space, all) % 0x1_0000_0000_0000_0000
  }

  lemma TotalsInFull(tot: Counts, own: Own, d: Dir, kids: Forest)
    requires forall k :: Get(tot, k) == Total(own, k, d, kids) % Modulus(k)
    ensures Sums(tot, own, d, kids)
  {
    var all := [d] + Preorder(kids);
    SubtreeTotal(own, Directories, d, kids);
    SumIs(own, Directories, (c: Counts) => c.dirs, all);
    SubtreeTotal(own, Files, d, kids);
    SumIs(own, Files, (c: Counts) => c.files, all);
    LinkTotal(own, d, kids);
    SumIs(own, Links, (c: Counts) => c.links, [d] + Siblings(kids));
    SubtreeTotal(own, Sectors, d, kids);
    SumIs(own, Sectors, (c: Counts) => c.sectors, all);
    SubtreeTotal(own, Space, d, kids);
    SumIs(own, Space, (c: Counts) => c.space, all);
    hide Total, SumOver, Sum, Preorder, Siblings;
    assert Get(tot, Directories) == tot.dirs && Get(tot, Files) == tot.files && Get(tot, Links) == tot.links;
    assert Get(tot, Sectors) == tot.sectors && Get(tot, Space) == tot.space;
  }

  /** A link two levels down is missing from the total at the top. */
  lemma LinkTotalMissesGrandchild(a: Dir, b: Dir, c: Dir, own: Own)
    requires a != b && b != c && a != c
    requires own == map[a := Counts(1, 0, 0, 0, 0), b := Counts(1, 0, 0, 0, 0), c := Counts(0, 0, 1, 0, 0)]
    ensures Total(own, Links, a, Cons(b, Cons(c, Nil, Nil), Nil)) == 0
    ensures SumOver(own, Links, [a] + Preorder(Cons(b, Cons(c, Nil, Nil), Nil))) == 1
  {
    var below := Cons(c, Nil, Nil);
    assert Preorder(below) == [c];
    assert Preorder(Cons(b, below, Nil)) == [b, c];
    assert [a] + Preorder(Cons(b, below, Nil)) == [a, b, c];
    assert SumOver(own, Links, [c]) == 1;
    assert SumOver(own, Links, [b, c]) == 1;
    assert PassedBy(own, Links, Cons(b, below, Nil)) == 0;
  }
}
