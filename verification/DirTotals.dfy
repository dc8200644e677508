/** The bottom-up statistics pass over a directory tree. */
module DirTotals {
  import opened DirNodes

  datatype Kind = Directories | Files | Links | Sectors | Space

  function Get(c: Counts, k: Kind): int {
    match k
    case Directories => c.dirs
    case Files => c.files
    case Links => c.links
    case Sectors => c.sectors
    case Space => c.space
  }

  /** The counters are 32 bits wide, but the space has 64. */
  function Modulus(k: Kind): (m: int)
    ensures m > 0
  {
    if k == Space then 0x1_0000_0000_0000_0000 else 0x1_0000_0000
  }

  /** The current counts of every directory. */
  type Own = map<Dir, Counts>

  ghost function Of(own: Own, k: Kind, d: Dir): int {
    if d in own then Get(own[d], k) else 0
  }

  /** What sibling directories pass up to their parent: each passes its own count and what its
      children pass up, but of the links only its own. */
  ghost function PassedBy(own: Own, k: Kind, f: Forest): int {
    match f
    case Nil => 0
    case Cons(d, kids, rest) =>
      Of(own, k, d) + (if k == Links then 0 else PassedBy(own, k, kids)) + PassedBy(own, k, rest)
  }

  ghost function Passed(own: Own, k: Kind, d: Dir, kids: Forest): int {
    Of(own, k, d) + if k == Links then 0 else PassedBy(own, k, kids)
  }

  ghost function Total(own: Own, k: Kind, d: Dir, kids: Forest): int {
    Of(own, k, d) + PassedBy(own, k, kids)
  }

  // ----- The pass -----

  ghost function Kids(f: Forest, x: Dir): Forest
    requires x in Dirs(f)
  {
    From(f, x).kids
  }

  /** What the children in `done` pass up. */
  ghost function PassedSoFar(own: Own, k: Kind, f: Forest, done: set<Dir>): int
    decreases f
  {
    match f
    case Nil => 0
    case Cons(d, kids, rest) =>
      (if d in done then Passed(own, k, d, kids) else 0) + PassedSoFar(own, k, rest, done)
  }

  ghost predicate IsSibling(f: Forest, x: Dir) {
    f.Cons? && (x == f.dir || IsSibling(f.rest, x))
  }

  lemma PassedByAll(own: Own, k: Kind, f: Forest, done: set<Dir>)
    requires Dirs(f) <= done
    ensures PassedSoFar(own, k, f, done) == PassedBy(own, k, f)
  {
  }

  lemma {:induction false} PassedByNone(own: Own, k: Kind, f: Forest)
    ensures PassedSoFar(own, k, f, {}) == 0
  {
    if f.Cons? {
      PassedByNone(own, k, f.rest);
    }
  }

  /** Nothing changes for the siblings when d is not one of them. */
  lemma PassedElsewhere(own: Own, k: Kind, f: Forest, done: set<Dir>, d: Dir)
    requires !IsSibling(f, d)
    ensures PassedSoFar(own, k, f, done + {d}) == PassedSoFar(own, k, f, done)
  {
  }

  lemma SiblingParent(f: Forest, parent: Dir, first: Dir?, d: Dir)
    requires Shape(f, parent, first) && IsSibling(f, d)
    ensures d in Dirs(f) && d.parent == parent
  {
  }

  /** One more child done adds what that child passes up. */
  lemma {:induction false} PassedHere(own: Own, k: Kind, f: Forest, parent: Dir, first: Dir?, done: set<Dir>, d: Dir)
    requires Shape(f, parent, first) && parent !in Dirs(f) && IsSibling(f, d) && d !in done
    ensures d in Dirs(f)
    ensures PassedSoFar(own, k, f, done + {d}) == PassedSoFar(own, k, f, done) + Passed(own, k, d, Kids(f, d))
  {
    PreorderOnce(f, parent, first);
    SiblingParent(f, parent, first, d);
    var rest := f.rest;
    if d == f.dir {
      if IsSibling(rest, d) {
        SiblingParent(rest, parent, d.next, d);
        assert false;
      }
      PassedElsewhere(own, k, rest, done, d);
    } else {
      SiblingParent(rest, parent, f.dir.next, d);
      PassedHere(own, k, rest, parent, f.dir.next, done, d);
    }
  }

  /** A linked directory is a child of its parent. */
  lemma {:induction false} ChildOfParent(f: Forest, parent: Dir, first: Dir?, x: Dir)
    requires Shape(f, parent, first) && parent !in Dirs(f) && x in Dirs(f)
    ensures x.parent == parent ==> IsSibling(f, x)
    ensures x.parent != parent ==> x.parent in Dirs(f) && IsSibling(Kids(f, x.parent), x)
  {
    PreorderOnce(f, parent, first);
    FromShape(f, parent, first, x);
    var d := f.dir;
    if x in Dirs(f.kids) {
      FromShape(f.kids, d, d.child, x);
      ChildOfParent(f.kids, d, d.child, x);
    } else if x in Dirs(f.rest) {
      FromShape(f.rest, parent, d.next, x);
      ChildOfParent(f.rest, parent, d.next, x);
    }
  }

  /** In preorder, everything below a directory comes after it. */
  lemma {:induction false} KidsComeLater(f: Forest, parent: Dir, first: Dir?, i: nat, y: Dir)
    requires Shape(f, parent, first) && parent !in Dirs(f)
    requires i < |Preorder(f)| && Preorder(f)[i] in Dirs(f) && y in Dirs(Kids(f, Preorder(f)[i]))
    ensures y in Preorder(f)[i + 1..]
  {
    PreorderOnce(f, parent, first);
    var d, kids, rest, x := f.dir, f.kids, f.rest, Preorder(f)[i];
    var a, b := Preorder(kids), Preorder(rest);
    assert Preorder(f) == [d] + a + b;
    if i == 0 {
      PreorderDirs(kids, y);
      assert Preorder(f)[1..] == a + b;
    } else if i <= |a| {
      PreorderDirs(kids, x);
      assert x == a[i - 1];
      KidsComeLater(kids, d, d.child, i - 1, y);
      assert Preorder(f)[i + 1..] == a[i..] + b;
    } else {
      PreorderDirs(rest, x);
      assert x == b[i - 1 - |a|];
      KidsComeLater(rest, parent, d.next, i - 1 - |a|, y);
      assert Preorder(f)[i + 1..] == b[i - |a|..];
    }
  }
}
