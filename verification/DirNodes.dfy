/** Directory tree nodes of the ISO-9660 reader, linked by parent, next-sibling and first-child
    pointers, and the forests those pointers stand for. */
module DirNodes {

  /** One set of counters: directories, files, symbolic links, used sectors, bytes. */
  datatype Counts = Counts(dirs: int, files: int, links: int, sectors: int, space: int)

  class Dir {
    var parent: Dir?
    var next: Dir?
    var child: Dir?
    var fileList: Dir?
    var pathTblId: nat
    var extent: nat
    var cur: Counts
    var tot: Counts

    /** A zeroed node. */
    constructor ()
      ensures parent == null && next == null && child == null && fileList == null
      ensures pathTblId == 0 && extent == 0
      ensures cur == Counts(0, 0, 0, 0, 0) && tot == Counts(0, 0, 0, 0, 0)
    {
      parent, next, child, fileList := null, null, null, null;
      pathTblId, extent := 0, 0;
      cur, tot := Counts(0, 0, 0, 0, 0), Counts(0, 0, 0, 0, 0);
    }
  }

  /** A list of sibling directories, each with the list of its children. */
  datatype Forest = Nil | Cons(dir: Dir, kids: Forest, rest: Forest)

  ghost function Dirs(f: Forest): set<Dir> {
    match f
    case Nil => {}
    case Cons(d, kids, rest) => {d} + Dirs(kids) + Dirs(rest)
  }

  /** The pointers from `first` on, under `parent`, represent f. */
  ghost predicate Shape(f: Forest, parent: Dir, first: Dir?)
    reads Dirs(f)`parent, Dirs(f)`next, Dirs(f)`child
  {
    match f
    case Nil => first == null
    case Cons(d, kids, rest) =>
      first == d && d.parent == parent && Shape(kids, d, d.child) && Shape(rest, parent, d.next)
  }

  /** Every directory before its descendants, those before its later siblings. */
  ghost function Preorder(f: Forest): seq<Dir> {
    match f
    case Nil => []
    case Cons(d, kids, rest) => [d] + Preorder(kids) + Preorder(rest)
  }

  lemma PreorderDirs(f: Forest, d: Dir)
    ensures d in Preorder(f) <==> d in Dirs(f)
  {
  }

  ghost predicate NoDuplicates<T>(s: seq<T>) {
    forall i, j :: 0 <= i < j < |s| ==> s[i] != s[j]
  }

  lemma JoinOnce<T>(x: T, a: seq<T>, b: seq<T>)
    requires NoDuplicates(a) && NoDuplicates(b)
    requires x !in a && x !in b && forall i, j :: 0 <= i < |a| && 0 <= j < |b| ==> a[i] != b[j]
    ensures NoDuplicates([x] + a + b)
  {
    var s := [x] + a + b;
    forall i, j | 0 <= i < j < |s| ensures s[i] != s[j] {
      if i == 0 {
        assert s[j] in a || s[j] in b;
      }
      assert i > 0 ==> s[i] == if i <= |a| then a[i - 1] else b[i - 1 - |a|];
      assert s[j] == if j <= |a| then a[j - 1] else b[j - 1 - |a|];
    }
  }

  // ----- Linked directories occur once -----

  ghost function Size(f: Forest): nat {
    match f
    case Nil => 0
    case Cons(_, kids, rest) => 1 + Size(kids) + Size(rest)
  }

  /** The siblings of x from x on. */
  ghost function From(f: Forest, x: Dir): (r: Forest)
    requires x in Dirs(f)
    ensures r.Cons? && r.dir == x && Dirs(r) <= Dirs(f) && Size(r) <= Size(f)
  {
    if x == f.dir then f
    else if x in Dirs(f.kids) then From(f.kids, x)
    else From(f.rest, x)
  }

  lemma FromShape(f: Forest, parent: Dir, first: Dir?, x: Dir)
    requires Shape(f, parent, first) && x in Dirs(f)
    ensures x.parent != null && Shape(From(f, x), x.parent, x)
    ensures x.parent == parent || x.parent in Dirs(f)
  {
    if x != f.dir {
      if x in Dirs(f.kids) {
        FromShape(f.kids, f.dir, f.dir.child, x);
      } else {
        FromShape(f.rest, parent, f.dir.next, x);
      }
    }
  }

  /** The pointers determine the forest. */
  lemma Determined(f: Forest, p: Dir, g: Forest, q: Dir, first: Dir?)
    requires Shape(f, p, first) && Shape(g, q, first)
    ensures f == g
  {
    if f.Cons? {
      Determined(f.kids, f.dir, g.kids, g.dir, f.dir.child);
      Determined(f.rest, p, g.rest, q, f.dir.next);
    }
  }

  lemma HeadOccursOnce(f: Forest, parent: Dir, first: Dir?)
    requires Shape(f, parent, first) && f.Cons?
    ensures f.dir !in Dirs(f.kids) && f.dir !in Dirs(f.rest)
  {
    var d := f.dir;
    if d in Dirs(f.kids) {
      FromShape(f.kids, d, d.child, d);
      Determined(f, parent, From(f.kids, d), d.parent, d);
    }
    if d in Dirs(f.rest) {
      FromShape(f.rest, parent, d.next, d);
      Determined(f, parent, From(f.rest, d), d.parent, d);
    }
  }

  /** Forests under different directories share nothing unless one holds the other's parent. */
  lemma {:induction false} Apart(f: Forest, p: Dir, first: Dir?, g: Forest, q: Dir, first': Dir?)
    requires Shape(f, p, first) && Shape(g, q, first')
    requires p != q && p !in Dirs(g) && q !in Dirs(f)
    ensures Dirs(f) !! Dirs(g)
  {
    if f.Cons? {
      if f.dir in Dirs(g) {
        FromShape(g, q, first', f.dir);
        assert false;
      }
      Apart(f.kids, f.dir, f.dir.child, g, q, first');
      Apart(f.rest, p, f.dir.next, g, q, first');
    }
  }

  /** So a walk meets every directory exactly once. */
  lemma {:induction false} PreorderOnce(f: Forest, parent: Dir, first: Dir?)
    requires Shape(f, parent, first) && parent !in Dirs(f)
    ensures NoDuplicates(Preorder(f))
    ensures f.Cons? ==> Dirs(f.kids) !! Dirs(f.rest) && f.dir !in Dirs(f.kids) && f.dir !in Dirs(f.rest)
  {
    if f.Cons? {
      var d, kids, rest := f.dir, f.kids, f.rest;
      HeadOccursOnce(f, parent, first);
      Apart(kids, d, d.child, rest, parent, d.next);
      PreorderOnce(kids, d, d.child);
      PreorderOnce(rest, parent, d.next);
      PreorderDirs(kids, d);
      PreorderDirs(rest, d);
      forall i, j | 0 <= i < |Preorder(kids)| && 0 <= j < |Preorder(rest)|
        ensures Preorder(kids)[i] != Preorder(rest)[j]
      {
        PreorderDirs(kids, Preorder(kids)[i]);
        PreorderDirs(rest, Preorder(rest)[j]);
      }
      JoinOnce(d, Preorder(kids), Preorder(rest));
    }
  }
}
