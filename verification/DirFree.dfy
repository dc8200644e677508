/** Releasing a directory tree. */
module DirFree {
  import opened DirNodes
  import opened DirStat
  import opened DirWalk

  /** The file nodes linked from first on. */
  ghost predicate FileChain(first: Dir?, files: seq<Dir>)
    reads files
  {
    if files == [] then first == null else first == files[0] && FileChain(files[0].next, files[1..])
  }

  type Files = map<Dir, seq<Dir>>

  ghost function FilesOf(files: Files, d: Dir): seq<Dir> {
    if d in files then files[d] else []
  }

  ghost function AllFiles(files: Files): (all: set<Dir>)
    ensures forall d | d in files :: forall i | 0 <= i < |files[d]| :: files[d][i] in all
  {
    set d, i | d in files && 0 <= i < |files[d]| :: files[d][i]
  }

  /** The files of the directories of a tree. */
  ghost function TreeFiles(files: Files, root: Dir, kids: Forest): set<Dir> {
    set d, i | d in Dirs(Whole(root, kids)) && 0 <= i < |FilesOf(files, d)| :: FilesOf(files, d)[i]
  }

  /** Every directory's file list hangs under it: a chain of nodes that name it as their parent and are no
      directories. */
  ghost predicate Filed(files: Files, root: Dir, kids: Forest)
    reads Dirs(Whole(root, kids)), AllFiles(files)
  {
    forall d | d in Dirs(Whole(root, kids)) ::
      && FileChain(d.fileList, FilesOf(files, d))
      && forall x | x in FilesOf(files, d) :: x.parent == d && x !in Dirs(Whole(root, kids))
  }

  /** Directories from position n on, last first, each after its files. */
  ghost function Release(files: Files, order: seq<Dir>, n: nat): seq<Dir>
    decreases |order| - n
  {
    if n >= |order| then [] else Release(files, order, n + 1) + FilesOf(files, order[n]) + [order[n]]
  }

  /** Everything but the root itself, which is not allocated on its own. */
  ghost function ReleaseAll(files: Files, root: Dir, kids: Forest): seq<Dir> {
    Release(files, Preorder(kids), 0) + FilesOf(files, root)
  }

  /** free: what is freed must not have been freed before. */
  method Free(freed: seq<Dir>, d: Dir) returns (freed': seq<Dir>)
    requires d !in freed
    ensures freed' == freed + [d]
  {
    freed' := freed + [d];
  }

  /** The fields read while nodes are freed, each only of a node that has not been freed. */
  function NextOf(d: Dir, ghost freed: seq<Dir>): Dir?
    requires d !in freed
    reads d`next
  {
    d.next
  }

  function FileListOf(d: Dir, ghost freed: seq<Dir>): Dir?
    requires d !in freed
    reads d`fileList
  {
    d.fileList
  }

  /** Frees a file list; each next pointer is read before its node is freed. */
  method FreeFiles(freed: seq<Dir>, first: Dir?, ghost files: seq<Dir>) returns (freed': seq<Dir>)
    requires FileChain(first, files) && NoDuplicates(freed + files)
    ensures freed' == freed + files
  {
    freed' := freed;
    var pre := first;
    ghost var left := files;
    while pre != null
      invariant FileChain(pre, left) && freed' + left == freed + files
      decreases |left|
    {
      assert left[0] == (freed + files)[|freed'|];
      assert pre !in freed' by {
        forall i | 0 <= i < |freed'| ensures freed'[i] != pre {
          assert freed'[i] == (freed + files)[i];
        }
      }
      var next := NextOf(pre, freed');
      freed' := Free(freed', pre);
      left := left[1..];
      pre := next;
    }
  }

  /** Frees one directory after its files. */
  method FreeDir(freed: seq<Dir>, d: Dir, ghost files: seq<Dir>) returns (freed': seq<Dir>)
    requires FileChain(d.fileList, files) && NoDuplicates(freed + files + [d])
    ensures freed' == freed + files + [d]
  {
    LastIsNew(freed + files, d);
    StillOnce(freed + files, freed + files + [d]);
    freed' := FreeFiles(freed, FileListOf(d, freed), files);
    freed' := Free(freed', d);
  }

  /** Frees every directory but the root, and every file node, each exactly once. Fields of nodes are read through
      NextOf and FileListOf once the first node has been freed, so never of a node that was freed. */
  method FreeDirTree(root: Dir, ghost kids: Forest, ghost files: Files) returns (freed: seq<Dir>)
    requires Rooted(root, kids) && Filed(files, root, kids)
    ensures freed == ReleaseAll(files, root, kids) && NoDuplicates(freed) && root !in freed
    ensures Elements(freed) == Dirs(kids) + TreeFiles(files, root, kids)
  {
    hide Rooted, Filed, FileChain, NoDuplicates, ReleaseAll, Release, FilesOf, Dirs, AllFiles, TreeFiles, Elements;
    AllOnce(files, root, kids);
    AllReleased(files, root, kids);
    ghost var tree :| tree == Dirs(Whole(root, kids)) + AllFiles(files);
    var order := StackOrder(root, kids, files, tree);
    freed := FreeStack(order, root, kids, files);
    RootFiles(files, root, kids, freed);
    freed := FreeFiles(freed, FileListOf(root, freed), FilesOf(files, root));
  }

  /** The directories on the stack, without the root, which is not freed itself. */
  method StackOrder(root: Dir, ghost kids: Forest, ghost files: Files, ghost tree: set<Dir>) returns (order: seq<Dir>)
    requires Rooted(root, kids) && Filed(files, root, kids) && tree == Dirs(Whole(root, kids)) + AllFiles(files)
    ensures order == Preorder(kids) && Filed(files, root, kids)
  {
    RootApart(root, kids);
    assert Shape(kids, root, root.child);
    hide *;
    var stack := FillDfsStack(root, [], kids);
    order := stack[1..];
  }

  lemma RootFiles(files: Files, root: Dir, kids: Forest, freed: seq<Dir>)
    requires Filed(files, root, kids) && freed == Release(files, Preorder(kids), 0)
    requires root !in ReleaseAll(files, root, kids)
    ensures root !in freed && FileChain(root.fileList, FilesOf(files, root))
    ensures freed + FilesOf(files, root) == ReleaseAll(files, root, kids)
  {
    assert root in Dirs(Whole(root, kids));
  }

  /** The directory popped, the files under it, and that none of them has been freed. */
  lemma Popped(root: Dir, kids: Forest, files: Files, n: nat)
    requires Filed(files, root, kids) && NoDuplicates(ReleaseAll(files, root, kids)) && n < |Preorder(kids)|
    ensures var d, freed := Preorder(kids)[n], Release(files, Preorder(kids), n + 1);
            && FileChain(d.fileList, FilesOf(files, d)) && NoDuplicates(freed + FilesOf(files, d) + [d])
            && freed + FilesOf(files, d) + [d] == Release(files, Preorder(kids), n)
  {
    hide NoDuplicates, FilesOf, FileChain, Preorder, Dirs;
    InTree(root, kids, n);
    ReleasedOnce(files, Preorder(kids), n, ReleaseAll(files, root, kids));
  }

  lemma NothingPopped(files: Files, order: seq<Dir>)
    ensures Release(files, order, |order|) == []
  {
  }

  /** Pops and frees directory after directory. */
  method FreeStack(preorder: seq<Dir>, ghost root: Dir, ghost kids: Forest, ghost files: Files)
    returns (freed: seq<Dir>)
    requires Filed(files, root, kids) && NoDuplicates(ReleaseAll(files, root, kids)) && preorder == Preorder(kids)
    ensures freed == Release(files, preorder, 0)
  {
    hide *;
    ghost var tree :| tree == Dirs(Whole(root, kids)) + AllFiles(files);
    var stack := preorder;
    freed := [];
    NothingPopped(files, preorder);
    while stack != []
      invariant stack <= preorder && freed == Release(files, preorder, |stack|) && Filed(files, root, kids)
      decreases |stack|
    {
      var d := stack[|stack| - 1];
      stack := stack[..|stack| - 1];
      assert d == preorder[|stack|];
      Popped(root, kids, files, |stack|);
      freed := FreeDir(freed, d, FilesOf(files, d));
    }
  }

  // ----- Nothing is released twice -----

  lemma {:induction false} ChainFrom(first: Dir?, files: seq<Dir>, i: nat)
    requires FileChain(first, files) && i < |files|
    ensures FileChain(files[i], files[i..])
  {
    if i > 0 {
      ChainFrom(files[0].next, files[1..], i - 1);
      assert files[1..][i - 1..] == files[i..];
    }
  }

  /** The links determine a chain. */
  lemma {:induction false} ChainDetermined(first: Dir?, a: seq<Dir>, b: seq<Dir>)
    requires FileChain(first, a) && FileChain(first, b)
    ensures a == b
  {
    if a != [] {
      ChainDetermined(a[0].next, a[1..], b[1..]);
      assert a == [a[0]] + a[1..] && b == [b[0]] + b[1..];
    }
  }

  /** So a chain that ends meets no node twice. */
  lemma ChainOnce(first: Dir?, files: seq<Dir>)
    requires FileChain(first, files)
    ensures NoDuplicates(files)
  {
    forall i, j | 0 <= i < j < |files| ensures files[i] != files[j] {
      ChainFrom(first, files, i);
      ChainFrom(first, files, j);
      if files[i] == files[j] {
        ChainDetermined(files[i], files[i..], files[j..]);
        assert false;
      }
    }
  }

  lemma AppendOnce(a: seq<Dir>, b: seq<Dir>)
    requires NoDuplicates(a) && NoDuplicates(b) && forall x :: x in b ==> x !in a
    ensures NoDuplicates(a + b)
  {
    var s := a + b;
    forall i, j | 0 <= i < j < |s| ensures s[i] != s[j] {
      assert s[j] in if j < |a| then a else b;
      assert s[i] in if i < |a| then a else b;
    }
  }

  /** Files and directory number n of the order are not among what comes behind them. */
  lemma NewAt(files: Files, root: Dir, kids: Forest, n: nat, x: Dir)
    requires Rooted(root, kids) && Filed(files, root, kids) && n < |Preorder(kids)|
    requires x == Preorder(kids)[n] || x in FilesOf(files, Preorder(kids)[n])
    ensures x !in Release(files, Preorder(kids), n + 1)
  {
    var order := Preorder(kids);
    RootApart(root, kids);
    PreorderOnce(kids, root, root.child);
    Released(files, order, n + 1, x);
    InTree(root, kids, n);
    forall i | n + 1 <= i < |order| ensures x != order[i] && x !in FilesOf(files, order[i]) {
      InTree(root, kids, i);
    }
  }

  lemma InTree(root: Dir, kids: Forest, n: nat)
    requires n < |Preorder(kids)|
    ensures Preorder(kids)[n] in Dirs(kids) && Preorder(kids)[n] in Dirs(Whole(root, kids))
  {
    PreorderDirs(kids, Preorder(kids)[n]);
  }

  lemma {:induction false} ReleaseOnce(files: Files, root: Dir, kids: Forest, n: nat)
    requires Rooted(root, kids) && Filed(files, root, kids)
    ensures NoDuplicates(Release(files, Preorder(kids), n))
    decreases |Preorder(kids)| - n
  {
    var order := Preorder(kids);
    if n < |order| {
      var d, later := order[n], Release(files, order, n + 1);
      ReleaseOnce(files, root, kids, n + 1);
      InTree(root, kids, n);
      var own := FilesOf(files, d);
      ChainOnce(d.fileList, own);
      forall x | x == d || x in own ensures x !in later {
        NewAt(files, root, kids, n, x);
      }
      AppendOnce(later, own);
      AppendOnce(later + own, [d]);
    }
  }

  lemma AllOnce(files: Files, root: Dir, kids: Forest)
    requires Rooted(root, kids) && Filed(files, root, kids)
    ensures NoDuplicates(ReleaseAll(files, root, kids))
  {
    var order, own := Preorder(kids), FilesOf(files, root);
    ReleaseOnce(files, root, kids, 0);
    RootApart(root, kids);
    assert root in Dirs(Whole(root, kids));
    ChainOnce(root.fileList, own);
    forall x | x in own ensures x !in Release(files, order, 0) {
      Released(files, order, 0, x);
      forall i | 0 <= i < |order| ensures x != order[i] && x !in FilesOf(files, order[i]) {
        InTree(root, kids, i);
      }
    }
    AppendOnce(Release(files, order, 0), own);
  }

  /** What is released: the directories below the root and all files. */
  lemma AllReleased(files: Files, root: Dir, kids: Forest)
    requires Rooted(root, kids) && Filed(files, root, kids)
    ensures root !in ReleaseAll(files, root, kids)
    ensures Elements(ReleaseAll(files, root, kids)) == Dirs(kids) + TreeFiles(files, root, kids)
  {
    var all, meant := ReleaseAll(files, root, kids), Dirs(kids) + TreeFiles(files, root, kids);
    RootApart(root, kids);
    assert root in Dirs(Whole(root, kids));
    assert root !in meant;
    hide *;
    forall x | x in all ensures x in meant {
      ReleasedIsMeant(files, root, kids, x);
    }
    forall x | x in meant ensures x in all {
      MeantIsReleased(files, root, kids, x);
    }
    SameElements(all, meant);
  }

  lemma SameElements(s: seq<Dir>, t: set<Dir>)
    requires (forall x :: x in s ==> x in t) && forall x :: x in t ==> x in s
    ensures Elements(s) == t
  {
  }

  lemma InTreeFiles(files: Files, root: Dir, kids: Forest, d: Dir, x: Dir)
    requires d in Dirs(Whole(root, kids)) && x in FilesOf(files, d)
    ensures x in TreeFiles(files, root, kids)
  {
    var i :| 0 <= i < |FilesOf(files, d)| && FilesOf(files, d)[i] == x;
  }

  lemma ReleasedIsMeant(files: Files, root: Dir, kids: Forest, x: Dir)
    requires x in ReleaseAll(files, root, kids)
    ensures x in Dirs(kids) + TreeFiles(files, root, kids)
  {
    hide Release, FilesOf, TreeFiles, Preorder;
    var order := Preorder(kids);
    Released(files, order, 0, x);
    if x in FilesOf(files, root) {
      InTreeFiles(files, root, kids, root, x);
    } else {
      var i :| 0 <= i < |order| && (x == order[i] || x in FilesOf(files, order[i]));
      InTree(root, kids, i);
      if x != order[i] {
        InTreeFiles(files, root, kids, order[i], x);
      }
    }
  }

  lemma MeantIsReleased(files: Files, root: Dir, kids: Forest, x: Dir)
    requires x in Dirs(kids) + TreeFiles(files, root, kids)
    ensures x in ReleaseAll(files, root, kids)
  {
    if x in Dirs(kids) {
      DirReleased(files, root, kids, x);
    } else {
      var d, i :| d in Dirs(Whole(root, kids)) && 0 <= i < |FilesOf(files, d)| && FilesOf(files, d)[i] == x;
      FileReleased(files, root, kids, d, x);
    }
  }

  lemma DirReleased(files: Files, root: Dir, kids: Forest, d: Dir)
    requires d in Dirs(kids)
    ensures d in ReleaseAll(files, root, kids)
  {
    hide Release, FilesOf, Preorder;
    var order := Preorder(kids);
    PreorderDirs(kids, d);
    var i :| 0 <= i < |order| && order[i] == d;
    Released(files, order, 0, d);
  }

  lemma FileReleased(files: Files, root: Dir, kids: Forest, d: Dir, x: Dir)
    requires d in Dirs(Whole(root, kids)) && x in FilesOf(files, d)
    ensures x in ReleaseAll(files, root, kids)
  {
    if d != root {
      hide Release, FilesOf, Preorder;
      var order := Preorder(kids);
      PreorderDirs(kids, d);
      var i :| 0 <= i < |order| && order[i] == d;
      Released(files, order, 0, x);
    }
  }

  lemma StillOnce(a: seq<Dir>, b: seq<Dir>)
    requires a <= b && NoDuplicates(b)
    ensures NoDuplicates(a)
  {
    assert forall i :: 0 <= i < |a| ==> a[i] == b[i];
  }

  lemma LastIsNew(a: seq<Dir>, d: Dir)
    requires NoDuplicates(a + [d])
    ensures d !in a
  {
    forall i | 0 <= i < |a| ensures a[i] != d {
      assert (a + [d])[i] == a[i] && (a + [d])[|a|] == d;
    }
  }

  lemma ReleasePrefix(files: Files, order: seq<Dir>, m: nat, n: nat)
    requires m <= n <= |order|
    ensures Release(files, order, n) <= Release(files, order, m)
    decreases n - m
  {
    if m < n {
      ReleasePrefix(files, order, m + 1, n);
    }
  }

  lemma ReleasedOnce(files: Files, order: seq<Dir>, n: nat, all: seq<Dir>)
    requires n < |order| && NoDuplicates(all) && Release(files, order, 0) <= all
    ensures NoDuplicates(Release(files, order, n + 1) + FilesOf(files, order[n]) + [order[n]])
  {
    ReleasePrefix(files, order, 0, n);
    StillOnce(Release(files, order, n), all);
  }

  /** What is released: every directory below the root and every file. */
  lemma {:induction false} Released(files: Files, order: seq<Dir>, n: nat, x: Dir)
    ensures x in Release(files, order, n)
       <==> exists i :: n <= i < |order| && (x == order[i] || x in FilesOf(files, order[i]))
    decreases |order| - n
  {
    if n < |order| {
      Released(files, order, n + 1, x);
    }
  }

  /** A directory is released after everything below it. */
  lemma ChildrenFirst(root: Dir, kids: Forest, files: Files, i: nat, y: Dir)
    requires Rooted(root, kids) && i < |Preorder(kids)| && Preorder(kids)[i] in Dirs(kids)
    requires y in Dirs(From(kids, Preorder(kids)[i]).kids)
    ensures exists r :: r == Release(files, Preorder(kids), i + 1) && y in r
              && r + FilesOf(files, Preorder(kids)[i]) + [Preorder(kids)[i]] <= Release(files, Preorder(kids), 0)
  {
    var order := Preorder(kids);
    RootApart(root, kids);
    DirTotalsLater(root, kids, i, y);
    var j :| i + 1 <= j < |order| && order[j] == y;
    Released(files, order, i + 1, y);
    ReleasePrefix(files, order, 0, i);
  }

  lemma DirTotalsLater(root: Dir, kids: Forest, i: nat, y: Dir)
    requires Rooted(root, kids) && i < |Preorder(kids)| && Preorder(kids)[i] in Dirs(kids)
    requires y in Dirs(From(kids, Preorder(kids)[i]).kids)
    ensures y in Preorder(kids)[i + 1..]
  {
    RootApart(root, kids);
    BelowComesLater(root, kids, i + 1, y);
    assert Order(root, kids)[i + 2..] == Preorder(kids)[i + 1..];
  }
}
