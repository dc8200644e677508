/** The tree that the path table builds is a linked forest that the depth-first walk can use, and
    the statistics pass counts in it every record that was read. */
module PathForest {
  import opened DirNodes
  import opened DirTotals
  import opened DirMeaning
  import opened DirStat
  import opened PathTable

  ghost predicate Ordered(table: seq<Record>, n: nat)
    requires n <= |table|
  {
    forall i :: 1 <= i < n ==> InOrder(table, i)
  }

  /** The siblings from node i on. */
  ghost function SiblingsFrom(table: seq<Record>, nodes: seq<Dir>, i: nat): (f: Forest)
    requires 1 <= i < |nodes| <= |table| && Ordered(table, |nodes|)
    ensures f.Cons? && f.dir == nodes[i]
    decreases |nodes| - i, 1
  {
    Cons(nodes[i], KidsAt(table, nodes, i),
         if i + 1 < |nodes| && table[i + 1].parent == table[i].parent then SiblingsFrom(table, nodes, i + 1) else Nil)
  }

  ghost function KidsAt(table: seq<Record>, nodes: seq<Dir>, i: nat): Forest
    requires i < |nodes| <= |table| && Ordered(table, |nodes|)
    decreases |nodes| - i, 0
  {
    var c := FirstChild(table, |nodes|, i + 1, 1);
    if c < |nodes| then assert InOrder(table, c); SiblingsFrom(table, nodes, c) else Nil
  }

  lemma {:induction false} SiblingsShape(table: seq<Record>, nodes: seq<Dir>, i: nat)
    requires Built(table, nodes) && 1 <= i < |nodes|
    ensures InOrder(table, i)
    ensures Shape(SiblingsFrom(table, nodes, i), nodes[table[i].parent - 1], nodes[i])
    decreases |nodes| - i, 1
  {
    assert InOrder(table, i);
    assert nodes[i].parent == nodes[table[i].parent - 1];
    assert nodes[i].next == NextSibling(table, nodes, i);
    KidsShapeAt(table, nodes, i);
    if i + 1 < |nodes| && table[i + 1].parent == table[i].parent {
      SiblingsShape(table, nodes, i + 1);
    }
  }

  lemma {:induction false} KidsShapeAt(table: seq<Record>, nodes: seq<Dir>, i: nat)
    requires Built(table, nodes) && i < |nodes|
    ensures Shape(KidsAt(table, nodes, i), nodes[i], nodes[i].child)
    decreases |nodes| - i, 0
  {
    var c := FirstChild(table, |nodes|, i + 1, 1);
    assert nodes[i].child == NodeAt(nodes, c);
    if c < |nodes| {
      assert InOrder(table, c);
      SiblingsShape(table, nodes, c);
    }
  }

  lemma TableMonotone(table: seq<Record>, n: nat, i: nat, j: nat)
    requires n <= |table| && Ordered(table, n) && 1 <= i <= j < n
    ensures table[i].parent <= table[j].parent
    decreases j - i
  {
    assert InOrder(table, j);
    if i < j {
      TableMonotone(table, n, i, j - 1);
    }
  }

  /** A later record with the same parent is among the siblings. */
  lemma {:induction false} SiblingsCover(table: seq<Record>, nodes: seq<Dir>, i: nat, j: nat)
    requires 1 <= i <= j < |nodes| <= |table| && Ordered(table, |nodes|)
    requires table[i].parent == table[j].parent
    ensures nodes[j] in Dirs(SiblingsFrom(table, nodes, i))
    decreases j - i
  {
    if i < j {
      TableMonotone(table, |nodes|, i, i + 1);
      TableMonotone(table, |nodes|, i + 1, j);
      SiblingsCover(table, nodes, i + 1, j);
    }
  }

  lemma KidsCover(table: seq<Record>, nodes: seq<Dir>, j: nat)
    requires 1 <= j < |nodes| <= |table| && Ordered(table, |nodes|)
    ensures InOrder(table, j) && nodes[j] in Dirs(KidsAt(table, nodes, table[j].parent - 1))
  {
    assert InOrder(table, j);
    var c := FirstChild(table, |nodes|, table[j].parent, 1);
    SiblingsCover(table, nodes, c, j);
  }

  /** The whole forest below the root. */
  ghost function Below(table: seq<Record>, nodes: seq<Dir>): Forest
    requires 1 <= |nodes| <= |table| && Ordered(table, |nodes|)
  {
    KidsAt(table, nodes, 0)
  }

  lemma BuiltRooted(table: seq<Record>, nodes: seq<Dir>)
    requires Built(table, nodes)
    ensures Rooted(nodes[0], Below(table, nodes))
  {
    KidsShapeAt(table, nodes, 0);
  }

  /** Every node that was read is in the tree. */
  lemma {:induction false} Reached(table: seq<Record>, nodes: seq<Dir>, j: nat)
    requires Built(table, nodes) && 1 <= j < |nodes|
    ensures nodes[j] in Dirs(Below(table, nodes))
    decreases j
  {
    assert InOrder(table, j);
    var p := table[j].parent - 1;
    KidsCover(table, nodes, j);
    if p > 0 {
      Reached(table, nodes, p);
      BuiltRooted(table, nodes);
      var root, below, up := nodes[0], Below(table, nodes), nodes[p];
      FromShape(below, root, root.child, up);
      KidsShapeAt(table, nodes, p);
      Determined(From(below, up).kids, up, KidsAt(table, nodes, p), up, up.child);
    }
  }

  lemma {:induction false} SiblingsWithin(table: seq<Record>, nodes: seq<Dir>, i: nat, d: Dir)
    requires 1 <= i < |nodes| <= |table| && Ordered(table, |nodes|) && d in Dirs(SiblingsFrom(table, nodes, i))
    ensures d in nodes[1..]
    decreases |nodes| - i, 1
  {
    if d == nodes[i] {
      assert nodes[i] == nodes[1..][i - 1];
    } else if d in Dirs(KidsAt(table, nodes, i)) {
      KidsWithin(table, nodes, i, d);
    } else {
      SiblingsWithin(table, nodes, i + 1, d);
    }
  }

  lemma {:induction false} KidsWithin(table: seq<Record>, nodes: seq<Dir>, i: nat, d: Dir)
    requires i < |nodes| <= |table| && Ordered(table, |nodes|) && d in Dirs(KidsAt(table, nodes, i))
    ensures d in nodes[1..]
    decreases |nodes| - i, 0
  {
    var c := FirstChild(table, |nodes|, i + 1, 1);
    assert InOrder(table, c);
    SiblingsWithin(table, nodes, c, d);
  }

  lemma {:induction false} SameLength<T>(a: seq<T>, b: seq<T>)
    requires NoDuplicates(a) && NoDuplicates(b)
    requires forall x :: x in a <==> x in b
    ensures |a| == |b|
  {
    Distinct(a);
    Distinct(b);
    assert (set x | x in a) == (set x | x in b);
  }

  lemma {:induction false} Distinct<T>(a: seq<T>)
    requires NoDuplicates(a)
    ensures |set x | x in a| == |a|
  {
    if a != [] {
      var n := |a| - 1;
      Distinct(a[..n]);
      assert a[n] !in a[..n];
      assert (set x | x in a) == (set x | x in a[..n]) + {a[n]};
    } else {
      assert (set x | x in a) == {};
    }
  }

  /** The tree holds exactly the directories that were read, each once. */
  lemma EveryRecordOnce(table: seq<Record>, nodes: seq<Dir>)
    requires Built(table, nodes)
    ensures NoDuplicates(Preorder(Below(table, nodes)))
    ensures forall d :: d in Preorder(Below(table, nodes)) <==> d in nodes[1..]
    ensures |Preorder(Below(table, nodes))| == |nodes| - 1
  {
    var root, below := nodes[0], Below(table, nodes);
    BuiltRooted(table, nodes);
    RootApart(root, below);
    PreorderOnce(below, root, root.child);
    forall d ensures d in Preorder(below) <==> d in nodes[1..] {
      PreorderDirs(below, d);
      if d in nodes[1..] {
        var j :| 0 <= j < |nodes| - 1 && nodes[1..][j] == d;
        Reached(table, nodes, j + 1);
      }
      if d in Dirs(below) {
        KidsWithin(table, nodes, 0, d);
      }
    }
    assert NoDuplicates(nodes[1..]) by {
      assert forall i :: 0 <= i < |nodes| - 1 ==> nodes[1..][i] == nodes[i + 1];
    }
    SameLength(Preorder(below), nodes[1..]);
  }

  // ----- Counting directories -----

  /** Every directory's own directory count is the number of its children. */
  ghost predicate Counting(own: Own, f: Forest) {
    match f
    case Nil => true
    case Cons(d, kids, rest) =>
      Of(own, Directories, d) == |Siblings(kids)| && Counting(own, kids) && Counting(own, rest)
  }

  /** Then the total of a directory is the number of directories below it. */
  lemma {:induction false} CountsAddUp(own: Own, f: Forest)
    requires Counting(own, f)
    ensures PassedBy(own, Directories, f) + |Siblings(f)| == |Preorder(f)|
  {
    if f.Cons? {
      CountsAddUp(own, f.kids);
      CountsAddUp(own, f.rest);
    }
  }

  lemma {:induction false} SiblingCount(table: seq<Record>, nodes: seq<Dir>, i: nat)
    requires 1 <= i < |nodes| <= |table| && Ordered(table, |nodes|)
    ensures |Siblings(SiblingsFrom(table, nodes, i))| == ChildCount(table, |nodes|, table[i].parent, i)
    decreases |nodes| - i
  {
    if i + 1 < |nodes| {
      TableMonotone(table, |nodes|, i, i + 1);
      if table[i + 1].parent == table[i].parent {
        SiblingCount(table, nodes, i + 1);
      } else {
        NoneLater(table, |nodes|, table[i].parent, i + 1);
      }
    }
  }

  lemma {:induction false} NoneLater(table: seq<Record>, n: nat, id: nat, c: nat)
    requires 1 <= c < n <= |table| && Ordered(table, n) && table[c].parent > id
    ensures ChildCount(table, n, id, c) == 0
    decreases n - c
  {
    if c + 1 < n {
      TableMonotone(table, n, c, c + 1);
      NoneLater(table, n, id, c + 1);
    }
  }

  lemma {:induction false} CountFromFirst(table: seq<Record>, n: nat, id: nat, c: nat)
    requires c <= n <= |table|
    ensures ChildCount(table, n, id, c) == ChildCount(table, n, id, FirstChild(table, n, id, c))
    decreases n - c
  {
    if c < n && table[c].parent != id {
      CountFromFirst(table, n, id, c + 1);
    }
  }

  lemma KidsCount(table: seq<Record>, nodes: seq<Dir>, i: nat)
    requires i < |nodes| <= |table| && Ordered(table, |nodes|)
    ensures |Siblings(KidsAt(table, nodes, i))| == ChildCount(table, |nodes|, i + 1, 1)
  {
    var c := FirstChild(table, |nodes|, i + 1, 1);
    CountFromFirst(table, |nodes|, i + 1, 1);
    if c < |nodes| {
      SiblingCount(table, nodes, c);
    }
  }

  lemma {:induction false} SiblingsCounting(table: seq<Record>, nodes: seq<Dir>, own: Own, i: nat)
    requires 1 <= i < |nodes| <= |table| && Ordered(table, |nodes|)
    requires forall j :: 0 <= j < |nodes| ==> Of(own, Directories, nodes[j]) == ChildCount(table, |nodes|, j + 1, 1)
    ensures Counting(own, SiblingsFrom(table, nodes, i))
    decreases |nodes| - i, 1
  {
    KidsCount(table, nodes, i);
    KidsCounting(table, nodes, own, i);
    if i + 1 < |nodes| && table[i + 1].parent == table[i].parent {
      SiblingsCounting(table, nodes, own, i + 1);
    }
  }

  lemma {:induction false} KidsCounting(table: seq<Record>, nodes: seq<Dir>, own: Own, i: nat)
    requires i < |nodes| <= |table| && Ordered(table, |nodes|)
    requires forall j :: 0 <= j < |nodes| ==> Of(own, Directories, nodes[j]) == ChildCount(table, |nodes|, j + 1, 1)
    ensures Counting(own, KidsAt(table, nodes, i))
    decreases |nodes| - i, 0
  {
    var c := FirstChild(table, |nodes|, i + 1, 1);
    if c < |nodes| {
      assert InOrder(table, c);
      SiblingsCounting(table, nodes, own, c);
    }
  }

  /** The root's directory total is the number of records read after its own. */
  lemma RootTotal(table: seq<Record>, nodes: seq<Dir>, own: Own)
    requires Built(table, nodes) && own == CurrentCounts(Whole(nodes[0], Below(table, nodes)))
    ensures Total(own, Directories, nodes[0], Below(table, nodes)) == |nodes| - 1
  {
    var below := Below(table, nodes);
    forall j | 0 <= j < |nodes|
      ensures Of(own, Directories, nodes[j]) == ChildCount(table, |nodes|, j + 1, 1)
    {
      if j > 0 {
        Reached(table, nodes, j);
      }
    }
    KidsCounting(table, nodes, own, 0);
    KidsCount(table, nodes, 0);
    CountsAddUp(own, below);
    EveryRecordOnce(table, nodes);
  }

  /** Building the tree and summing it up: the root counts every record that was read. */
  method ReadTree(table: seq<Record>, root: Dir) returns (total: nat, ghost nodes: seq<Dir>)
    requires Table(table)
    requires root.parent == null && root.next == null && root.child == null
    requires root.cur == Counts(0, 0, 0, 0, 0) == root.tot
    modifies root
    ensures |nodes| == total + 1 < |table| <= 0x1_0000 && nodes[0] == root
    ensures Ordered(table, |nodes|) && !InOrder(table, |nodes|)
    ensures Ordered(table, |table| - 1) ==> total == |table| - 2
    ensures forall i :: 1 <= i <= total ==>
              1 <= table[i].parent <= i && (i >= 2 ==> table[i - 1].parent <= table[i].parent)
    ensures var r := total + 1;
            !(1 <= table[r].parent <= r && (r >= 2 ==> table[r - 1].parent <= table[r].parent))
    ensures root.tot.dirs == total
  {
    total, nodes := BuildPathTree(table, root);
    hide Built, Rooted;
    PrefixRead(table, nodes);
    ghost var below := Below(table, nodes);
    ghost var whole := Set(nodes);
    BuiltRooted(table, nodes);
    NodesAreWhole(table, nodes);
    ghost var own := CurrentCounts(Whole(root, below));
    RootTotal(table, nodes, own);
    UpdateTreeStat(root, below, whole);
    KidsOfRoot(root, below);
    SmallCount(total, root.tot.dirs);
  }

  lemma SmallCount(total: nat, count: int)
    requires total < 0x1_0000 && count == total % Modulus(Directories)
    ensures count == total
  {
  }

  lemma KidsOfRoot(root: Dir, kids: Forest)
    ensures Kids(Whole(root, kids), root) == kids
  {
  }

  ghost function Set(nodes: seq<Dir>): set<Dir> {
    set d | d in nodes
  }

  lemma NodesAreWhole(table: seq<Record>, nodes: seq<Dir>)
    requires Built(table, nodes)
    ensures Set(nodes) == Dirs(Whole(nodes[0], Below(table, nodes)))
    ensures forall d | d in Set(nodes) :: d.tot == Counts(0, 0, 0, 0, 0)
  {
    var below := Below(table, nodes);
    EveryRecordOnce(table, nodes);
    forall d | d in Set(nodes) ensures d in Dirs(Whole(nodes[0], below)) {
      var i :| 0 <= i < |nodes| && nodes[i] == d;
      if i > 0 {
        assert d == nodes[1..][i - 1];
        PreorderDirs(below, d);
      }
    }
    forall d | d in Dirs(Whole(nodes[0], below)) ensures d in Set(nodes) {
      if d != nodes[0] {
        assert d in Dirs(below) + Dirs(Nil);
        KidsWithin(table, nodes, 0, d);
      }
    }
  }
}
