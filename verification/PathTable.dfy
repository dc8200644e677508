/** The directory tree rebuilt from the path table of an ISO-9660 image (section 6.9 of ECMA-119),
    with a queue of directories whose children are still to be read. */
module PathTable {
  import opened DirNodes

  /** A path table record; parent is a 16-bit directory number. */
  datatype Record = Record(extent: nat, parent: nat)

  /** Record i is in order: it names an earlier directory (record i is directory number i + 1),
      and no earlier one than the record before it. */
  predicate InOrder(table: seq<Record>, i: nat)
    requires 1 <= i < |table|
  {
    1 <= table[i].parent <= i && (i >= 2 ==> table[i - 1].parent <= table[i].parent)
  }

  /** The first record from c on, below n, that names directory number id; n if there is none. */
  function FirstChild(table: seq<Record>, n: nat, id: nat, c: nat): (r: nat)
    requires c <= n <= |table|
    ensures c <= r <= n
    ensures r < n ==> table[r].parent == id
    ensures forall j :: c <= j < r ==> table[j].parent != id
    decreases n - c
  {
    if c == n then n else if table[c].parent == id then c else FirstChild(table, n, id, c + 1)
  }

  /** The number of records from c on, below n, that name directory number id. */
  function ChildCount(table: seq<Record>, n: nat, id: nat, c: nat): nat
    requires c <= n <= |table|
    decreases n - c
  {
    if c == n then 0 else (if table[c].parent == id then 1 else 0) + ChildCount(table, n, id, c + 1)
  }

  /** Node i carries number i + 1 and hangs under the node whose number its record names. */
  ghost predicate Hung(table: seq<Record>, nodes: seq<Dir>)
    requires |nodes| <= |table|
    reads nodes`parent, nodes`pathTblId, nodes`extent
  {
    && (forall i {:trigger nodes[i].pathTblId} :: 0 <= i < |nodes| ==> nodes[i].pathTblId == i + 1)
    && (forall i {:trigger nodes[i].extent} :: 0 <= i < |nodes| ==> nodes[i].extent == table[i].extent)
    && (forall i {:trigger InOrder(table, i)} :: 1 <= i < |nodes| ==> InOrder(table, i))
    && (forall i {:trigger nodes[i].parent} :: 1 <= i < |nodes| ==>
          nodes[i].parent == if InOrder(table, i) then nodes[table[i].parent - 1] else null)
    && (nodes != [] ==> nodes[0].parent == null)
  }

  /** The node of the record after record i if it names the same directory. */
  ghost function NextSibling(table: seq<Record>, nodes: seq<Dir>, i: nat): Dir?
    requires i < |nodes| <= |table|
  {
    if 1 <= i && i + 1 < |nodes| && table[i + 1].parent == table[i].parent then nodes[i + 1] else null
  }

  /** Siblings are linked in table order. */
  ghost predicate Chained(table: seq<Record>, nodes: seq<Dir>)
    requires |nodes| <= |table|
    reads nodes`next
  {
    forall i {:trigger nodes[i].next} :: 0 <= i < |nodes| ==> nodes[i].next == NextSibling(table, nodes, i)
  }

  ghost function NodeAt(nodes: seq<Dir>, i: nat): Dir? {
    if i < |nodes| then nodes[i] else null
  }

  /** Every node points to its first child. */
  ghost predicate Headed(table: seq<Record>, nodes: seq<Dir>)
    requires 1 <= |nodes| <= |table|
    reads nodes`child
  {
    forall i {:trigger nodes[i].child} :: 0 <= i < |nodes| ==>
      nodes[i].child == NodeAt(nodes, FirstChild(table, |nodes|, i + 1, 1))
  }

  /** Every node counts its children, and its other counters are still zero. */
  ghost predicate Counted(table: seq<Record>, nodes: seq<Dir>)
    requires 1 <= |nodes| <= |table|
    reads nodes`cur, nodes`tot
  {
    forall i :: 0 <= i < |nodes| ==>
      && nodes[i].cur == Counts(ChildCount(table, |nodes|, i + 1, 1), 0, 0, 0, 0)
      && nodes[i].tot == Counts(0, 0, 0, 0, 0)
  }

  ghost predicate Built(table: seq<Record>, nodes: seq<Dir>)
    reads nodes`parent, nodes`pathTblId, nodes`extent, nodes`next, nodes`child, nodes`cur, nodes`tot
  {
    && 1 <= |nodes| <= |table| && NoDuplicates(nodes)
    && Hung(table, nodes) && Chained(table, nodes) && Headed(table, nodes) && Counted(table, nodes)
  }

  lemma {:induction false} FirstChildExtends(table: seq<Record>, n: nat, id: nat, c: nat)
    requires c <= n < |table|
    ensures var before, after := FirstChild(table, n, id, c), FirstChild(table, n + 1, id, c);
            if before < n then after == before else after == if table[n].parent == id then n else n + 1
    decreases n - c
  {
    if c < n {
      FirstChildExtends(table, n, id, c + 1);
    }
  }

  lemma {:induction false} ChildCountExtends(table: seq<Record>, n: nat, id: nat, c: nat)
    requires c <= n < |table|
    ensures ChildCount(table, n + 1, id, c) == ChildCount(table, n, id, c) + if table[n].parent == id then 1 else 0
    decreases n - c
  {
    if c < n {
      ChildCountExtends(table, n, id, c + 1);
    }
  }

  /** While records are in order, a directory has a child already exactly when the last record
      names it. */
  lemma {:induction false} ChildrenAreLast(table: seq<Record>, n: nat, id: nat)
    requires 1 <= n < |table| && table[n].parent == id
    requires forall i :: 1 <= i <= n ==> InOrder(table, i)
    ensures FirstChild(table, n, id, 1) < n <==> n >= 2 && table[n - 1].parent == id
  {
    var c := FirstChild(table, n, id, 1);
    if c < n {
      Monotone(table, n, c, n - 1);
      assert InOrder(table, n);
    }
  }

  lemma {:induction false} Monotone(table: seq<Record>, n: nat, i: nat, j: nat)
    requires 1 <= i <= j <= n < |table|
    requires forall i :: 1 <= i <= n ==> InOrder(table, i)
    ensures table[i].parent <= table[j].parent
    decreases j - i
  {
    if i < j {
      Monotone(table, n, i, j - 1);
      assert InOrder(table, j);
    }
  }

  /** The next record names an earlier directory, so the new one has no child yet. */
  lemma NoneBelowNew(table: seq<Record>, r: nat)
    requires 1 <= r < |table| && forall i :: 1 <= i <= r ==> InOrder(table, i)
    ensures FirstChild(table, r + 1, r + 1, 1) == r + 1 && ChildCount(table, r + 1, r + 1, 1) == 0
  {
    var c := FirstChild(table, r + 1, r + 1, 1);
    assert c <= r ==> InOrder(table, c);
    NoChildren(table, r + 1, r + 1, 1);
  }

  lemma NoChildren(table: seq<Record>, n: nat, id: nat, c: nat)
    requires c <= n <= |table| && FirstChild(table, n, id, c) == n
    ensures ChildCount(table, n, id, c) == 0
    decreases n - c
  {
  }

  /** all is nodes with one more node at the end. */
  ghost predicate Extended(nodes: seq<Dir>, all: seq<Dir>, node: Dir) {
    && |all| == |nodes| + 1 && all[|nodes|] == node
    && forall i {:trigger all[i]} {:trigger nodes[i]} :: 0 <= i < |nodes| ==> all[i] == nodes[i]
  }

  /** Record r, the next, names node q. */
  ghost predicate Next(table: seq<Record>, r: nat, q: nat, nodes: seq<Dir>, all: seq<Dir>, node: Dir) {
    && q < r == |nodes| < |table| && NoDuplicates(nodes) && node !in nodes && Extended(nodes, all, node)
    && (forall i :: 1 <= i <= r ==> InOrder(table, i))
    && table[r].parent == q + 1
  }

  lemma HeadAfter(table: seq<Record>, r: nat, q: nat, nodes: seq<Dir>, all: seq<Dir>, node: Dir, i: nat)
    requires Next(table, r, q, nodes, all, node) && i <= r
    ensures NodeAt(all, FirstChild(table, r + 1, i + 1, 1))
         == if i == r then null
            else if i == q && FirstChild(table, r, q + 1, 1) == r then node
            else NodeAt(nodes, FirstChild(table, r, i + 1, 1))
  {
    if i < r {
      FirstChildExtends(table, r, i + 1, 1);
    } else {
      NoneBelowNew(table, r);
    }
  }

  /** A directory that has children keeps its first. */
  lemma HeadsStay(table: seq<Record>, r: nat, q: nat, nodes: seq<Dir>, all: seq<Dir>, node: Dir)
    requires Next(table, r, q, nodes, all, node) && FirstChild(table, r, q + 1, 1) < r
    requires Headed(table, nodes) && node.child == null
    ensures Headed(table, all)
  {
    forall i | 0 <= i <= r
      ensures all[i].child == NodeAt(all, FirstChild(table, r + 1, i + 1, 1))
    {
      HeadAfter(table, r, q, nodes, all, node, i);
      assert i < r ==> nodes[i].child == NodeAt(nodes, FirstChild(table, r, i + 1, 1));
    }
  }

  method SetFirst(table: seq<Record>, r: nat, ghost q: nat, cur: Dir, node: Dir, ghost nodes: seq<Dir>,
                  ghost all: seq<Dir>)
    requires Next(table, r, q, nodes, all, node) && FirstChild(table, r, q + 1, 1) == r
    requires Headed(table, nodes) && node.child == null && cur == nodes[q]
    modifies cur`child
    ensures Headed(table, all)
  {
    hide FirstChild, InOrder;
    cur.child := node;
    forall i | 0 <= i <= r
      ensures all[i].child == NodeAt(all, FirstChild(table, r + 1, i + 1, 1))
    {
      HeadAfter(table, r, q, nodes, all, node, i);
      assert i < r && i != q ==> nodes[i].child == NodeAt(nodes, FirstChild(table, r, i + 1, 1));
    }
  }

  /** The first child of a directory ends the list of siblings before it. */
  lemma ChainEnds(table: seq<Record>, r: nat, q: nat, nodes: seq<Dir>, all: seq<Dir>, node: Dir)
    requires Next(table, r, q, nodes, all, node) && !(r >= 2 && table[r - 1].parent == q + 1)
    requires Chained(table, nodes) && node.next == null
    ensures Chained(table, all)
  {
    forall i | 0 <= i <= r
      ensures all[i].next == NextSibling(table, all, i)
    {
      assert i < r ==> nodes[i].next == NextSibling(table, nodes, i);
    }
  }

  method SetNext(table: seq<Record>, r: nat, ghost q: nat, pre: Dir, node: Dir, ghost nodes: seq<Dir>,
                 ghost all: seq<Dir>)
    requires Next(table, r, q, nodes, all, node) && r >= 2 && table[r - 1].parent == q + 1
    requires Chained(table, nodes) && node.next == null && pre == nodes[r - 1]
    modifies pre`next
    ensures Chained(table, all)
  {
    pre.next := node;
    forall i | 0 <= i <= r
      ensures all[i].next == NextSibling(table, all, i)
    {
      assert i < r - 1 ==> nodes[i].next == NextSibling(table, nodes, i);
    }
  }

  /** Makes node the first child of cur, or the next sibling of pre if cur has a child. */
  method Link(table: seq<Record>, r: nat, ghost q: nat, cur: Dir, pre: Dir?, node: Dir, ghost nodes: seq<Dir>,
              ghost all: seq<Dir>)
    requires Next(table, r, q, nodes, all, node) && Headed(table, nodes) && Chained(table, nodes)
    requires node.next == null && node.child == null
    requires cur == nodes[q] && pre == if r >= 2 then nodes[r - 1] else null
    modifies cur`child, (if pre == null then {} else {pre})`next
    ensures Headed(table, all) && Chained(table, all)
  {
    ChildrenAreLast(table, r, q + 1);
    assert cur.child == NodeAt(nodes, FirstChild(table, r, q + 1, 1));
    if cur.child == null {
      ChainEnds(table, r, q, nodes, all, node);
      SetFirst(table, r, q, cur, node, nodes, all);
    } else {
      HeadsStay(table, r, q, nodes, all, node);
      SetNext(table, r, q, pre, node, nodes, all);
    }
  }

  method CountChild(table: seq<Record>, r: nat, ghost q: nat, cur: Dir, node: Dir, ghost nodes: seq<Dir>,
                    ghost all: seq<Dir>)
    requires Next(table, r, q, nodes, all, node) && cur == nodes[q]
    requires Counted(table, nodes) && node.cur == Counts(0, 0, 0, 0, 0) == node.tot
    modifies cur`cur
    ensures Counted(table, all)
  {
    cur.cur := cur.cur.(dirs := cur.cur.dirs + 1);
    NoneBelowNew(table, r);
    forall i | 0 <= i < r
      ensures all[i].cur == Counts(ChildCount(table, r + 1, i + 1, 1), 0, 0, 0, 0)
    {
      ChildCountExtends(table, r, i + 1, 1);
    }
  }

  /** Gives the new node its number, extent and parent. */
  method Place(table: seq<Record>, r: nat, ghost q: nat, cur: Dir, node: Dir, ghost nodes: seq<Dir>,
               ghost all: seq<Dir>)
    requires Next(table, r, q, nodes, all, node) && Hung(table, nodes) && cur == nodes[q]
    modifies node`extent, node`pathTblId, node`parent
    ensures Hung(table, all)
  {
    node.extent := table[r].extent;
    node.pathTblId := r + 1;
    node.parent := cur;
    forall i | 1 <= i <= r
      ensures InOrder(table, i) && all[i].parent == all[table[i].parent - 1]
    {
      assert InOrder(table, i);
      assert i < r ==> nodes[i].parent == nodes[table[i].parent - 1];
    }
  }

  lemma ExtendedOnce(nodes: seq<Dir>, all: seq<Dir>, node: Dir)
    requires NoDuplicates(nodes) && node !in nodes && Extended(nodes, all, node)
    ensures NoDuplicates(all)
  {
  }

  /** The node for the next record, which names cur. */
  method AddRecord(table: seq<Record>, r: nat, ghost q: nat, cur: Dir, pre: Dir?, ghost nodes: seq<Dir>)
    returns (node: Dir, ghost all: seq<Dir>)
    requires q < r == |nodes| < |table| && Built(table, nodes) && InOrder(table, r)
    requires table[r].parent == q + 1 && cur == nodes[q] && pre == if r >= 2 then nodes[r - 1] else null
    modifies cur`child, cur`cur, (if pre == null then {} else {pre})`next
    ensures fresh(node) && all == nodes + [node] && Built(table, all)
  {
    node := new Dir();
    all := nodes + [node];
    assert Next(table, r, q, nodes, all, node);
    Place(table, r, q, cur, node, nodes, all);
    Link(table, r, q, cur, pre, node, nodes, all);
    CountChild(table, r, q, cur, node, nodes, all);
    ExtendedOnce(nodes, all, node);
  }

  /** A path table: the root's record, at least one more, and an end mark that names directory 0.
      Directory numbers have 16 bits. */
  ghost predicate Table(table: seq<Record>) {
    2 <= |table| <= 0x1_0000 && table[|table| - 1].parent == 0
  }

  /** The records read so far, the directories popped (the first q), and where reading stands:
      if the next record is in order, the directory it names is still to be popped. */
  ghost predicate Reading(table: seq<Record>, root: Dir, nodes: seq<Dir>, q: nat, pre: Dir?)
    reads nodes`parent, nodes`pathTblId, nodes`extent, nodes`next, nodes`child, nodes`cur, nodes`tot
  {
    && Built(table, nodes) && |nodes| < |table| && nodes[0] == root && q <= |nodes|
    && pre == (if |nodes| >= 2 then nodes[|nodes| - 1] else null)
    && (|nodes| >= 2 ==> table[|nodes| - 1].parent <= q)
    && (InOrder(table, |nodes|) ==> table[|nodes|].parent >= q)
  }

  lemma StartReading(table: seq<Record>, root: Dir)
    requires Table(table)
    requires root.parent == null && root.next == null && root.child == null
    requires root.cur == Counts(0, 0, 0, 0, 0) == root.tot
    requires root.pathTblId == 1 && root.extent == table[0].extent
    ensures Reading(table, root, [root], 0, null)
  {
    assert FirstChild(table, 1, 1, 1) == 1;
  }

  /** What a reader may use of its state. */
  lemma ReadingFacts(table: seq<Record>, root: Dir, nodes: seq<Dir>, q: nat, pre: Dir?)
    requires Reading(table, root, nodes, q, pre)
    ensures 1 <= |nodes| < |table| && nodes[0] == root && q <= |nodes| && Built(table, nodes)
    ensures forall i :: 0 <= i < |nodes| ==> nodes[i].pathTblId == i + 1
  {
  }

  /** Reads one record that names the directory popped last. */
  method ReadChild(table: seq<Record>, root: Dir, cur: Dir, total: nat, pre: Dir?, ghost nodes: seq<Dir>, ghost q: nat)
    returns (node: Dir, ghost all: seq<Dir>)
    requires Table(table) && Reading(table, root, nodes, q, pre) && |nodes| == total + 1
    requires 1 <= q && cur == nodes[q - 1] && table[total + 1].parent == q
    modifies nodes
    ensures fresh(node) && all == nodes + [node] && Reading(table, root, all, q, node)
  {
    assert InOrder(table, |nodes|);
    node, all := AddRecord(table, total + 1, q - 1, cur, pre, nodes);
    hide Built;
  }

  /** Once the next record does not name the directory popped last, it names a later one if it is
      in order. */
  lemma PopNext(table: seq<Record>, root: Dir, nodes: seq<Dir>, q: nat, pre: Dir?)
    requires Reading(table, root, nodes, q, pre) && q < |nodes|
    requires q >= 1 ==> table[|nodes|].parent != q
    ensures Reading(table, root, nodes, q + 1, pre)
  {
    hide Built;
  }

  /** Reads all children of the directory popped last and queues them. */
  method ReadChildren(table: seq<Record>, root: Dir, cur: Dir, done: nat, last: Dir?, queue: seq<Dir>,
                      ghost nodes: seq<Dir>, ghost q: nat)
    returns (total: nat, pre: Dir?, queue': seq<Dir>, ghost all: seq<Dir>)
    requires Table(table) && Reading(table, root, nodes, q, last) && |nodes| == done + 1
    requires 1 <= q <= |nodes| && cur == nodes[q - 1] && queue == nodes[q..]
    modifies nodes
    ensures nodes <= all && forall i :: |nodes| <= i < |all| ==> fresh(all[i])
    ensures Reading(table, root, all, q, pre) && |all| == total + 1 < |table| && queue' == all[q..]
    ensures table[total + 1].parent != q
  {
    hide Built, Reading;
    total, pre, queue', all := done, last, queue, nodes;
    ReadingFacts(table, root, all, q, pre);
    while cur.pathTblId % 0x1_0000 == table[total + 1].parent
      invariant nodes <= all && |all| == total + 1 < |table| && queue' == all[q..]
      invariant cur.pathTblId == q && Reading(table, root, all, q, pre)
      invariant forall i :: |nodes| <= i < |all| ==> fresh(all[i])
      decreases |table| - |all|
    {
      pre, all := ReadChild(table, root, cur, total, pre, all, q);
      total := total + 1;
      queue' := queue' + [pre];
      ReadingFacts(table, root, all, q, pre);
    }
  }

  /** Pops a directory and reads its children. */
  method ReadNext(table: seq<Record>, root: Dir, done: nat, last: Dir?, queue: seq<Dir>, ghost nodes: seq<Dir>,
                  ghost q: nat)
    returns (total: nat, pre: Dir?, queue': seq<Dir>, ghost all: seq<Dir>)
    requires Table(table) && Reading(table, root, nodes, q, last) && |nodes| == done + 1 < |table|
    requires q < |nodes| && queue == nodes[q..] && (q >= 1 ==> table[done + 1].parent != q)
    modifies nodes
    ensures nodes <= all && forall i :: |nodes| <= i < |all| ==> fresh(all[i])
    ensures Reading(table, root, all, q + 1, pre) && |all| == total + 1 < |table|
    ensures q + 1 <= |all| && queue' == all[q + 1..] && table[total + 1].parent != q + 1
  {
    hide Built, Reading;
    PopNext(table, root, nodes, q, last);
    total, pre, queue', all := ReadChildren(table, root, queue[0], done, last, queue[1..], nodes, q + 1);
    ReadingFacts(table, root, all, q + 1, pre);
  }

  /** Consumes records as long as they are in order, each once: the n-th record becomes node
      number n under the node its record names, siblings in table order. */
  method BuildPathTree(table: seq<Record>, root: Dir) returns (total: nat, ghost nodes: seq<Dir>)
    requires Table(table)
    requires root.parent == null && root.next == null && root.child == null
    requires root.cur == Counts(0, 0, 0, 0, 0) == root.tot
    modifies root
    ensures |nodes| == total + 1 < |table| && nodes[0] == root
    ensures forall i :: 1 <= i < |nodes| ==> fresh(nodes[i])
    ensures Built(table, nodes)
    ensures !InOrder(table, |nodes|)
  {
    root.pathTblId := 1;
    root.extent := table[0].extent;
    var queue := [root];
    var pre: Dir? := null;
    total, nodes := 0, [root];
    ghost var q := 0;
    StartReading(table, root);
    hide Built, Reading;
    while queue != []
      invariant Reading(table, root, nodes, q, pre) && |nodes| == total + 1 < |table|
      invariant q <= |nodes| && queue == nodes[q..] && nodes[0] == root
      invariant q >= 1 ==> table[total + 1].parent != q
      invariant forall i :: 1 <= i < |nodes| ==> fresh(nodes[i])
      decreases |table| - |nodes|, |queue|
    {
      total, pre, queue, nodes := ReadNext(table, root, total, pre, queue, nodes, q);
      q := q + 1;
    }
    ReadingFacts(table, root, nodes, q, pre);
    EndReading(table, root, nodes, pre);
  }

  /** In numbers: the records read name a directory read before them, in ascending order, and the next one does not go
      on like that. */
  lemma PrefixRead(table: seq<Record>, nodes: seq<Dir>)
    requires Built(table, nodes) && |nodes| < |table| && !InOrder(table, |nodes|)
    ensures forall i :: 1 <= i < |nodes| ==>
              1 <= table[i].parent <= i && (i >= 2 ==> table[i - 1].parent <= table[i].parent)
    ensures var r := |nodes|;
            !(1 <= table[r].parent <= r && (r >= 2 ==> table[r - 1].parent <= table[r].parent))
  {
    forall i | 1 <= i < |nodes|
      ensures 1 <= table[i].parent <= i && (i >= 2 ==> table[i - 1].parent <= table[i].parent)
    {
      assert InOrder(table, i);
    }
  }

  lemma EndReading(table: seq<Record>, root: Dir, nodes: seq<Dir>, pre: Dir?)
    requires Reading(table, root, nodes, |nodes|, pre) && table[|nodes|].parent != |nodes|
    ensures !InOrder(table, |nodes|)
  {
    hide Built;
  }
}
