/** The method that runs the statistics pass, popping the depth-first stack from its tail. */
module DirStat {
  import opened DirNodes
  import opened DirTotals
  import opened DirMeaning
  import opened DirWalk

  /** Counter by counter addition in the width of the counters. */
  function AddCounts(a: Counts, b: Counts): (r: Counts)
    ensures forall k :: Get(r, k) == (Get(a, k) + Get(b, k)) % Modulus(k)
  {
    Counts((a.dirs + b.dirs) % Modulus(Directories), (a.files + b.files) % Modulus(Files),
           (a.links + b.links) % Modulus(Links), (a.sectors + b.sectors) % Modulus(Sectors),
           (a.space + b.space) % Modulus(Space))
  }

  lemma WrappedSum(k: Kind, a: int, b: int)
    ensures (a % Modulus(k) + b) % Modulus(k) == (a + b) % Modulus(k)
    ensures (a % Modulus(k) + b % Modulus(k)) % Modulus(k) == (a + b) % Modulus(k)
  {
    if k == Space {
      Wrapped64(a, b);
    } else {
      Wrapped32(a, b);
    }
  }

  lemma Wrapped32(a: int, b: int)
    ensures (a % 0x1_0000_0000 + b) % 0x1_0000_0000 == (a + b) % 0x1_0000_0000
    ensures (a % 0x1_0000_0000 + b % 0x1_0000_0000) % 0x1_0000_0000 == (a + b) % 0x1_0000_0000
  {
  }

  lemma Wrapped64(a: int, b: int)
    ensures (a % 0x1_0000_0000_0000_0000 + b) % 0x1_0000_0000_0000_0000 == (a + b) % 0x1_0000_0000_0000_0000
    ensures (a % 0x1_0000_0000_0000_0000 + b % 0x1_0000_0000_0000_0000) % 0x1_0000_0000_0000_0000
         == (a + b) % 0x1_0000_0000_0000_0000
  {
  }

  /** What a parent's counter becomes when a child with total t and own counts c passes up. */
  lemma PassUp(k: Kind, before: Counts, t: Counts, c: Counts, a: int, total: int)
    requires Get(before, k) == a % Modulus(k) && Get(t, k) == total % Modulus(k)
    ensures Get(AddCounts(before, t.(links := c.links)), k)
         == (a + if k == Links then Get(c, k) else total) % Modulus(k)
  {
    WrappedSum(k, a, total);
    WrappedSum(k, a, Get(c, k));
  }

  ghost function Whole(root: Dir, kids: Forest): Forest {
    Cons(root, kids, Nil)
  }

  ghost predicate Rooted(root: Dir, kids: Forest)
    reads root`parent, root`child, Dirs(kids)`parent, Dirs(kids)`next, Dirs(kids)`child
  {
    root.parent == null && Shape(kids, root, root.child)
  }

  ghost function CurrentCounts(f: Forest): Own
    reads Dirs(f)`cur
  {
    map d | d in Dirs(f) :: d.cur
  }

  lemma RootApart(root: Dir, kids: Forest)
    requires Rooted(root, kids)
    ensures root !in Dirs(kids)
  {
    if root in Dirs(kids) {
      FromShape(kids, root, root.child, root);
    }
  }

  lemma KidsShape(root: Dir, kids: Forest, x: Dir)
    requires Rooted(root, kids) && x in Dirs(Whole(root, kids))
    ensures Shape(Kids(Whole(root, kids), x), x, x.child) && x !in Dirs(Kids(Whole(root, kids), x))
    ensures Dirs(Kids(Whole(root, kids), x)) <= Dirs(kids)
  {
    RootApart(root, kids);
    if x != root {
      FromShape(kids, root, root.child, x);
      HeadOccursOnce(From(kids, x), x.parent, x);
    }
  }

  lemma KidsOfKid(root: Dir, kids: Forest, d: Dir)
    requires Rooted(root, kids) && d in Dirs(kids)
    ensures d.parent in Dirs(Whole(root, kids)) && IsSibling(Kids(Whole(root, kids), d.parent), d)
    ensures d in Dirs(Kids(Whole(root, kids), d.parent))
    ensures Kids(Kids(Whole(root, kids), d.parent), d) == Kids(Whole(root, kids), d)
  {
    var whole := Whole(root, kids);
    RootApart(root, kids);
    FromShape(kids, root, root.child, d);
    ChildOfParent(kids, root, root.child, d);
    var p: Dir := d.parent;
    KidsShape(root, kids, p);
    SiblingParent(Kids(whole, p), p, p.child, d);
    KidsShape(root, kids, d);
    FromShape(Kids(whole, p), p, p.child, d);
    Determined(Kids(Kids(whole, p), d), d, Kids(whole, d), d, d.child);
  }

  /** Directories in `done` hold their totals; the others what their done children passed up. */
  ghost predicate Progress(f: Forest, own: Own, done: set<Dir>)
    reads Dirs(f)`tot
  {
    forall d, k | d in Dirs(f) ::
      Get(d.tot, k)
      == (if d in done then Total(own, k, d, Kids(f, d)) else PassedSoFar(own, k, Kids(f, d), done)) % Modulus(k)
  }

  /** What a directory that is not d itself gains when d is done. */
  lemma Gain(root: Dir, kids: Forest, own: Own, k: Kind, done: set<Dir>, d: Dir, x: Dir)
    requires Rooted(root, kids) && d in Dirs(Whole(root, kids)) && x in Dirs(Whole(root, kids)) && d !in done
    ensures PassedSoFar(own, k, Kids(Whole(root, kids), x), done + {d})
         == PassedSoFar(own, k, Kids(Whole(root, kids), x), done)
            + if d.parent == x then Passed(own, k, d, Kids(Whole(root, kids), d)) else 0
  {
    var f := Whole(root, kids);
    KidsShape(root, kids, x);
    if d.parent == x {
      KidsOfKid(root, kids, d);
      PassedHere(own, k, Kids(f, x), x, x.child, done, d);
    } else {
      if IsSibling(Kids(f, x), d) {
        SiblingParent(Kids(f, x), x, x.child, d);
      }
      PassedElsewhere(own, k, Kids(f, x), done, d);
    }
  }

  lemma OwnAdded(k: Kind, before: Counts, d: Dir, kids: Forest, own: Own, done: set<Dir>)
    requires Dirs(kids) <= done && d in own && own[d] == d.cur
    requires Get(before, k) == PassedSoFar(own, k, kids, done) % Modulus(k)
    ensures Get(AddCounts(before, d.cur), k) == Total(own, k, d, kids) % Modulus(k)
  {
    hide PassedBy, PassedSoFar, Get, Modulus, AddCounts, Dirs;
    PassedByAll(own, k, kids, done);
    WrappedSum(k, PassedBy(own, k, kids), Get(d.cur, k));
  }

  /** Adds a directory's own counts when all its children have passed up theirs. */
  method AddOwn(d: Dir, ghost kids: Forest, ghost own: Own, ghost done: set<Dir>)
    requires Dirs(kids) <= done && d in own && own[d] == d.cur
    requires forall k :: Get(d.tot, k) == PassedSoFar(own, k, kids, done) % Modulus(k)
    modifies d`tot
    ensures forall k :: Get(d.tot, k) == Total(own, k, d, kids) % Modulus(k)
  {
    hide *;
    ghost var before := d.tot;
    d.tot := AddCounts(d.tot, d.cur);
    forall k
      ensures Get(d.tot, k) == Total(own, k, d, kids) % Modulus(k)
    {
      OwnAdded(k, before, d, kids, own, done);
    }
  }

  /** Adds a finished directory's totals to its parent's. */
  method AddToParent(d: Dir, p: Dir, ghost root: Dir, ghost kids: Forest, ghost own: Own, ghost done: set<Dir>)
    requires Rooted(root, kids) && d in Dirs(Whole(root, kids)) && d !in done
    requires p == d.parent && p in Dirs(Whole(root, kids))
    requires d in own && own[d] == d.cur
    requires forall k :: Get(d.tot, k) == Total(own, k, d, Kids(Whole(root, kids), d)) % Modulus(k)
    requires forall k :: Get(p.tot, k) == PassedSoFar(own, k, Kids(Whole(root, kids), p), done) % Modulus(k)
    modifies p`tot
    ensures forall k :: Get(p.tot, k) == PassedSoFar(own, k, Kids(Whole(root, kids), p), done + {d}) % Modulus(k)
  {
    ghost var f, before := Whole(root, kids), p.tot;
    ghost var total := d.tot;
    p.tot := AddCounts(p.tot, d.tot.(links := d.cur.links));
    forall k
      ensures Get(p.tot, k) == PassedSoFar(own, k, Kids(f, p), done + {d}) % Modulus(k)
    {
      PassUp(k, before, total, d.cur, PassedSoFar(own, k, Kids(f, p), done), Total(own, k, d, Kids(f, d)));
      Gain(root, kids, own, k, done, d, p);
    }
  }

  /** The body of the loop: d gets its total and passes it up. */
  method Settle(d: Dir, ghost root: Dir, ghost kids: Forest, ghost nodes: set<Dir>, ghost own: Own,
                ghost done: set<Dir>)
    requires nodes == Dirs(Whole(root, kids))
    requires Rooted(root, kids) && d in Dirs(Whole(root, kids)) && d !in done
    requires Dirs(Kids(Whole(root, kids), d)) <= done
    requires d.parent != null ==> d.parent in Dirs(Whole(root, kids)) && d.parent !in done && d.parent != d
    requires d in own && own[d] == d.cur
    requires Progress(Whole(root, kids), own, done)
    modifies nodes`tot
    ensures Progress(Whole(root, kids), own, done + {d})
  {
    ghost var f := Whole(root, kids);
    AddOwn(d, Kids(f, d), own, done);
    if d.parent != null {
      AddToParent(d, d.parent, root, kids, own, done);
    }
    forall x, k | x in Dirs(f) && x != d && x != d.parent && x !in done
      ensures PassedSoFar(own, k, Kids(f, x), done + {d}) == PassedSoFar(own, k, Kids(f, x), done)
    {
      Gain(root, kids, own, k, done, d, x);
    }
  }

  lemma NothingDone(f: Forest, own: Own)
    requires forall d | d in Dirs(f) :: d.tot == Counts(0, 0, 0, 0, 0)
    ensures Progress(f, own, {})
  {
    forall d, k | d in Dirs(f)
      ensures PassedSoFar(own, k, Kids(f, d), {}) == 0
    {
      PassedByNone(own, k, Kids(f, d));
    }
  }

  ghost function Order(root: Dir, kids: Forest): seq<Dir> {
    [root] + Preorder(kids)
  }

  ghost function Elements(s: seq<Dir>): set<Dir> {
    set d | d in s
  }

  lemma OrderCovers(root: Dir, kids: Forest)
    ensures Dirs(Whole(root, kids)) <= Elements(Order(root, kids))
  {
    forall d | d in Dirs(Whole(root, kids)) ensures d in Order(root, kids) {
      if d != root {
        PreorderDirs(kids, d);
      }
    }
  }

  /** In the order of the walk, everything below x comes after x. */
  lemma BelowComesLater(root: Dir, kids: Forest, i: nat, y: Dir)
    requires Rooted(root, kids) && i < |Order(root, kids)|
    requires Order(root, kids)[i] in Dirs(Whole(root, kids))
    requires y in Dirs(Kids(Whole(root, kids), Order(root, kids)[i]))
    ensures y in Order(root, kids)[i + 1..]
  {
    RootApart(root, kids);
    assert Order(root, kids)[i + 1..] == Preorder(kids)[i..];
    if i == 0 {
      PreorderDirs(kids, y);
    } else {
      PreorderDirs(kids, Preorder(kids)[i - 1]);
      KidsComeLater(kids, root, root.child, i - 1, y);
    }
  }

  lemma OrderFacts(root: Dir, kids: Forest)
    requires Rooted(root, kids)
    ensures NoDuplicates(Order(root, kids))
    ensures forall i :: 0 <= i < |Order(root, kids)| ==> Order(root, kids)[i] in Dirs(Whole(root, kids))
  {
    RootApart(root, kids);
    PreorderOnce(kids, root, root.child);
    PreorderDirs(kids, root);
    JoinOnce(root, Preorder(kids), []);
    assert [root] + Preorder(kids) + [] == Order(root, kids);
    forall i | 0 <= i < |Order(root, kids)| ensures Order(root, kids)[i] in Dirs(Whole(root, kids)) {
      if i > 0 {
        PreorderDirs(kids, Preorder(kids)[i - 1]);
      }
    }
  }

  /** Popping the stack from its tail meets every child before its parent. */
  lemma NextFromTail(root: Dir, kids: Forest, n: nat, done: set<Dir>)
    requires Rooted(root, kids) && n < |Order(root, kids)|
    requires done == Elements(Order(root, kids)[n + 1..])
    ensures var d := Order(root, kids)[n];
            && d in Dirs(Whole(root, kids)) && d !in done && Dirs(Kids(Whole(root, kids), d)) <= done
            && (d.parent != null ==> d.parent in Dirs(Whole(root, kids)) && d.parent !in done && d.parent != d)
  {
    var order, f := Order(root, kids), Whole(root, kids);
    var d := order[n];
    OrderFacts(root, kids);
    forall y | y in Dirs(Kids(f, d)) ensures y in done {
      BelowComesLater(root, kids, n, y);
    }
    if d.parent != null {
      KidsOfKid(root, kids, d);
      if d.parent in done || d.parent == d {
        var j :| n <= j < |order| && order[j] == d.parent;
        BelowComesLater(root, kids, j, d);
        assert false;
      }
    }
  }

  lemma AllSettled(f: Forest, own: Own, done: set<Dir>)
    requires Progress(f, own, done) && Dirs(f) <= done
    ensures forall d, k | d in Dirs(f) :: Get(d.tot, k) == Total(own, k, d, Kids(f, d)) % Modulus(k)
  {
    hide Get, Modulus, Total, PassedSoFar, Kids, Dirs;
  }

  lemma OrderElements(root: Dir, kids: Forest, n: nat)
    requires n < |Order(root, kids)|
    ensures Elements(Order(root, kids)[n + 1..]) + {Order(root, kids)[n]} == Elements(Order(root, kids)[n..])
  {
    hide Order;
    assert Order(root, kids)[n..] == [Order(root, kids)[n]] + Order(root, kids)[n + 1..];
  }

  lemma WalkBegins(root: Dir, kids: Forest, stack: seq<Dir>)
    requires Rooted(root, kids) && stack == [root] + Preorder(kids)
    requires forall d | d in Dirs(Whole(root, kids)) :: d.tot == Counts(0, 0, 0, 0, 0)
    ensures stack == Order(root, kids) && Elements(stack[|stack|..]) == {}
    ensures Progress(Whole(root, kids), CurrentCounts(Whole(root, kids)), {})
  {
    NothingDone(Whole(root, kids), CurrentCounts(Whole(root, kids)));
  }

  lemma AllInFull(f: Forest, own: Own)
    requires forall d, k | d in Dirs(f) :: Get(d.tot, k) == Total(own, k, d, Kids(f, d)) % Modulus(k)
    ensures forall d | d in Dirs(f) :: Sums(d.tot, own, d, Kids(f, d))
  {
    forall d | d in Dirs(f) ensures Sums(d.tot, own, d, Kids(f, d)) {
      TotalsInFull(d.tot, own, d, Kids(f, d));
    }
  }

  /** Every directory's totals end up right for its whole subtree, counter by counter; module DirMeaning says more of
      what Total means. */
  method UpdateTreeStat(root: Dir, ghost kids: Forest, ghost nodes: set<Dir>)
    requires Rooted(root, kids) && nodes == Dirs(Whole(root, kids))
    requires forall d | d in nodes :: d.tot == Counts(0, 0, 0, 0, 0)
    modifies nodes`tot
    ensures forall d, k | d in nodes ::
              Get(d.tot, k) == Total(CurrentCounts(Whole(root, kids)), k, d, Kids(Whole(root, kids), d)) % Modulus(k)
    ensures forall d | d in nodes ::
              Sums(d.tot, CurrentCounts(Whole(root, kids)), d, Kids(Whole(root, kids), d))
  {
    RootApart(root, kids);
    var stack := FillDfsStack(root, [], kids);
    ghost var f, order, done := Whole(root, kids), stack, {};
    ghost var own := CurrentCounts(f);
    WalkBegins(root, kids, stack);
    hide Get, Modulus, Total, Kids, Progress, Elements, Order, Preorder, PassedSoFar, Shape, Rooted;
    while stack != []
      invariant stack <= order && done == Elements(order[|stack|..])
      invariant Rooted(root, kids) && Progress(f, own, done)
      decreases |stack|
    {
      var d := stack[|stack| - 1];
      stack := stack[..|stack| - 1];
      NextFromTail(root, kids, |stack|, done);
      Settle(d, root, kids, nodes, own, done);
      OrderElements(root, kids, |stack|);
      done := done + {d};
    }
    OrderCovers(root, kids);
    assert order[0..] == order;
    AllSettled(f, own, done);
    hide Sums;
    AllInFull(f, own);
  }
}
