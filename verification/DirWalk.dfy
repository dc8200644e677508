/** The stackless depth-first walk over a directory tree. */
module DirWalk {
  import opened DirNodes

  /** Ghost context of the walk: the ancestors below top, innermost first, each with its later
      siblings, which are still to be visited. */
  datatype Context = Top | Under(dir: Dir, later: Forest, outer: Context)

  ghost function Owner(c: Context, top: Dir): Dir {
    match c
    case Top => top
    case Under(d, _, _) => d
  }

  ghost function ContextDirs(c: Context): set<Dir> {
    match c
    case Top => {}
    case Under(d, later, outer) => {d} + Dirs(later) + ContextDirs(outer)
  }

  ghost predicate ContextShape(c: Context, top: Dir)
    reads ContextDirs(c)`parent, ContextDirs(c)`next, ContextDirs(c)`child
  {
    match c
    case Top => true
    case Under(d, later, outer) =>
      && d.parent == Owner(outer, top)
      && Shape(later, Owner(outer, top), d.next)
      && ContextShape(outer, top)
  }

  ghost function Pending(c: Context): seq<Dir> {
    match c
    case Top => []
    case Under(_, later, outer) => Preorder(later) + Pending(outer)
  }

  /** Climbs from a node without children or later siblings to the last ancestor-or-self whose
      parent is top or has a later sibling. */
  method Climb(node: Dir, top: Dir, ghost context: Context) returns (cur: Dir, ghost context': Context)
    requires node.parent == Owner(context, top) && ContextShape(context, top) && top !in ContextDirs(context)
    ensures cur.parent == Owner(context', top) && ContextShape(context', top) && top !in ContextDirs(context')
    ensures Pending(context') == Pending(context)
    ensures context' == Top <==> cur.parent == top
    ensures context' != Top ==> context'.later.Cons?
  {
    cur, context' := node, context;
    while top != cur.parent && cur.parent.next == null
      invariant cur.parent == Owner(context', top) && ContextShape(context', top) && top !in ContextDirs(context')
      invariant Pending(context') == Pending(context)
      decreases context'
    {
      cur, context' := cur.parent, context'.outer;
    }
  }

  /** What the walk still has to push when it stands at the head of `here`. */
  ghost function Todo(here: Forest, context: Context): seq<Dir> {
    Preorder(here) + Pending(context)
  }

  ghost predicate At(cur: Dir, top: Dir, here: Forest, context: Context)
    reads Dirs(here)`parent, Dirs(here)`next, Dirs(here)`child
    reads ContextDirs(context)`parent, ContextDirs(context)`next, ContextDirs(context)`child
  {
    && here.Cons? && Shape(here, Owner(context, top), cur) && ContextShape(context, top)
    && top !in Dirs(here) && top !in ContextDirs(context)
  }

  /** The directory after cur: its first child, its next sibling, or that of an ancestor. */
  method Successor(cur: Dir, top: Dir, ghost here: Forest, ghost context: Context)
    returns (succ: Dir?, ghost here': Forest, ghost context': Context)
    requires At(cur, top, here, context)
    ensures succ == null ==> Todo(here, context) == [cur]
    ensures succ != null ==> At(succ, top, here', context') && Todo(here, context) == [cur] + Todo(here', context')
  {
    here', context' := here, context;
    ghost var kids, later := here.kids, here.rest;
    assert Shape(kids, cur, cur.child) && Shape(later, Owner(context, top), cur.next);
    assert Todo(here, context) == [cur] + (Preorder(kids) + (Preorder(later) + Pending(context)));
    if cur.child != null {
      context' := Under(cur, later, context);
      here' := kids;
      succ := cur.child;
    } else if cur.next != null {
      here' := later;
      succ := cur.next;
    } else {
      var last;
      last, context' := Climb(cur, top, context);
      if top == last.parent {
        assert Preorder(kids) + (Preorder(later) + Pending(context)) == [];
        succ := null;
      } else {
        assert Preorder(kids) + (Preorder(later) + Pending(context)) == Pending(context');
        here', context' := context'.later, context'.outer;
        assert Shape(here', Owner(context', top), last.parent.next);
        succ := last.parent.next;
      }
    }
  }

  /** Pushes top and then every directory below it in preorder. */
  method FillDfsStack(top: Dir, queue: seq<Dir>, ghost kids: Forest) returns (stack: seq<Dir>)
    requires Shape(kids, top, top.child) && top !in Dirs(kids)
    ensures stack == queue + [top] + Preorder(kids)
  {
    stack := queue + [top];
    var cur := top.child;
    ghost var here, context := kids, Top;
    ghost var order, n := Preorder(kids), 0;
    assert cur != null ==> order == Todo(here, context);
    while cur != null
      invariant n <= |order| && stack == queue + [top] + order[..n]
      invariant if cur == null then n == |order| else At(cur, top, here, context) && Todo(here, context) == order[n..]
      decreases |order| - n
    {
      stack := stack + [cur];
      cur, here, context := Successor(cur, top, here, context);
      n := n + 1;
    }
  }
}
