/** A doubly linked list with a head node of its own, against the sequence of its nodes. */
module LinkedList {

  class Node {
    var pre: Node?
    var next: Node?

    constructor ()
      ensures pre == null && next == null
    {
      pre, next := null, null;
    }
  }

  function Before(items: seq<Node>, head: Node, i: int): Node {
    if 0 < i <= |items| then items[i - 1] else head
  }

  function After(items: seq<Node>, i: int): Node? {
    if 0 <= i < |items| - 1 then items[i + 1] else null
  }

  predicate Different(items: seq<Node>) {
    forall i, j :: 0 <= i < j < |items| ==> items[i] != items[j]
  }

  function Last(items: seq<Node>, head: Node): Node {
    if items == [] then head else items[|items| - 1]
  }

  /** The second node, the one whose link back changes when the first is taken off. */
  function Second(items: seq<Node>): set<Node> {
    if |items| > 1 then {items[1]} else {}
  }

  /** The first k nodes are in one sequence and the others in the other. */
  predicate Parted(was: seq<Node>, k: int, done: seq<Node>, rest: seq<Node>) {
    0 <= k <= |was| && done == was[..k] && rest == was[k..]
  }

  lemma PartNext(was: seq<Node>, k: int, done: seq<Node>, rest: seq<Node>)
    requires Parted(was, k, done, rest) && rest != []
    ensures k < |was| && Parted(was, k + 1, done + [rest[0]], rest[1..])
    ensures |rest| > 1 ==> rest[1] in was
  {
  }

  lemma PartEnd(was: seq<Node>, k: int, done: seq<Node>, rest: seq<Node>)
    requires Parted(was, k, done, rest) && rest == []
    ensures done == was
  {
  }

  function Reverse(items: seq<Node>): seq<Node> {
    if items == [] then [] else Reverse(items[1..]) + [items[0]]
  }

  lemma {:induction false} ReverseLast(items: seq<Node>)
    requires items != []
    ensures Reverse(items) == [items[|items| - 1]] + Reverse(items[..|items| - 1])
  {
    if |items| > 1 {
      ReverseLast(items[1..]);
      assert items[1..][..|items| - 2] == items[..|items| - 1][1..];
    }
  }

  class List {
    const head: Node
    var tail: Node
    var count: int
    ghost var items: seq<Node>

    /** Links forwards and backwards, tail and count, all follow the sequence of nodes. */
    ghost predicate Valid()
      reads this, head, items
    {
      && Different(items) && head !in items
      && (forall i :: 0 <= i < |items| ==> items[i].pre == Before(items, head, i) && items[i].next == After(items, i))
      && head.next == Before(items, head, 1) && tail == Last(items, head)
      && count == |items| < 0x1_0000_0000
    }

    constructor ()
      ensures Valid() && items == [] && fresh(head)
    {
      head := new Node();
      tail, count, items := head, 0, [];
      new;
      Init();
    }

    method Init()
      modifies this, head
      ensures Valid() && items == []
    {
      head.next, head.pre := head, head;
      tail, count, items := head, 0, [];
    }

    function First(): Node?
      reads this, head
    {
      if count == 0 then null else head.next
    }

    function LastNode(): Node?
      reads this
    {
      if count == 0 then null else tail
    }

    function Next(n: Node): Node?
      reads this, head, n
    {
      if n.next == head then null else n.next
    }

    method AddTail(n: Node)
      requires Valid() && n !in items && n != head && |items| < 0xFFFF_FFFF
      modifies this, tail`next, n
      ensures Valid() && items == old(items) + [n]
    {
      ghost var was := items;
      tail.next := n;
      n.next := null;
      n.pre := tail;
      tail := n;
      count := (count + 1) % 0x1_0000_0000;
      items := was + [n];
      forall i | 0 <= i < |items| ensures items[i].pre == Before(items, head, i) && items[i].next == After(items, i) {
        if i < |was| {
          assert items[i] == was[i] && was[i].pre == Before(was, head, i);
        }
      }
    }

    method DelHead()
      requires Valid()
      modifies this, head, Second(items)
      ensures Valid() && items == if old(items) == [] then [] else old(items)[1..]
    {
      var first := First();
      if first != null {
        if count == 1 {
          Init();
        } else {
          ghost var was := items;
          assert first == was[0] && first.next == was[1];
          first.next.pre := head;
          head.next := first.next;
          count := count - 1;
          items := was[1..];
          forall i | 0 <= i < |items|
            ensures items[i].pre == Before(items, head, i) && items[i].next == After(items, i)
          {
            assert items[i] == was[i + 1] && was[i + 1].next == After(was, i + 1);
          }
        }
      }
    }

    method DelTail()
      requires Valid()
      modifies this, head, items
      ensures Valid() && items == if old(items) == [] then [] else old(items)[..|old(items)| - 1]
    {
      var last := LastNode();
      if last != null {
        if count == 1 {
          Init();
        } else {
          ghost var was := items;
          LastLink();
          Cut(last.pre);
        }
      }
    }

    lemma LastLink()
      requires Valid() && |items| > 1
      ensures tail.pre == items[|items| - 2] && tail != head
    {
      assert tail == items[|items| - 1];
    }

    /** The last node but one becomes the last. */
    method Cut(n: Node)
      requires Valid() && |items| > 1 && n == items[|items| - 2]
      modifies this`tail, this`count, this`items, n`next
      ensures Valid() && items == old(items)[..|old(items)| - 1]
    {
      ghost var was := items;
      n.next := null;
      tail := n;
      count := count - 1;
      items := was[..|was| - 1];
      assert forall i :: 0 <= i < |items| ==> items[i] == was[i];
    }

    /** Takes the nodes off one by one and releases each. */
    method Free() returns (freed: seq<Node>)
      requires Valid()
      modifies this, head, items
      ensures Valid() && items == [] && freed == old(items) && Different(freed)
    {
      FirstIs();
      hide *;
      ghost var was, k := items, 0;
      freed := [];
      var first := First();
      while first != null
        invariant Valid() && 0 <= k <= |was| && Parted(was, k, freed, items)
        invariant first == if items == [] then null else items[0]
        decreases |items|
      {
        PartNext(was, k, freed, items);
        var node: Node := first;
        first := TakeFirst(node);
        freed := freed + [node];
        k := k + 1;
      }
      PartEnd(was, k, freed, items);
    }

    method TakeFirst(first: Node) returns (next: Node?)
      requires Valid() && items != [] && first == items[0]
      modifies this, head, Second(items)
      ensures Valid() && items == old(items)[1..]
      ensures next == if items == [] then null else items[0]
    {
      hide *;
      DelHead();
      FirstIs();
      next := First();
    }

    lemma FirstIs()
      requires Valid()
      ensures First() == (if items == [] then null else items[0]) && Different(items)
    {
    }

    /** Walking the next links from the first node on meets the sequence. */
    method Forwards() returns (seen: seq<Node>)
      requires Valid()
      ensures seen == items
    {
      seen := [];
      var n := First();
      while n != null
        invariant |seen| <= |items| && seen == items[..|seen|]
        invariant n == if |seen| < |items| then items[|seen|] else null
        decreases |items| - |seen|
      {
        assert n == items[|seen|] && n.next == After(items, |seen|);
        seen := seen + [n];
        n := Next(n);
      }
    }

    lemma BackLink(k: int, n: Node)
      requires Valid() && 0 <= k <= |items| && n == Before(items, head, k) && n != head
      ensures k > 0 && n == items[k - 1] && n.pre == Before(items, head, k - 1)
      ensures Reverse(items[..k]) == [n] + Reverse(items[..k - 1])
    {
      ReverseLast(items[..k]);
      assert items[..k][..k - 1] == items[..k - 1];
    }

    lemma BackEnd(k: int)
      requires Valid() && 0 <= k <= |items| && Before(items, head, k) == head
      ensures k == 0 && Reverse(items[..0]) == []
    {
    }

    /** Walking the links back from the tail to the head node meets its reverse. */
    method Backwards() returns (seen: seq<Node>)
      requires Valid()
      ensures seen == Reverse(items)
    {
      seen := [];
      var n := tail;
      ghost var k := |items|;
      assert items[..k] == items;
      while n != head
        invariant 0 <= k <= |items| && n == Before(items, head, k)
        invariant seen + Reverse(items[..k]) == Reverse(items)
        decreases k
      {
        hide *;
        BackLink(k, n);
        seen := seen + [n];
        n := n.pre;
        k := k - 1;
      }
      BackEnd(k);
    }
  }
}
