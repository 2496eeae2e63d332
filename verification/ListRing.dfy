/** The circular doubly linked list behind the message queue. */
module ListRing {

  class Node {
    var prev: Node?
    var next: Node?

    constructor ()
    {
      prev, next := null, null;
    }
  }

  ghost function After(ns: seq<Node>, i: int): (r: Node)
    requires 0 <= i < |ns|
  {
    if i + 1 < |ns| then ns[i + 1] else ns[0]
  }

  ghost predicate Distinct(ns: seq<Node>) {
    forall i, j :: 0 <= i < j < |ns| ==> ns[i] != ns[j]
  }

  /** The nodes form a ring in this order; the first one is the head, the others are the elements. */
  ghost predicate Ring(ns: seq<Node>)
    reads ns
  {
    && ns != [] && Distinct(ns)
    && forall i :: 0 <= i < |ns| ==> ns[i].next == After(ns, i) && After(ns, i).prev == ns[i]
  }

  method InitListHead(head: Node)
    modifies head
    ensures Ring([head])
  {
    head.prev := head;
    head.next := head;
  }

  /** Link `el` in between `prev` and `next`. */
  method Link(el: Node, prev: Node, next: Node)
    requires el != prev && el != next
    modifies el, prev, next
    ensures prev.next == el && el.prev == prev && el.next == next && next.prev == el
    ensures prev != next ==> prev.prev == old(prev.prev) && next.next == old(next.next)
  {
    prev.next := el;
    el.prev := prev;
    el.next := next;
    next.prev := el;
  }

  /** Add an element at the end, before the head. */
  method ListAddTail(el: Node, head: Node, ghost ns: seq<Node>)
    requires Ring(ns) && ns[0] == head && el !in ns
    modifies el, ns
    ensures Ring(ns + [el])
  {
    var last := head.prev;
    assert After(ns, |ns| - 1) == head;
    assert last == ns[|ns| - 1];
    Link(el, last, head);
    ghost var r := ns + [el];
    forall i | 0 <= i < |r|
      ensures r[i].next == After(r, i) && After(r, i).prev == r[i]
    {
      if i < |ns| - 1 {
        assert After(ns, i) == ns[i + 1] && ns[i] != last && ns[i + 1] != head;
      }
    }
  }

  /** Remove an element. */
  method ListDel(el: Node, ghost ns: seq<Node>, ghost k: int)
    requires Ring(ns) && 0 < k < |ns| && ns[k] == el
    modifies ns
    ensures Ring(ns[..k] + ns[k + 1..])
    ensures el.prev == null && el.next == null
  {
    assert After(ns, k - 1) == el;
    var prev, next := el.prev, el.next;
    assert prev == ns[k - 1] && next == After(ns, k);
    prev.next := next;
    next.prev := prev;
    el.prev := null;
    el.next := null;
    ghost var r := ns[..k] + ns[k + 1..];
    forall i | 0 <= i < |r|
      ensures r[i].next == After(r, i) && After(r, i).prev == r[i]
    {
      if i == k - 1 {
        assert After(r, i) == next;
      } else {
        var j := if i < k then i else i + 1;
        assert r[i] == ns[j] && After(ns, j) == After(r, i);
        assert ns[j] != prev && ns[j] != el && After(ns, j) != next && After(ns, j) != el;
      }
    }
  }

  method ListEmpty(head: Node, ghost ns: seq<Node>) returns (r: bool)
    requires Ring(ns) && ns[0] == head
    ensures r <==> ns[1..] == []
  {
    r := head.next == head;
    assert ns[0].next == After(ns, 0);
  }

  /** The first element. */
  method ListFirst(head: Node, ghost ns: seq<Node>) returns (el: Node)
    requires Ring(ns) && ns[0] == head && ns[1..] != []
    ensures el == ns[1]
  {
    assert ns[0].next == After(ns, 0);
    el := head.next;
  }
}
