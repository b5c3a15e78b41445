/** The intrusive doubly linked ring of rt-thread/include/rtservice.h that timers, thread lists
    and the scheduler are built on. A head node and the nodes behind it form a ring; the other
    modules use it as the sequence of those nodes. */
module RingList {

  class Node {
    var next: Node
    var prev: Node

    /** rt_list_init: a node alone is its own ring. */
    constructor ()
      ensures next == this && prev == this
    {
      next, prev := this, this;
    }
  }

  ghost predicate NoDup(ring: seq<Node>) {
    forall i, j :: 0 <= i < j < |ring| ==> ring[i] != ring[j]
  }

  ghost predicate Linked(a: Node, b: Node)
    reads a, b
  {
    a.next == b && b.prev == a
  }

  /** ring, head first, is closed under next and prev. */
  ghost predicate IsRing(ring: seq<Node>)
    reads ring
  {
    && ring != [] && NoDup(ring)
    && forall i :: 0 <= i < |ring| ==> Linked(ring[i], Following(ring, i))
  }

  function Following(ring: seq<Node>, i: nat): Node
    requires i < |ring|
  {
    if i + 1 < |ring| then ring[i + 1] else ring[0]
  }

  /** What hangs behind the head. */
  ghost function Items(ring: seq<Node>): seq<Node>
    requires ring != []
  {
    ring[1..]
  }

  /** rt_list_insert_after, with l the k-th node of its ring. */
  method InsertAfter(l: Node, n: Node, ghost ring: seq<Node>, ghost k: nat)
    requires IsRing(ring) && k < |ring| && ring[k] == l && n !in ring
    modifies ring, n
    ensures IsRing(ring[..k + 1] + [n] + ring[k + 1..])
  {
    ghost var after := ring[..k + 1] + [n] + ring[k + 1..];
    assert Linked(ring[k], Following(ring, k)) && Following(ring, k) in ring;
    l.next.prev := n;
    n.next := l.next;
    l.next := n;
    n.prev := l;
    forall i | 0 <= i < |after|
      ensures Linked(after[i], Following(after, i))
    {
      if i < k {
        assert old(Linked(ring[i], Following(ring, i)));
      } else if i > k + 1 {
        assert old(Linked(ring[i - 1], Following(ring, i - 1)));
      }
    }
  }

  /** The place in front of the k-th node; in front of the head means at the end. */
  function Before(ring: seq<Node>, k: nat): (r: nat)
    requires k < |ring|
    ensures 0 < r <= |ring|
  {
    if k == 0 then |ring| else k
  }

  /** rt_list_insert_before, with l the k-th node of its ring. */
  method InsertBefore(l: Node, n: Node, ghost ring: seq<Node>, ghost k: nat)
    requires IsRing(ring) && k < |ring| && ring[k] == l && n !in ring
    modifies ring, n
    ensures IsRing(ring[..Before(ring, k)] + [n] + ring[Before(ring, k)..])
  {
    ghost var at := Before(ring, k);
    ghost var after := ring[..at] + [n] + ring[at..];
    assert Linked(ring[at - 1], Following(ring, at - 1)) && Following(ring, at - 1) == l;
    hide Before;
    l.prev.next := n;
    n.prev := l.prev;
    l.prev := n;
    n.next := l;
    forall i | 0 <= i < |after|
      ensures Linked(after[i], Following(after, i))
    {
      if i < at - 1 {
        assert old(Linked(ring[i], Following(ring, i)));
      } else if i > at {
        assert old(Linked(ring[i - 1], Following(ring, i - 1)));
      }
    }
  }

  function Preceding(ring: seq<Node>, k: nat): nat
    requires k < |ring|
  {
    if k > 0 then k - 1 else |ring| - 1
  }

  /** rt_list_remove of any node, alone or not; it ends up alone, and the others stay a ring. */
  method Remove(n: Node, ghost ring: seq<Node>, ghost k: nat)
    requires IsRing(ring) && k < |ring| && ring[k] == n
    modifies ring
    ensures IsRing([n]) && (|ring| > 1 ==> IsRing(ring[..k] + ring[k + 1..]))
  {
    ghost var after := ring[..k] + ring[k + 1..];
    ghost var p := Preceding(ring, k);
    assert Linked(ring[p], Following(ring, p)) && Linked(ring[k], Following(ring, k));
    assert Following(ring, k) in ring && Following(ring, p) == n;
    n.next.prev := n.prev;
    n.prev.next := n.next;
    n.next, n.prev := n, n;
    if |ring| > 1 {
      assert Linked(ring[p], Following(ring, k));
      forall i | 0 <= i < |after|
        ensures Linked(after[i], Following(after, i))
      {
        var was := if i < k then i else i + 1;
        assert after[i] == ring[was] && Following(after, i) == Following(ring, if was == p then k else was);
        if was != p {
          assert old(Linked(ring[was], Following(ring, was)));
        }
      }
    }
  }

  /** rt_list_isempty. */
  method IsEmpty(l: Node, ghost ring: seq<Node>) returns (r: bool)
    requires IsRing(ring) && ring[0] == l
    ensures r <==> Items(ring) == []
  {
    r := l.next == l;
    assert Linked(ring[0], Following(ring, 0));
  }

  /** rt_list_len. */
  method Len(l: Node, ghost ring: seq<Node>) returns (len: nat)
    requires IsRing(ring) && ring[0] == l
    ensures len == |Items(ring)|
  {
    len := 0;
    var p := l;
    while p.next != l
      invariant len < |ring| && p == ring[len]
      decreases |ring| - len
    {
      assert Linked(ring[len], Following(ring, len));
      p := p.next;
      len := len + 1;
    }
    assert Linked(ring[len], Following(ring, len));
  }
}
