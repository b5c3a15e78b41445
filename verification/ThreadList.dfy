/** A suspended-thread list of rt-thread/src/ipc.c on its links: the ring of thread nodes behind
    the object's head does what the list operations of WaitList say. */
module ThreadList {
  import opened RingList
  import opened WaitList

  /** rt_list_entry of every node behind the head. */
  ghost predicate Known(ring: seq<Node>, threads: map<Node, Waiter>) {
    forall i :: 0 < i < |ring| ==> ring[i] in threads
  }

  ghost function Entries(ring: seq<Node>, threads: map<Node, Waiter>): (r: seq<Waiter>)
    requires ring != [] && Known(ring, threads)
    ensures |r| == |ring| - 1 && forall i :: 0 <= i < |r| ==> r[i] == threads[ring[i + 1]]
  {
    seq(|ring| - 1, i requires 0 <= i < |ring| - 1 => threads[ring[i + 1]])
  }

  /** A node that enters in front of the k-th one, or of the head. */
  function With(ring: seq<Node>, k: nat, n: Node): seq<Node>
    requires k < |ring|
  {
    ring[..Before(ring, k)] + [n] + ring[Before(ring, k)..]
  }

  /** The same on the threads behind the head. */
  function Placed(list: seq<Waiter>, k: nat, w: Waiter): seq<Waiter>
    requires k <= |list|
  {
    if k == 0 then list + [w] else list[..k - 1] + [w] + list[k - 1..]
  }

  lemma EntriesWith(ring: seq<Node>, threads: map<Node, Waiter>, k: nat, n: Node, w: Waiter)
    requires Known(ring, threads) && k < |ring| && n !in ring
    ensures Known(With(ring, k, n), threads[n := w])
    ensures var list := Entries(ring, threads);
            Entries(With(ring, k, n), threads[n := w]) == Placed(list, k, w)
    ensures forall x :: x in With(ring, k, n) <==> x in ring || x == n
  {
    hide Entries;
    var list, after := Entries(ring, threads), With(ring, k, n);
    var now := Entries(after, threads[n := w]);
    var want := Placed(list, k, w);
    assert |now| == |want|;
    forall i | 0 <= i < |now|
      ensures now[i] == want[i]
    {
    }
  }

  lemma EntriesLess(ring: seq<Node>, threads: map<Node, Waiter>, k: nat)
    requires Known(ring, threads) && 0 < k < |ring|
    ensures var less := ring[..k] + ring[k + 1..];
            Known(less, threads) &&
                Entries(less, threads) == Entries(ring, threads)[..k - 1] + Entries(ring, threads)[k..]
  {
    hide Entries;
    var less := ring[..k] + ring[k + 1..];
    var now, want := Entries(less, threads), Entries(ring, threads)[..k - 1] + Entries(ring, threads)[k..];
    assert |now| == |want|;
    forall i | 0 <= i < |now|
      ensures now[i] == want[i]
    {
    }
  }

  /** The k-th node is the first behind the head whose thread is less urgent than w. */
  ghost predicate UrgentUpTo(ring: seq<Node>, threads: map<Node, Waiter>, w: Waiter, k: nat)
    requires Known(ring, threads) && 0 < k <= |ring|
  {
    && (forall i :: 0 < i < k ==> threads[ring[i]].prio <= w.prio)
    && (k < |ring| ==> w.prio < threads[ring[k]].prio)
  }

  lemma EntersThere(ring: seq<Node>, threads: map<Node, Waiter>, w: Waiter, k: nat)
    requires Known(ring, threads) && 0 < k <= |ring| && UrgentUpTo(ring, threads, w, k)
    ensures var list := Entries(ring, threads);
            InsertByPriority(list, w) == Placed(list, if k < |ring| then k else 0, w)
  {
    hide Entries;
    var list := Entries(ring, threads);
    InsertAt(list, w, k - 1);
    if k == |ring| {
      assert list[..k - 1] == list && list[k - 1..] == [];
    }
  }

  lemma RingNext(ring: seq<Node>, k: nat)
    requires IsRing(ring) && k < |ring|
    ensures ring[k].next == if k + 1 < |ring| then ring[k + 1] else ring[0]
  {
    assert Linked(ring[k], Following(ring, k));
  }

  class ThreadList {
    const head: Node
    var threads: map<Node, Waiter>   // rt_list_entry: whose node it is
    ghost var ring: seq<Node>

    ghost predicate Valid()
      reads this, ring
    {
      IsRing(ring) && ring[0] == head && Known(ring, threads)
    }

    /** The suspended threads, first to be resumed first. */
    ghost function Waiters(): (r: seq<Waiter>)
      requires Valid()
      reads this, ring
    {
      Entries(ring, threads)
    }

    constructor ()
      ensures Valid() && Waiters() == [] && fresh(head) && fresh(ring)
    {
      head := new Node();
      threads := map[];
      new;
      ring := [head];
    }

    /** The node comes in front of the k-th node of the ring; in front of the head means at the end. */
    method Enter(n: Node, w: Waiter, at: Node, ghost k: nat)
      requires Valid() && n !in ring && k < |ring| && ring[k] == at
      modifies this`threads, this`ring, ring, n
      ensures Valid() && threads == old(threads)[n := w] && ring == With(old(ring), k, n)
      ensures Waiters() == Placed(old(Waiters()), k, w)
      ensures forall x :: x in ring <==> x in old(ring) || x == n
    {
      hide IsRing, Known, Entries, Placed;
      EntriesWith(ring, threads, k, n, w);
      InsertBefore(at, n, ring, k);
      threads := threads[n := w];
      ring := With(ring, k, n);
    }

    /** The search of _ipc_list_suspend: the first less urgent thread, or the head. */
    method FirstLessUrgent(w: Waiter) returns (p: Node, ghost k: nat)
      requires Valid()
      ensures 0 < k <= |ring| && p == (if k < |ring| then ring[k] else head) && UrgentUpTo(ring, threads, w, k)
    {
      k := 1;
      RingNext(ring, 0);
      p := head.next;
      while p != head
        invariant 0 < k <= |ring| && p == (if k < |ring| then ring[k] else head)
        invariant forall i :: 0 < i < k ==> threads[ring[i]].prio <= w.prio
        decreases |ring| - k
      {
        if w.prio < threads[p].prio {
          return;
        }
        RingNext(ring, k);
        p := p.next;
        k := k + 1;
      }
    }

    /** _ipc_list_suspend: at the end, or in front of the first less urgent thread. */
    method Suspend(n: Node, w: Waiter, order: Order)
      requires Valid() && n !in ring
      modifies this`threads, this`ring, ring, n
      ensures Valid() && Waiters() == Insert(old(Waiters()), w, order)
      ensures forall x :: x in ring <==> x in old(ring) || x == n
    {
      assert ring[0] == head;
      hide Entries, IsRing, Known, UrgentUpTo, With;
      match order
      case Fifo =>
        Enter(n, w, head, 0);
      case Prio =>
        var p, k := FirstLessUrgent(w);
        EntersThere(ring, threads, w, k);
        Enter(n, w, p, if k < |ring| then k else 0);
    }

    /** What rt_thread_resume and the thread timer do to the list: the thread's node leaves it,
        wherever it stands. */
    method Leave(n: Node, ghost k: nat)
      requires Valid() && 0 < k < |ring| && ring[k] == n
      modifies this`ring, ring
      ensures Valid() && ring == old(ring)[..k] + old(ring)[k + 1..] && IsRing([n])
      ensures Waiters() == old(Waiters())[..k - 1] + old(Waiters())[k..]
    {
      hide IsRing, Known, Entries;
      EntriesLess(ring, threads, k);
      Remove(n, ring, k);
      ring := ring[..k] + ring[k + 1..];
    }

    method Empty() returns (r: bool)
      requires Valid()
      ensures r <==> Waiters() == []
    {
      r := IsEmpty(head, ring);
    }

    /** _ipc_list_resume: the first thread. */
    method Resume() returns (w: Waiter)
      requires Valid() && Waiters() != []
      modifies this`ring, ring
      ensures Valid() && w == old(Waiters())[0] && Waiters() == old(Waiters())[1..]
      ensures forall x :: x in ring ==> x in old(ring)
    {
      hide Entries;
      assert Linked(ring[0], Following(ring, 0));
      var first := head.next;
      w := threads[first];
      Leave(first, 1);
    }

    /** A thread whose waiting time is over. */
    method Expire(n: Node, ghost k: nat)
      requires Valid() && 0 < k < |ring| && ring[k] == n && Distinct(Waiters())
      modifies this`ring, ring
      ensures Valid() && Waiters() == Without(old(Waiters()), threads[n].tid)
    {
      hide Entries, IsRing;
      ghost var list := Waiters();
      assert list[k - 1] == threads[n];
      WithoutIs(list, threads[n].tid);
      assert Position(list, threads[n].tid) == k - 1;
      Leave(n, k);
    }

    /** _ipc_list_resume_all: every thread, first to last. */
    method ResumeAll() returns (woken: seq<Waiter>)
      requires Valid()
      modifies this`ring, ring
      ensures Valid() && Waiters() == [] && woken == old(Waiters())
    {
      hide Entries, IsRing, Known;
      woken := [];
      ghost var all, nodes := Waiters(), ring;
      var empty := Empty();
      while !empty
        invariant Valid() && threads == old(threads)
        invariant forall x :: x in ring ==> x in nodes
        invariant woken + Waiters() == all && empty == (Waiters() == [])
        decreases |Waiters()|
      {
        assert forall i :: 0 <= i < |ring| ==> ring[i] in old(ring);
        var w := Resume();
        woken := woken + [w];
        empty := Empty();
      }
    }
  }
}
