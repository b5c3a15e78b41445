/** The suspended-thread lists of rt-thread/src/ipc.c: _ipc_list_suspend, _ipc_list_resume,
    and what a timeout does to a list. A list is the sequence of its threads, head first;
    each carries the priority it is queued with (smaller is more urgent). */
module WaitList {

  datatype Order = Fifo | Prio

  datatype Waiter = Waiter(tid: nat, prio: nat)

  datatype Option<T> = None | Some(value: T)

  function Insert(list: seq<Waiter>, w: Waiter, order: Order): seq<Waiter> {
    if order == Fifo then list + [w] else InsertByPriority(list, w)
  }

  function InsertByPriority(list: seq<Waiter>, w: Waiter): seq<Waiter> {
    if list == [] then [w]
    else if w.prio < list[0].prio then [w] + list
    else [list[0]] + InsertByPriority(list[1..], w)
  }

  /** The loop of _ipc_list_suspend: stop in front of the first less urgent thread. */
  method Suspend(list: seq<Waiter>, w: Waiter, order: Order) returns (r: seq<Waiter>)
    ensures r == Insert(list, w, order)
  {
    match order
    case Fifo =>
      r := list + [w];
    case Prio =>
      var n := 0;
      while n < |list| && !(w.prio < list[n].prio)
        invariant n <= |list|
        invariant forall i :: 0 <= i < n ==> list[i].prio <= w.prio
      {
        n := n + 1;
      }
      InsertAt(list, w, n);
      r := list[..n] + [w] + list[n..];
  }

  lemma {:induction false} InsertAt(list: seq<Waiter>, w: Waiter, n: nat)
    requires n <= |list| && (forall i :: 0 <= i < n ==> list[i].prio <= w.prio)
    requires n < |list| ==> w.prio < list[n].prio
    ensures InsertByPriority(list, w) == list[..n] + [w] + list[n..]
  {
    if n > 0 {
      InsertAt(list[1..], w, n - 1);
      assert list[..n] == [list[0]] + list[1..][..n - 1];
    }
  }

  /** Whatever the order, the thread is on the list afterwards, and everyone else still is. */
  lemma Joins(list: seq<Waiter>, w: Waiter, order: Order)
    ensures forall x :: x in Insert(list, w, order) <==> x == w || x in list
  {
    InsertMembers(list, w);
  }

  ghost predicate Sorted(list: seq<Waiter>) {
    forall i, j :: 0 <= i < j < |list| ==> list[i].prio <= list[j].prio
  }

  ghost function Tids(list: seq<Waiter>): (r: set<nat>)
    ensures forall i :: 0 <= i < |list| ==> list[i].tid in r
  {
    set i | 0 <= i < |list| :: list[i].tid
  }

  ghost predicate Distinct(list: seq<Waiter>) {
    forall i, j :: 0 <= i < j < |list| ==> list[i].tid != list[j].tid
  }

  /** The threads of one priority, in list order. */
  ghost function OfPriority(list: seq<Waiter>, p: nat): seq<Waiter> {
    if list == [] then []
    else (if list[0].prio == p then [list[0]] else []) + OfPriority(list[1..], p)
  }

  lemma SortedCons(x: Waiter, rest: seq<Waiter>)
    requires Sorted(rest) && forall y :: y in rest ==> x.prio <= y.prio
    ensures Sorted([x] + rest)
  {
  }

  lemma DistinctCons(x: Waiter, rest: seq<Waiter>)
    ensures Distinct([x] + rest) <==> Distinct(rest) && x.tid !in Tids(rest)
    ensures Tids([x] + rest) == {x.tid} + Tids(rest)
  {
    var list := [x] + rest;
    TidsOfAppend([x], rest);
    TidsOfOne(x);
    if Distinct(rest) && x.tid !in Tids(rest) {
      assert forall i :: 0 <= i < |rest| ==> rest[i].tid in Tids(rest);
    }
    if Distinct(list) {
      forall i, j | 0 <= i < j < |rest|
        ensures rest[i].tid != rest[j].tid
      {
        assert list[i + 1].tid != list[j + 1].tid;
      }
      forall i | 0 <= i < |rest|
        ensures rest[i].tid != x.tid
      {
        assert list[0].tid != list[i + 1].tid;
      }
    }
  }

  /** Queueing by priority keeps the list sorted. */
  lemma {:induction false} InsertKeepsSorted(list: seq<Waiter>, w: Waiter)
    requires Sorted(list)
    ensures Sorted(InsertByPriority(list, w))
  {
    if list != [] {
      assert list == [list[0]] + list[1..];
      if w.prio < list[0].prio {
        SortedCons(w, list);
      } else {
        InsertKeepsSorted(list[1..], w);
        InsertMembers(list[1..], w);
        SortedCons(list[0], InsertByPriority(list[1..], w));
      }
    }
  }

  /** Where a thread enters: in FIFO order at the end; in priority order in front of the first less
      urgent thread, behind all that are at least as urgent. */
  lemma EntersAt(list: seq<Waiter>, w: Waiter, order: Order) returns (k: nat)
    ensures k <= |list| && Insert(list, w, order) == list[..k] + [w] + list[k..]
    ensures order == Fifo ==> k == |list|
    ensures order == Prio ==>
            (forall i :: 0 <= i < k ==> list[i].prio <= w.prio) && (k < |list| ==> w.prio < list[k].prio)
  {
    if order == Fifo {
      k := |list|;
    } else {
      k := 0;
      while k < |list| && list[k].prio <= w.prio
        invariant k <= |list| && forall i :: 0 <= i < k ==> list[i].prio <= w.prio
      {
        k := k + 1;
      }
      InsertAt(list, w, k);
    }
  }

  /** Threads of equal priority stay in arrival order. */
  lemma {:induction false} InsertIsStable(list: seq<Waiter>, w: Waiter, p: nat)
    requires Sorted(list)
    ensures OfPriority(InsertByPriority(list, w), p) == OfPriority(list, p) + (if w.prio == p then [w] else [])
  {
    if list == [] {
    } else if w.prio < list[0].prio {
      NoneOfPriority(list, w.prio);
      assert ([w] + list)[1..] == list;
    } else {
      InsertIsStable(list[1..], w, p);
      var rest := InsertByPriority(list[1..], w);
      assert ([list[0]] + rest)[1..] == rest;
    }
  }

  lemma {:induction false} NoneOfPriority(list: seq<Waiter>, p: nat)
    requires forall i :: 0 <= i < |list| ==> p < list[i].prio
    ensures OfPriority(list, p) == []
  {
    if list != [] {
      NoneOfPriority(list[1..], p);
    }
  }

  lemma {:induction false} InsertMembers(list: seq<Waiter>, w: Waiter)
    ensures |InsertByPriority(list, w)| == |list| + 1
    ensures multiset(InsertByPriority(list, w)) == multiset(list) + multiset{w}
    ensures forall x :: x in InsertByPriority(list, w) <==> x == w || x in list
  {
    if list != [] {
      assert list == [list[0]] + list[1..];
      if !(w.prio < list[0].prio) {
        InsertMembers(list[1..], w);
      }
    }
  }

  lemma {:induction false} InsertDistinct(list: seq<Waiter>, w: Waiter, order: Order)
    requires Distinct(list) && w.tid !in Tids(list)
    ensures Distinct(Insert(list, w, order)) && Tids(Insert(list, w, order)) == Tids(list) + {w.tid}
    ensures |Insert(list, w, order)| == |list| + 1
  {
    hide Distinct, Tids;
    if order == Fifo {
      DistinctAppendOne(list, w);
    } else if list == [] || w.prio < list[0].prio {
      DistinctCons(w, list);
      assert [w] + list == InsertByPriority(list, w);
    } else {
      assert list == [list[0]] + list[1..];
      DistinctCons(list[0], list[1..]);
      InsertDistinct(list[1..], w, order);
      DistinctCons(list[0], InsertByPriority(list[1..], w));
    }
  }

  lemma DistinctAppendOne(list: seq<Waiter>, w: Waiter)
    requires Distinct(list) && w.tid !in Tids(list)
    ensures Distinct(list + [w]) && Tids(list + [w]) == Tids(list) + {w.tid}
  {
    TidsOfAppend(list, [w]);
    TidsOfOne(w);
    assert forall i :: 0 <= i < |list| ==> list[i].tid in Tids(list);
  }

  lemma TidsOfOne(x: Waiter)
    ensures Tids([x]) == {x.tid}
  {
    assert [x][0].tid in Tids([x]);
  }

  lemma TidsOfAppend(a: seq<Waiter>, b: seq<Waiter>)
    ensures Tids(a + b) == Tids(a) + Tids(b)
  {
    forall t | t in Tids(a) + Tids(b)
      ensures t in Tids(a + b)
    {
      if t in Tids(a) {
        var i :| 0 <= i < |a| && a[i].tid == t;
        assert (a + b)[i].tid == t;
      } else {
        var i :| 0 <= i < |b| && b[i].tid == t;
        assert (a + b)[|a| + i].tid == t;
      }
    }
  }

  /** A timeout takes the thread out of the list wherever it stands. */
  function Without(list: seq<Waiter>, tid: nat): seq<Waiter> {
    if list == [] then []
    else if list[0].tid == tid then list[1..]
    else [list[0]] + Without(list[1..], tid)
  }

  /** Where a thread stands; the length of the list if it does not. */
  function Position(list: seq<Waiter>, tid: nat): (i: nat)
    ensures i <= |list| && (i < |list| ==> list[i].tid == tid)
    ensures forall k :: 0 <= k < i ==> list[k].tid != tid
  {
    if list == [] || list[0].tid == tid then 0 else Position(list[1..], tid) + 1
  }

  /** part is a subsequence of list: its entries are in list, at ascending places. */
  ghost predicate InOrder(part: seq<Waiter>, list: seq<Waiter>) {
    && (forall i :: 0 <= i < |part| ==>
            Position(list, part[i].tid) < |list| && list[Position(list, part[i].tid)] == part[i])
    && (forall i, j :: 0 <= i < j < |part| ==> Position(list, part[i].tid) < Position(list, part[j].tid))
  }

  lemma InOrderTail(part: seq<Waiter>, list: seq<Waiter>)
    requires list != [] && InOrder(part, list[1..]) && list[0].tid !in Tids(list[1..])
    ensures InOrder(part, list) && InOrder([list[0]] + part, list)
  {
    hide Position;
    forall i | 0 <= i < |part|
      ensures Position(list, part[i].tid) == Position(list[1..], part[i].tid) + 1
    {
      var k := Position(list[1..], part[i].tid);
      assert list[1..][k] == list[k + 1] && list[1..][k].tid in Tids(list[1..]);
      PositionTail(list, part[i].tid);
    }
    PositionHead(list);
  }

  lemma PositionTail(list: seq<Waiter>, tid: nat)
    requires list != [] && list[0].tid != tid
    ensures Position(list, tid) == Position(list[1..], tid) + 1
  {
  }

  lemma PositionHead(list: seq<Waiter>)
    requires list != []
    ensures Position(list, list[0].tid) == 0
  {
  }

  lemma {:induction false} InOrderSelf(list: seq<Waiter>)
    requires Distinct(list)
    ensures InOrder(list, list)
  {
    hide Distinct, Tids, InOrder;
    if list != [] {
      assert list == [list[0]] + list[1..];
      DistinctCons(list[0], list[1..]);
      InOrderSelf(list[1..]);
      InOrderTail(list[1..], list);
    } else {
      InOrderNone(list);
    }
  }

  lemma InOrderNone(list: seq<Waiter>)
    ensures InOrder([], list)
  {
  }

  /** A timeout takes exactly that thread out and leaves the others as they stood. */
  lemma WithoutKeepsOrder(list: seq<Waiter>, tid: nat)
    requires Distinct(list)
    ensures var i := Position(list, tid);
            Without(list, tid) == if i < |list| then list[..i] + list[i + 1..] else list
    ensures InOrder(Without(list, tid), list)
  {
    WithoutIs(list, tid);
    WithoutInOrder(list, tid);
  }

  lemma {:induction false} WithoutIs(list: seq<Waiter>, tid: nat)
    ensures var i := Position(list, tid);
            Without(list, tid) == if i < |list| then list[..i] + list[i + 1..] else list
  {
    if list != [] && list[0].tid != tid {
      WithoutIs(list[1..], tid);
      assert list == [list[0]] + list[1..];
    }
  }

  lemma {:induction false} WithoutInOrder(list: seq<Waiter>, tid: nat)
    requires Distinct(list)
    ensures InOrder(Without(list, tid), list)
  {
    hide Distinct, Tids, InOrder, Position;
    if list == [] {
      InOrderNone(list);
    } else {
      assert list == [list[0]] + list[1..];
      DistinctCons(list[0], list[1..]);
      if list[0].tid == tid {
        InOrderSelf(list[1..]);
        InOrderTail(list[1..], list);
      } else {
        WithoutInOrder(list[1..], tid);
        InOrderTail(Without(list[1..], tid), list);
      }
    }
  }

  lemma {:induction false} WithoutRemoves(list: seq<Waiter>, tid: nat)
    requires Distinct(list)
    ensures Distinct(Without(list, tid)) && Tids(Without(list, tid)) == Tids(list) - {tid}
    ensures tid in Tids(list) ==> |Without(list, tid)| == |list| - 1
    ensures Sorted(list) ==> Sorted(Without(list, tid))
    ensures forall x :: x in Without(list, tid) ==> x in list
  {
    hide Distinct, Tids;
    if list != [] {
      assert list == [list[0]] + list[1..];
      DistinctCons(list[0], list[1..]);
      if list[0].tid != tid {
        WithoutRemoves(list[1..], tid);
        var rest := Without(list[1..], tid);
        DistinctCons(list[0], rest);
        if Sorted(list) {
          SortedCons(list[0], rest);
        }
      }
    } else {
      NoTids();
    }
  }

  lemma NoTids()
    ensures Tids([]) == {}
  {
  }

  lemma FirstTid(list: seq<Waiter>)
    requires list != []
    ensures list[0].tid in Tids(list)
  {
  }

  lemma HeadLeaves(list: seq<Waiter>)
    requires Distinct(list) && list != []
    ensures Distinct(list[1..]) && Tids(list[1..]) == Tids(list) - {list[0].tid}
    ensures list[0].tid in Tids(list) && (Sorted(list) ==> Sorted(list[1..]))
  {
    assert list == [list[0]] + list[1..];
    DistinctCons(list[0], list[1..]);
  }
}
