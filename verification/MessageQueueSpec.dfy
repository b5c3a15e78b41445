/** The message queue of rt-thread/src/ipc.c on values: a pool of nodes on a free list and a
    queued list, with nodes in flight while the interrupt lock is open. Every function is one
    interrupt-disabled section, or the unlocked copy between two. */
module MessageQueueSpec {
  import opened WaitList

  type Byte = bv8

  const ENTRY_MAX: nat := 65535
  const NULL: int := -1

  /** free and queue in link order; held is what threads have in flight, sealed those of held
      whose link has been cut ready for the end of the queue. */
  datatype Mq = Mq(
    msgSize: nat, maxMsgs: nat, order: Order,
    free: seq<nat>, queue: seq<nat>, held: set<nat>, sealed: set<nat>,
    data: seq<seq<Byte>>, entry: nat,
    receivers: seq<Waiter>, senders: seq<Waiter>)

  datatype Grant = Refused | MustWait | Node(node: nat)

  ghost predicate NoDup(s: seq<nat>) {
    forall i, j :: 0 <= i < j < |s| ==> s[i] != s[j]
  }

  /** Every pool node is in exactly one place, and entry counts the queue. */
  ghost predicate Partitioned(q: Mq) {
    && q.maxMsgs <= ENTRY_MAX
    && |q.data| == q.maxMsgs && (forall n :: 0 <= n < q.maxMsgs ==> |q.data[n]| == q.msgSize)
    && NoDup(q.free) && NoDup(q.queue)
    && (forall n :: n in q.free ==> n !in q.queue && n !in q.held)
    && (forall n :: n in q.queue ==> n !in q.held)
    && (forall n: nat :: n in q.free || n in q.queue || n in q.held <==> n < q.maxMsgs)
    && q.sealed <= q.held
    && q.entry == |q.queue|
  }

  // ---------------------------------------------------------------------------------
  // The sections as functions
  // ---------------------------------------------------------------------------------

  /** Sender's first section, and its recheck after a wake-up. */
  function TakeFree(q: Mq, w: Waiter, timeout: int): (Mq, Grant) {
    if q.free == [] then
      if timeout == 0 then (q, Refused) else (q.(senders := Insert(q.senders, w, q.order)), MustWait)
    else (q.(free := q.free[1..], held := q.held + {q.free[0]}), Node(q.free[0]))
  }

  function Overwrite(old_: seq<Byte>, bytes: seq<Byte>): (r: seq<Byte>)
    requires |bytes| <= |old_|
    ensures |r| == |old_| && r[..|bytes|] == bytes
  {
    bytes + old_[|bytes|..]
  }

  /** The unlocked copy; a plain send also cuts the node's link. */
  function Fill(q: Mq, n: nat, bytes: seq<Byte>, urgent: bool): Mq
    requires n < |q.data| && |bytes| <= |q.data[n]|
  {
    q.(data := q.data[n := Overwrite(q.data[n], bytes)], sealed := if urgent then q.sealed else q.sealed + {n})
  }

  function Rest(list: seq<Waiter>): seq<Waiter> {
    if list == [] then [] else list[1..]
  }

  function First(list: seq<Waiter>): Option<Waiter> {
    if list == [] then None else Some(list[0])
  }

  /** Sender's second section: at the back, or in front when urgent. */
  function Link(q: Mq, n: nat, urgent: bool): Mq {
    q.(queue := if urgent then [n] + q.queue else q.queue + [n],
       held := q.held - {n}, sealed := q.sealed - {n},
       entry := q.entry + 1, receivers := Rest(q.receivers))
  }

  function Dequeue(q: Mq, w: Waiter, timeout: int): (Mq, Grant)
    requires q.entry == |q.queue|
  {
    if q.entry == 0 then
      if timeout == 0 then (q, Refused) else (q.(receivers := Insert(q.receivers, w, q.order)), MustWait)
    else (q.(queue := q.queue[1..], held := q.held + {q.queue[0]}, entry := q.entry - 1), Node(q.queue[0]))
  }

  function Read(q: Mq, n: nat, size: nat): seq<Byte>
    requires n < |q.data| && |q.data[n]| == q.msgSize
  {
    q.data[n][..if size > q.msgSize then q.msgSize else size]
  }

  function Release(q: Mq, n: nat): Mq {
    q.(free := [n] + q.free, held := q.held - {n}, sealed := q.sealed - {n}, senders := Rest(q.senders))
  }

  function Reversed(s: seq<nat>): (r: seq<nat>)
    ensures |r| == |s|
  {
    if s == [] then [] else Reversed(s[1..]) + [s[0]]
  }

  function Reset(q: Mq): Mq {
    q.(free := Reversed(q.queue) + q.free, queue := [], entry := 0, receivers := [], senders := [])
  }

  function Timeout(q: Mq, tid: nat): Mq {
    q.(receivers := Without(q.receivers, tid), senders := Without(q.senders, tid))
  }

  // ---------------------------------------------------------------------------------
  // Each section keeps the nodes partitioned
  // ---------------------------------------------------------------------------------

  lemma {:induction false} ReversedElements(s: seq<nat>)
    ensures forall x :: x in Reversed(s) <==> x in s
    ensures NoDup(s) ==> NoDup(Reversed(s))
  {
    if s != [] {
      assert s == [s[0]] + s[1..];
      ReversedElements(s[1..]);
      if NoDup(s) {
        assert s[0] !in s[1..];
      }
    }
  }

  lemma HeldNode(q: Mq, n: nat)
    requires Partitioned(q) && n in q.held
    ensures n < q.maxMsgs == |q.data| && |q.data[n]| == q.msgSize && n !in q.free && n !in q.queue
    ensures NoDup(q.queue) && q.entry == |q.queue| && q.sealed <= q.held
    ensures forall x :: x in q.queue ==> x < q.maxMsgs && x !in q.free && x !in q.sealed
  {
  }

  lemma FreeNode(q: Mq)
    requires Partitioned(q) && q.free != []
    ensures q.free[0] < q.maxMsgs == |q.data| && q.free[0] !in q.held
  {
    assert q.free[0] in q.free;
  }

  lemma QueuedNode(q: Mq)
    requires Partitioned(q) && q.queue != []
    ensures q.queue[0] < q.maxMsgs == |q.data| && q.queue[0] !in q.held
  {
    assert q.queue[0] in q.queue;
  }

  lemma NoDupAppend(a: seq<nat>, b: seq<nat>)
    requires NoDup(a) && NoDup(b) && forall x :: x in a ==> x !in b
    ensures NoDup(a + b)
  {
    forall i, j | 0 <= i < j < |a + b|
      ensures (a + b)[i] != (a + b)[j]
    {
      if i < |a| <= j {
        assert a[i] in a && b[j - |a|] in b;
      }
    }
  }

  lemma TakeFreePartitions(q: Mq, w: Waiter, timeout: int)
    requires Partitioned(q)
    ensures Partitioned(TakeFree(q, w, timeout).0)
  {
    if q.free != [] {
      assert q.free == [q.free[0]] + q.free[1..];
      assert q.free[0] in q.free;
    }
  }

  lemma FillPartitions(q: Mq, n: nat, bytes: seq<Byte>, urgent: bool)
    requires Partitioned(q) && n in q.held && |bytes| <= q.msgSize
    ensures Partitioned(Fill(q, n, bytes, urgent))
  {
  }

  lemma LinkPartitions(q: Mq, n: nat, urgent: bool)
    requires Partitioned(q) && n in q.held
    ensures Partitioned(Link(q, n, urgent))
  {
    var r := Link(q, n, urgent);
    assert forall x :: x in r.queue <==> x == n || x in q.queue;
  }

  lemma DequeuePartitions(q: Mq, w: Waiter, timeout: int)
    requires Partitioned(q)
    ensures Partitioned(Dequeue(q, w, timeout).0)
  {
    if q.queue != [] {
      assert q.queue == [q.queue[0]] + q.queue[1..];
      assert q.queue[0] in q.queue;
    }
  }

  lemma ReleasePartitions(q: Mq, n: nat)
    requires Partitioned(q) && n in q.held
    ensures Partitioned(Release(q, n))
  {
    var r := Release(q, n);
    assert forall x :: x in r.free <==> x == n || x in q.free;
  }

  lemma ResetPartitions(q: Mq)
    requires Partitioned(q)
    ensures Partitioned(Reset(q))
  {
    ReversedElements(q.queue);
    NoDupAppend(Reversed(q.queue), q.free);
    var r := Reset(q);
    assert forall x :: x in r.free <==> x in Reversed(q.queue) || x in q.free;
  }

  lemma {:induction false} Pigeonhole(s: seq<nat>, n: nat)
    requires NoDup(s) && forall x :: x in s ==> x < n
    ensures |s| <= n
  {
    if s == [] {
      return;
    }
    assert s[0] in s;
    if n - 1 in s {
      var i :| 0 <= i < |s| && s[i] == n - 1;
      var t := s[..i] + s[i + 1..];
      assert forall x :: x in t ==> x in s && x != n - 1;
      Pigeonhole(t, n - 1);
    } else {
      Pigeonhole(s, n - 1);
    }
  }

  /** While a node is in flight the queue is short of the pool, so the counter never
      reaches its maximum and the overflow branch of a send is never taken. */
  lemma NoOverflow(q: Mq, n: nat)
    requires Partitioned(q) && n in q.held
    ensures q.entry < q.maxMsgs <= ENTRY_MAX
  {
    var t := q.queue + [n];
    assert forall x :: x in t ==> x in q.queue || x == n;
    Pigeonhole(t, q.maxMsgs);
  }
}
