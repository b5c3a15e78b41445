/** The message queue object of rt-thread/src/ipc.c in place: link words, head, tail and free
    pointers. Each method is proved against the function of the same name in MessageQueueSpec. */
module MessageQueue {
  import opened WaitList
  import opened MessageQueueSpec

  // ---------------------------------------------------------------------------------
  // The object itself
  // ---------------------------------------------------------------------------------

  function Successor(nodes: seq<nat>, i: nat): int {
    if i + 1 < |nodes| then nodes[i + 1] else NULL
  }

  /** The nodes reached from `from` by following links are exactly `nodes`, then NULL. */
  ghost predicate Chain(next: seq<int>, from: int, nodes: seq<nat>) {
    && from == (if nodes == [] then NULL else nodes[0])
    && (forall i :: 0 <= i < |nodes| ==> nodes[i] < |next| && next[nodes[i]] == Successor(nodes, i))
  }

  lemma ChainAdvance(next: seq<int>, nodes: seq<nat>)
    requires nodes != [] && Chain(next, nodes[0], nodes)
    ensures Chain(next, next[nodes[0]], nodes[1..])
  {
    var rest := nodes[1..];
    assert next[nodes[0]] == Successor(nodes, 0);
    forall i | 0 <= i < |rest|
      ensures rest[i] < |next| && next[rest[i]] == Successor(rest, i)
    {
      assert rest[i] == nodes[i + 1] && next[nodes[i + 1]] == Successor(nodes, i + 1);
    }
  }

  lemma ChainElsewhere(next: seq<int>, from: int, nodes: seq<nat>, n: nat, to: int)
    requires Chain(next, from, nodes) && n !in nodes && n < |next|
    ensures Chain(next[n := to], from, nodes)
  {
  }

  lemma ChainPush(next: seq<int>, from: int, nodes: seq<nat>, n: nat)
    requires Chain(next, from, nodes) && n !in nodes && n < |next|
    ensures Chain(next[n := from], n, [n] + nodes)
  {
    var all, changed := [n] + nodes, next[n := from];
    forall i | 0 <= i < |all|
      ensures all[i] < |next| && changed[all[i]] == Successor(all, i)
    {
      if i > 0 {
        assert all[i] == nodes[i - 1] && nodes[i - 1] in nodes;
        assert next[nodes[i - 1]] == Successor(nodes, i - 1);
      }
    }
  }

  lemma ChainAppend(next: seq<int>, from: int, nodes: seq<nat>, n: nat)
    requires Chain(next, from, nodes) && NoDup(nodes) && n !in nodes && n < |next| && next[n] == NULL
    ensures nodes != [] ==> Chain(next[nodes[|nodes| - 1] := n], from, nodes + [n])
    ensures nodes == [] ==> Chain(next, n, [n])
  {
  }

  lemma ChainsAfterAppend(next: seq<int>, head: int, queue: seq<nat>, tail: int, freeHead: int, free: seq<nat>, n: nat)
    requires Chain(next, head, queue) && Chain(next, freeHead, free) && NoDup(queue)
    requires tail == (if queue == [] then NULL else queue[|queue| - 1])
    requires n < |next| && next[n] == NULL && n !in queue && forall x :: x in queue ==> x !in free
    ensures (tail == NULL <==> head == NULL) && (tail != NULL ==> 0 <= tail < |next| && tail in queue)
    ensures var after := if tail == NULL then next else next[tail := n];
            Chain(after, if head == NULL then n else head, queue + [n]) && Chain(after, freeHead, free)
  {
    ChainAppend(next, head, queue, n);
    if queue != [] {
      assert queue[|queue| - 1] in queue;
      ChainElsewhere(next, freeHead, free, queue[|queue| - 1], n);
    }
  }

  class MessageQueue {
    const msgSize: nat
    const maxMsgs: nat
    const order: Order
    const next: array<int>             // the link word of each pool node
    const data: array<seq<Byte>>       // the payload behind it
    var entry: nat
    var msgQueueHead: int
    var msgQueueTail: int
    var msgQueueFree: int
    var suspendThread: seq<Waiter>
    var suspendSenderThread: seq<Waiter>
    ghost var freeNodes: seq<nat>
    ghost var queued: seq<nat>
    ghost var held: set<nat>
    ghost var sealed: set<nat>

    ghost function Abs(): Mq
      reads this, data
    {
      Mq(msgSize, maxMsgs, order, freeNodes, queued, held, sealed, data[..], entry, suspendThread, suspendSenderThread)
    }

    ghost predicate Valid()
      reads this, data, next
    {
      && next.Length == maxMsgs
      && Partitioned(Abs())
      && Links()
    }

    /** rt_mq_init. */
    constructor (msgSize: nat, maxMsgs: nat, order: Order)
      requires maxMsgs <= ENTRY_MAX
      ensures Valid() && fresh(next) && fresh(data)
      ensures queued == [] && held == {} && suspendThread == [] && suspendSenderThread == [] && entry == 0
      ensures this.msgSize == msgSize && this.maxMsgs == maxMsgs && this.order == order
    {
      this.msgSize, this.maxMsgs, this.order := msgSize, maxMsgs, order;
      var links := new int[maxMsgs](_ => NULL);
      var blank := seq(msgSize, _ => 0 as Byte);
      data := new seq<Byte>[maxMsgs](_ => blank);
      entry, msgQueueHead, msgQueueTail := 0, NULL, NULL;
      suspendThread, suspendSenderThread := [], [];
      var head, nodes := ThreadPool(links);
      next, msgQueueFree, freeNodes := links, head, nodes;
      queued, held, sealed := [], {}, {};
      new;
      assert forall n: nat :: n in freeNodes <==> n < this.maxMsgs;
      assert Partitioned(Abs());
    }

    /** From the free-list check to the removal of a node; covers rt_mq_send_wait and, with
        timeout 0, rt_mq_urgent. */
    method TakeFree(w: Waiter, timeout: int) returns (g: Grant)
      requires Valid()
      modifies this
      ensures Valid() && (Abs(), g) == MessageQueueSpec.TakeFree(old(Abs()), w, timeout)
      ensures old(freeNodes) != [] ==> g == Node(old(freeNodes)[0]) && freeNodes == old(freeNodes)[1..]
      ensures old(freeNodes) == [] && timeout == 0 ==> g == Refused && Abs() == old(Abs())
      ensures old(freeNodes) == [] && timeout != 0 ==> g == MustWait && w in suspendSenderThread && freeNodes == []
      ensures queued == old(queued) && entry == old(entry) && suspendThread == old(suspendThread)
    {
      hide Partitioned, Chain;
      TakeFreePartitions(Abs(), w, timeout);
      ChainStart(next[..], msgQueueFree, freeNodes);
      if msgQueueFree == NULL {
        if timeout == 0 {
          return Refused;
        }
        Joins(suspendSenderThread, w, order);
        suspendSenderThread := Suspend(suspendSenderThread, w, order);
        return MustWait;
      }
      var msg := msgQueueFree;
      ChainAdvance(next[..], freeNodes);
      msgQueueFree := next[msg];
      freeNodes, held := freeNodes[1..], held + {msg};
      g := Node(msg);
    }

    /** Outside the lock: cut the link (plain send only) and copy the buffer. */
    method Fill(n: nat, bytes: seq<Byte>, urgent: bool)
      requires Valid() && n in held && |bytes| <= msgSize
      modifies this`sealed, next, data
      ensures Valid() && Abs() == MessageQueueSpec.Fill(old(Abs()), n, bytes, urgent)
      ensures |data[n]| == msgSize && data[n][..|bytes|] == bytes
      ensures forall x :: 0 <= x < data.Length && x != n ==> data[x] == old(data[x])
    {
      hide Chain, Partitioned, NoDup;
      HeldNode(Abs(), n);
      FillPartitions(Abs(), n, bytes, urgent);
      if !urgent {
        ChainElsewhere(next[..], msgQueueFree, freeNodes, n, NULL);
        ChainElsewhere(next[..], msgQueueHead, queued, n, NULL);
        ghost var before := next[..];
        next[n] := NULL;
        assert next[..] == before[n := NULL];
        sealed := sealed + {n};
      }
      ghost var buffers := data[..];
      data[n] := Overwrite(data[n], bytes);
      assert data[..] == buffers[n := data[n]];
    }

    /** The links, without the pool: both lists hang together, and sealed nodes have no successor. */
    ghost predicate Links()
      reads this, next
    {
      && Chain(next[..], msgQueueFree, freeNodes)
      && Chain(next[..], msgQueueHead, queued)
      && msgQueueTail == (if queued == [] then NULL else queued[|queued| - 1])
      && forall n :: n in sealed ==> n < next.Length && next[n] == NULL
    }

    /** Links node n in behind the tail. */
    method Append(n: nat)
      requires Links() && NoDup(queued) && n < next.Length && next[n] == NULL && n !in queued
      requires forall x :: x in queued ==> x !in freeNodes && x !in sealed
      modifies this`msgQueueHead, this`msgQueueTail, this`queued, next
      ensures Links() && queued == old(queued) + [n] && msgQueueTail == n
    {
      hide Chain, NoDup;
      ghost var before := next[..];
      ChainsAfterAppend(before, msgQueueHead, queued, msgQueueTail, msgQueueFree, freeNodes, n);
      if msgQueueTail != NULL {
        next[msgQueueTail] := n;
        assert next[..] == before[msgQueueTail := n];
      }
      msgQueueTail := n;
      if msgQueueHead == NULL {
        msgQueueHead := n;
      }
      queued := queued + [n];
    }

    /** Links node n in before the head. */
    method Push(n: nat)
      requires Links() && n < next.Length && n !in queued && n !in freeNodes
      modifies this`msgQueueHead, this`msgQueueTail, this`queued, this`sealed, next
      ensures Links() && queued == [n] + old(queued) && sealed == old(sealed) - {n} && msgQueueHead == n
    {
      hide Chain;
      ghost var before := next[..];
      ChainPush(before, msgQueueHead, queued, n);
      ChainElsewhere(before, msgQueueFree, freeNodes, n, msgQueueHead);
      ChainStart(before, msgQueueHead, queued);
      next[n] := msgQueueHead;
      assert next[..] == before[n := next[n]];
      msgQueueHead := n;
      if msgQueueTail == NULL {
        msgQueueTail := n;
      }
      queued, sealed := [n] + queued, sealed - {n};
    }

    /** The rest of a send: the node is no longer in flight, it is counted, and a receiver is woken. */
    method Count(n: nat) returns (resumed: Option<Waiter>)
      requires entry < ENTRY_MAX
      modifies this`entry, this`held, this`sealed, this`suspendThread
      ensures held == old(held) - {n} && sealed == old(sealed) - {n} && entry == old(entry) + 1
      ensures suspendThread == Rest(old(suspendThread)) && resumed == First(old(suspendThread))
    {
      held, sealed := held - {n}, sealed - {n};
      if entry < ENTRY_MAX {
        entry := entry + 1;
      }
      resumed := First(suspendThread);
      suspendThread := Rest(suspendThread);
    }

    /** rt_mq_send_wait's second section. The overflow branch is proved dead. */
    method LinkBack(n: nat) returns (resumed: Option<Waiter>)
      requires Valid() && n in sealed && n in held
      modifies this, next
      ensures Valid() && Abs() == MessageQueueSpec.Link(old(Abs()), n, false)
      ensures queued == old(queued) + [n] && msgQueueTail == n && entry == old(entry) + 1
      ensures freeNodes == old(freeNodes) && data[..] == old(data[..])
      ensures old(suspendThread) != [] ==>
              resumed == Some(old(suspendThread)[0]) && suspendThread == old(suspendThread)[1..]
      ensures resumed == First(old(suspendThread))
    {
      hide Chain, Partitioned, NoDup;
      HeldNode(Abs(), n);
      LinkPartitions(Abs(), n, false);
      NoOverflow(Abs(), n);
      Append(n);
      resumed := Count(n);
    }

    /** rt_mq_urgent's second section. */
    method LinkFront(n: nat) returns (resumed: Option<Waiter>)
      requires Valid() && n in held
      modifies this, next
      ensures Valid() && Abs() == MessageQueueSpec.Link(old(Abs()), n, true)
      ensures queued == [n] + old(queued) && msgQueueHead == n && entry == old(entry) + 1
      ensures freeNodes == old(freeNodes) && data[..] == old(data[..])
      ensures old(suspendThread) != [] ==>
              resumed == Some(old(suspendThread)[0]) && suspendThread == old(suspendThread)[1..]
      ensures resumed == First(old(suspendThread))
    {
      hide Chain, Partitioned, NoDup;
      HeldNode(Abs(), n);
      LinkPartitions(Abs(), n, true);
      NoOverflow(Abs(), n);
      Push(n);
      resumed := Count(n);
      assert sealed == old(sealed) - {n};
    }

    /** rt_mq_recv's first section, and its recheck after a wake-up. */
    method Dequeue(w: Waiter, timeout: int) returns (g: Grant)
      requires Valid()
      modifies this
      ensures Valid() && (Abs(), g) == MessageQueueSpec.Dequeue(old(Abs()), w, timeout)
      ensures old(queued) != [] ==> g == Node(old(queued)[0]) && queued == old(queued)[1..] && entry == old(entry) - 1
      ensures old(queued) == [] && timeout == 0 ==> g == Refused && Abs() == old(Abs())
      ensures old(queued) == [] && timeout != 0 ==> g == MustWait && w in suspendThread && queued == []
      ensures freeNodes == old(freeNodes) && suspendSenderThread == old(suspendSenderThread)
    {
      hide Chain;
      DequeuePartitions(Abs(), w, timeout);
      if entry == 0 {
        if timeout == 0 {
          return Refused;
        }
        Joins(suspendThread, w, order);
        suspendThread := Suspend(suspendThread, w, order);
        return MustWait;
      }
      ChainStart(next[..], msgQueueHead, queued);
      ChainAdvance(next[..], queued);
      var msg := msgQueueHead;
      msgQueueHead := next[msg];
      if msgQueueTail == msg {
        msgQueueTail := NULL;
      }
      queued, held := queued[1..], held + {msg};
      entry := entry - 1;
      g := Node(msg);
    }

    /** Outside the lock: copy the message out. */
    method Read(n: nat, size: nat) returns (bytes: seq<Byte>)
      requires Valid() && n in held
      ensures bytes == MessageQueueSpec.Read(Abs(), n, size)
      ensures |bytes| == (if size > msgSize then msgSize else size) && bytes == data[n][..|bytes|]
    {
      bytes := data[n][..if size > msgSize then msgSize else size];
    }

    /** rt_mq_recv's second section. */
    method Release(n: nat) returns (resumed: Option<Waiter>)
      requires Valid() && n in held
      modifies this, next
      ensures Valid() && Abs() == MessageQueueSpec.Release(old(Abs()), n)
      ensures freeNodes == [n] + old(freeNodes) && msgQueueFree == n && queued == old(queued) && entry == old(entry)
      ensures old(suspendSenderThread) != [] ==>
                resumed == Some(old(suspendSenderThread)[0]) && suspendSenderThread == old(suspendSenderThread)[1..]
      ensures resumed == First(old(suspendSenderThread))
    {
      hide Chain, Partitioned, NoDup;
      HeldNode(Abs(), n);
      ReleasePartitions(Abs(), n);
      ChainPush(next[..], msgQueueFree, freeNodes, n);
      ChainElsewhere(next[..], msgQueueHead, queued, n, msgQueueFree);
      ghost var before := next[..];
      next[n] := msgQueueFree;
      assert next[..] == before[n := next[n]];
      msgQueueFree := n;
      freeNodes, held, sealed := [n] + freeNodes, held - {n}, sealed - {n};
      resumed := First(suspendSenderThread);
      suspendSenderThread := Rest(suspendSenderThread);
    }

    /** rt_mq_control with RT_IPC_CMD_RESET: nodes go back one at a time from the head. */
    method Reset()
      requires Valid()
      modifies this, next
      ensures Valid() && Abs() == MessageQueueSpec.Reset(old(Abs()))
      ensures queued == [] && entry == 0 && suspendThread == [] && suspendSenderThread == []
      ensures forall x :: x in freeNodes <==> x in old(queued) || x in old(freeNodes)
    {
      hide Chain, Partitioned, NoDup;
      ResetPartitions(Abs());
      QueuedNodes(Abs());
      ReversedElements(queued);
      suspendThread, suspendSenderThread := [], [];
      ghost var pool := Reversed(queued) + freeNodes;
      while msgQueueHead != NULL
        invariant next.Length == maxMsgs && Chain(next[..], msgQueueFree, freeNodes)
        invariant Chain(next[..], msgQueueHead, queued)
        invariant msgQueueTail == (if queued == [] then NULL else queued[|queued| - 1])
        invariant NoDup(queued) && forall n :: n in queued ==> n < maxMsgs && n !in freeNodes && n !in sealed
        invariant forall n :: n in sealed ==> n < maxMsgs && next[n] == NULL
        invariant Reversed(queued) + freeNodes == pool
        invariant held == old(held) && sealed == old(sealed) && suspendThread == [] && suspendSenderThread == []
        invariant entry == old(entry)
        decreases |queued|
      {
        PopToFree();
      }
      ChainStart(next[..], msgQueueHead, queued);
      assert freeNodes == pool;
      entry := 0;
    }

    /** One round of the reset loop. */
    method PopToFree()
      requires next.Length == maxMsgs && Chain(next[..], msgQueueFree, freeNodes)
      requires Chain(next[..], msgQueueHead, queued)
      requires msgQueueTail == (if queued == [] then NULL else queued[|queued| - 1])
      requires NoDup(queued) && msgQueueHead != NULL && forall n :: n in queued ==> n < maxMsgs && n !in freeNodes
      modifies this`msgQueueHead, this`msgQueueTail, this`msgQueueFree, this`queued, this`freeNodes, next
      ensures Chain(next[..], msgQueueFree, freeNodes) && Chain(next[..], msgQueueHead, queued)
      ensures msgQueueTail == (if queued == [] then NULL else queued[|queued| - 1])
      ensures old(queued) != [] && queued == old(queued[1..]) && NoDup(queued)
      ensures freeNodes == [old(queued[0])] + old(freeNodes)
      ensures forall n :: n in queued ==> n in old(queued) && n !in freeNodes
      ensures Reversed(queued) + freeNodes == old(Reversed(queued) + freeNodes)
      ensures forall n: nat :: n < maxMsgs && n != old(queued[0]) ==> next[n] == old(next[n])
    {
      hide Chain, NoDup;
      ChainStart(next[..], msgQueueHead, queued);
      ChainAdvance(next[..], queued);
      NoDupTail(queued);
      var msg := msgQueueHead;
      assert queued == [msg] + queued[1..];
      msgQueueHead := next[msg];
      if msgQueueTail == msg {
        msgQueueTail := NULL;
      }
      ChainPush(next[..], msgQueueFree, freeNodes, msg);
      ChainElsewhere(next[..], msgQueueHead, queued[1..], msg, msgQueueFree);
      ghost var before := next[..];
      next[msg] := msgQueueFree;
      assert next[..] == before[msg := next[msg]];
      msgQueueFree := msg;
      assert Reversed(queued[1..]) + ([msg] + freeNodes) == (Reversed(queued[1..]) + [msg]) + freeNodes;
      queued, freeNodes := queued[1..], [msg] + freeNodes;
    }

    /** A suspended thread's timer fires: it leaves whichever list it is on. */
    method Timeout(tid: nat)
      requires Valid()
      modifies this`suspendThread, this`suspendSenderThread
      ensures Valid() && Abs() == MessageQueueSpec.Timeout(old(Abs()), tid)
    {
      suspendThread := Without(suspendThread, tid);
      suspendSenderThread := Without(suspendSenderThread, tid);
    }
  }

  lemma ChainStart(next: seq<int>, from: int, nodes: seq<nat>)
    requires Chain(next, from, nodes)
    ensures from == (if nodes == [] then NULL else nodes[0])
    ensures forall i :: 0 <= i < |nodes| ==> nodes[i] < |next|
  {
  }

  lemma EmptyPool(next: seq<int>)
    ensures Chain(next, NULL, []) && NoDup([])
  {
  }

  lemma NoDupPush(nodes: seq<nat>, n: nat)
    requires NoDup(nodes) && n !in nodes
    ensures NoDup([n] + nodes)
  {
  }

  lemma NoDupTail(nodes: seq<nat>)
    requires NoDup(nodes) && nodes != []
    ensures NoDup(nodes[1..]) && nodes[0] !in nodes[1..]
  {
  }

  lemma QueuedNodes(q: Mq)
    requires Partitioned(q)
    ensures NoDup(q.queue) && q.sealed <= q.held
    ensures forall x :: x in q.queue ==> x < q.maxMsgs && x !in q.free && x !in q.sealed
    ensures forall x :: x in q.sealed ==> x < q.maxMsgs
  {
  }

  /** The initialisation loop: each node is put in front of the free list. */
  method ThreadPool(next: array<int>) returns (head: int, ghost nodes: seq<nat>)
    modifies next
    ensures Chain(next[..], head, nodes) && NoDup(nodes)
    ensures forall n: nat :: n in nodes <==> n < next.Length
  {
    hide Chain, NoDup;
    head, nodes := NULL, [];
    EmptyPool(next[..]);
    for i := 0 to next.Length
      invariant Chain(next[..], head, nodes) && NoDup(nodes)
      invariant forall n: nat :: n in nodes <==> n < i
    {
      ghost var before := next[..];
      ChainPush(before, head, nodes, i);
      NoDupPush(nodes, i);
      next[i] := head;
      assert next[..] == before[i := head];
      head, nodes := i, [i] + nodes;
    }
  }
}
