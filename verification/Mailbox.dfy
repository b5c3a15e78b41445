/** The mailbox of rt-thread/src/ipc.c: a ring of words that is filled at in_offset, emptied at
    out_offset and, for urgent mail, filled backwards from out_offset. MailboxSpec says what each
    interrupt-disabled section does to a double-ended queue; Mailbox does it to the ring. */
module MailboxSpec {
  import opened WaitList

  type Mail = int

  const ENTRY_MAX: nat := 65535

  datatype Mb = Mb(size: nat, order: Order, content: seq<Mail>, receivers: seq<Waiter>, senders: seq<Waiter>)

  datatype SendResult = Full | SenderWaits | Sent(resumed: Option<Waiter>)

  datatype RecvResult = Empty | ReceiverWaits | Got(mail: Mail, resumed: Option<Waiter>)

  function Rest(list: seq<Waiter>): seq<Waiter> {
    if list == [] then [] else list[1..]
  }

  function First(list: seq<Waiter>): Option<Waiter> {
    if list == [] then None else Some(list[0])
  }

  function Send(m: Mb, w: Waiter, value: Mail, timeout: int): (Mb, SendResult) {
    if |m.content| == m.size then
      if timeout == 0 then (m, Full) else (m.(senders := Insert(m.senders, w, m.order)), SenderWaits)
    else (m.(content := m.content + [value], receivers := Rest(m.receivers)), Sent(First(m.receivers)))
  }

  function Urgent(m: Mb, value: Mail): (Mb, SendResult) {
    if |m.content| == m.size then (m, Full)
    else (m.(content := [value] + m.content, receivers := Rest(m.receivers)), Sent(First(m.receivers)))
  }

  function Recv(m: Mb, w: Waiter, timeout: int): (Mb, RecvResult) {
    if m.content == [] then
      if timeout == 0 then (m, Empty) else (m.(receivers := Insert(m.receivers, w, m.order)), ReceiverWaits)
    else (m.(content := m.content[1..], senders := Rest(m.senders)), Got(m.content[0], First(m.senders)))
  }

  function Timeout(m: Mb, tid: nat): Mb {
    m.(receivers := Without(m.receivers, tid), senders := Without(m.senders, tid))
  }

  function Reset(m: Mb): Mb {
    m.(content := [], receivers := [], senders := [])
  }
}

module Mailbox {
  import opened WaitList
  import opened MailboxSpec

  /** The ring position of the i-th mail. */
  function Slot(out: nat, i: nat, size: nat): int {
    if out + i < size then out + i else out + i - size
  }

  /** n mails from position `out` on. */
  ghost function Unrolled(pool: seq<Mail>, out: nat, n: nat): (c: seq<Mail>)
    requires n <= |pool| && (n > 0 ==> out < |pool|)
    ensures |c| == n && forall i :: 0 <= i < n ==> c[i] == pool[Slot(out, i, |pool|)]
  {
    seq(n, i requires 0 <= i < n => pool[Slot(out, i, |pool|)])
  }

  class Mailbox {
    const size: nat
    const order: Order
    const msgPool: array<Mail>
    var entry: nat
    var inOffset: nat
    var outOffset: nat
    var suspendThread: seq<Waiter>
    var suspendSenderThread: seq<Waiter>

    ghost predicate Valid()
      reads this
    {
      && size == msgPool.Length <= ENTRY_MAX
      && entry <= size
      && (size == 0 ==> inOffset == outOffset == 0)
      && (size > 0 ==> outOffset < size && inOffset < size && inOffset == Slot(outOffset, entry, size))
    }

    ghost function Content(): (c: seq<Mail>)
      reads this, msgPool
      requires Valid()
      ensures |c| == entry
      ensures forall i :: 0 <= i < entry ==> c[i] == msgPool[Slot(outOffset, i, size)]
    {
      Unrolled(msgPool[..], outOffset, entry)
    }

    ghost function Abs(): Mb
      reads this, msgPool
      requires Valid()
    {
      Mb(size, order, Content(), suspendThread, suspendSenderThread)
    }

    /** rt_mb_init. */
    constructor (size: nat, order: Order)
      requires size <= ENTRY_MAX
      ensures Valid() && fresh(msgPool) && Abs() == Mb(size, order, [], [], [])
    {
      this.size, this.order := size, order;
      msgPool := new Mail[size](_ => 0);
      entry, inOffset, outOffset := 0, 0, 0;
      suspendThread, suspendSenderThread := [], [];
    }

    /** One section of rt_mb_send_wait. The overflow branch on entry is dead: a mailbox that is
        not full holds fewer than ENTRY_MAX mails. */
    method Send(w: Waiter, value: Mail, timeout: int) returns (r: SendResult)
      requires Valid()
      modifies this, msgPool
      ensures Valid() && (Abs(), r) == MailboxSpec.Send(old(Abs()), w, value, timeout)
      ensures old(entry) < size ==> r.Sent? && Content() == old(Content()) + [value]
      ensures old(entry) < size && old(suspendThread) != [] ==>
                r.resumed == Some(old(suspendThread)[0]) && suspendThread == old(suspendThread)[1..]
      ensures old(entry) == size && timeout == 0 ==> r == Full && Abs() == old(Abs())
      ensures old(entry) == size && timeout != 0 ==>
                r == SenderWaits && w in suspendSenderThread && Content() == old(Content())
    {
      if entry == size {
        if timeout == 0 {
          return Full;
        }
        Joins(suspendSenderThread, w, order);
        suspendSenderThread := Suspend(suspendSenderThread, w, order);
        return SenderWaits;
      }
      ghost var before := Content();
      msgPool[inOffset] := value;
      inOffset := inOffset + 1;
      if inOffset >= size {
        inOffset := 0;
      }
      assert entry < ENTRY_MAX;
      entry := entry + 1;
      assert Content() == before + [value];
      r := Sent(First(suspendThread));
      suspendThread := Rest(suspendThread);
    }

    /** rt_mb_urgent. */
    method Urgent(value: Mail) returns (r: SendResult)
      requires Valid()
      modifies this, msgPool
      ensures Valid() && (Abs(), r) == MailboxSpec.Urgent(old(Abs()), value)
      ensures old(entry) < size ==> r.Sent? && Content() == [value] + old(Content())
      ensures old(entry) < size && old(suspendThread) != [] ==>
                r.resumed == Some(old(suspendThread)[0]) && suspendThread == old(suspendThread)[1..]
      ensures old(entry) == size ==> r == Full && Abs() == old(Abs())
    {
      if entry == size {
        return Full;
      }
      ghost var before := Content();
      if outOffset > 0 {
        outOffset := outOffset - 1;
      } else {
        outOffset := size - 1;
      }
      msgPool[outOffset] := value;
      entry := entry + 1;
      assert Content() == [value] + before;
      r := Sent(First(suspendThread));
      suspendThread := Rest(suspendThread);
    }

    /** One section of rt_mb_recv. */
    method Recv(w: Waiter, timeout: int) returns (r: RecvResult)
      requires Valid()
      modifies this
      ensures Valid() && (Abs(), r) == MailboxSpec.Recv(old(Abs()), w, timeout)
      ensures old(entry) > 0 ==> r.Got? && r.mail == old(Content())[0] && Content() == old(Content())[1..]
      ensures old(entry) > 0 && old(suspendSenderThread) != [] ==>
                r.resumed == Some(old(suspendSenderThread)[0]) && suspendSenderThread == old(suspendSenderThread)[1..]
      ensures old(entry) == 0 && timeout == 0 ==> r == Empty && Abs() == old(Abs())
      ensures old(entry) == 0 && timeout != 0 ==> r == ReceiverWaits && w in suspendThread && entry == 0
    {
      if entry == 0 {
        if timeout == 0 {
          return Empty;
        }
        Joins(suspendThread, w, order);
        suspendThread := Suspend(suspendThread, w, order);
        return ReceiverWaits;
      }
      ghost var before := Content();
      var value := msgPool[outOffset];
      outOffset := outOffset + 1;
      if outOffset >= size {
        outOffset := 0;
      }
      entry := entry - 1;
      assert Content() == before[1..] && value == before[0];
      r := Got(value, First(suspendSenderThread));
      suspendSenderThread := Rest(suspendSenderThread);
    }

    method Timeout(tid: nat)
      requires Valid()
      modifies this`suspendThread, this`suspendSenderThread
      ensures Valid() && Abs() == MailboxSpec.Timeout(old(Abs()), tid)
    {
      suspendThread := Without(suspendThread, tid);
      suspendSenderThread := Without(suspendSenderThread, tid);
    }

    /** rt_mb_control with RT_IPC_CMD_RESET. */
    method Reset()
      requires Valid()
      modifies this
      ensures Valid() && Abs() == MailboxSpec.Reset(old(Abs()))
      ensures entry == 0 && suspendThread == [] && suspendSenderThread == []
    {
      suspendThread, suspendSenderThread := [], [];
      entry, inOffset, outOffset := 0, 0, 0;
    }
  }
}
