/** Who has which message of a message queue: every request to send gets a number, and the
    ledger says whether its message is still with its sender, linked, taken by a receiver,
    delivered or thrown away by a reset. */
module MessageLedger {
  import opened MessageQueueSpec

  type Bytes = seq<Byte>

  datatype Msg = Msg(id: nat, bytes: Bytes)

  /** What a thread is doing with the queue. Woken threads have been resumed without an error
      and have not yet looked at the queue again. */
  datatype Phase =
    | Idle
    | Filling(node: nat, msg: Msg, urgent: bool)
    | Filled(node: nat, msg: Msg, urgent: bool)
    | Draining(node: nat, size: nat, msg: Msg)
    | SendSuspended(msg: Msg, timeout: int)
    | SendWoken(msg: Msg, timeout: int)
    | RecvSuspended(size: nat, timeout: int)
    | RecvWoken(size: nat, timeout: int)

  datatype Delivery = Delivery(tid: nat, size: nat, buffer: Bytes)

  /** asked: every request to send, by number. sender, taker: the thread that still has the
      message of a request on the way in or on the way out. linked, taken: in order of linking and
      taking. plain: nothing urgent and no reset so far. */
  datatype Ledger = Ledger(
    asked: seq<Msg>, sender: map<nat, nat>, linked: seq<Msg>, taken: seq<Msg>, taker: map<nat, nat>,
    delivered: map<nat, Delivery>, dropped: multiset<Msg>, plain: bool)

  datatype Carry = Nothing | Carry(msg: Msg)

  function At(phase: map<nat, Phase>, t: nat): Phase {
    if t in phase then phase[t] else Idle
  }

  /** The message a thread wants to send. */
  function Sends(p: Phase): Carry {
    if p.Filling? || p.Filled? || p.SendSuspended? || p.SendWoken? then Carry(p.msg) else Nothing
  }

  /** The message a thread is copying out. */
  function Gets(p: Phase): Carry {
    if p.Draining? then Carry(p.msg) else Nothing
  }

  // ---------------------------------------------------------------------------------
  // Entries
  // ---------------------------------------------------------------------------------

  function Opened(): Ledger {
    Ledger([], map[], [], [], map[], map[], multiset{}, true)
  }

  function Ask(l: Ledger, bytes: Bytes): Ledger {
    l.(asked := l.asked + [Msg(|l.asked|, bytes)])
  }

  function Keep(l: Ledger, m: Msg, t: nat): Ledger {
    l.(sender := l.sender[m.id := t])
  }

  function GiveUp(l: Ledger, m: Msg): Ledger {
    l.(sender := l.sender - {m.id})
  }

  function Linked(l: Ledger, m: Msg, urgent: bool): Ledger {
    l.(sender := l.sender - {m.id}, linked := l.linked + [m], plain := l.plain && !urgent)
  }

  function Taken(l: Ledger, m: Msg, t: nat): Ledger {
    l.(taken := l.taken + [m], taker := l.taker[m.id := t])
  }

  function Delivered(l: Ledger, m: Msg, d: Delivery): Ledger {
    l.(taker := l.taker - {m.id}, delivered := l.delivered[m.id := d])
  }

  function Discard(l: Ledger, phase: map<nat, Phase>, deque: seq<Msg>): Ledger {
    l.(sender := map i | i in l.sender && !At(phase, l.sender[i]).SendSuspended? :: l.sender[i],
       dropped := l.dropped + multiset(deque), plain := false)
  }

  // ---------------------------------------------------------------------------------
  // The books balance
  // ---------------------------------------------------------------------------------

  ghost predicate Asked(l: Ledger, m: Msg) {
    m.id < |l.asked| && l.asked[m.id] == m
  }

  /** A message is with exactly one sender until it is linked, and linked once. */
  ghost predicate SendersOk(phase: map<nat, Phase>, l: Ledger) {
    && (forall t: nat :: Sends(At(phase, t)).Carry? ==>
          var m := Sends(At(phase, t)).msg;
          Asked(l, m) && m.id in l.sender && l.sender[m.id] == t)
    && (forall i :: i in l.sender ==> i < |l.asked| && Sends(At(phase, l.sender[i])) == Carry(l.asked[i]))
    && (forall m :: m in l.linked ==> Asked(l, m) && m.id !in l.sender)
    && (forall i, j :: 0 <= i < j < |l.linked| ==> l.linked[i] != l.linked[j])
  }

  /** The buffer has the length of the shorter of the request and the node, and agrees with the
      message as far as that goes. */
  ghost predicate Faithful(d: Delivery, bytes: Bytes, msgSize: nat) {
    && |d.buffer| == (if d.size > msgSize then msgSize else d.size)
    && forall k :: 0 <= k < |d.buffer| && k < |bytes| ==> d.buffer[k] == bytes[k]
  }

  /** Each message that was taken is with one receiver. */
  ghost predicate TakersOk(phase: map<nat, Phase>, l: Ledger) {
    && (forall t: nat :: Gets(At(phase, t)).Carry? ==>
          var m := Gets(At(phase, t)).msg;
          m.id in l.taker && l.taker[m.id] == t)
    && (forall i :: i in l.taker ==> i < |l.asked| && Gets(At(phase, l.taker[i])) == Carry(l.asked[i]))
  }

  /** until it is delivered, once. */
  ghost predicate ReceiptsOk(l: Ledger, msgSize: nat) {
    && (forall i :: i in l.taker ==> i < |l.asked| && l.asked[i] in l.taken && i !in l.delivered)
    && (forall m :: m in l.taken ==> Asked(l, m) && (m.id in l.taker || m.id in l.delivered))
    && (forall i :: i in l.delivered ==>
          i < |l.asked| && l.asked[i] in l.taken && Faithful(l.delivered[i], l.asked[i].bytes, msgSize))
  }

  ghost predicate Numbered(l: Ledger) {
    forall i :: 0 <= i < |l.asked| ==> l.asked[i].id == i
  }

  /** What was linked is queued, taken or thrown away, and plain sending is first in, first out. */
  ghost predicate Conserved(deque: seq<Msg>, l: Ledger) {
    && multiset(l.linked) == multiset(deque) + multiset(l.taken) + l.dropped
    && (l.plain ==> l.linked == l.taken + deque)
  }

  ghost predicate Balanced(phase: map<nat, Phase>, deque: seq<Msg>, l: Ledger, msgSize: nat) {
    Numbered(l) && SendersOk(phase, l) && TakersOk(phase, l) && ReceiptsOk(l, msgSize) && Conserved(deque, l)
  }

  /** Thread t may go on with message m: it has just asked, or still has it. */
  ghost predicate Ready(phase: map<nat, Phase>, l: Ledger, t: nat, m: Msg) {
    && Asked(l, m) && m !in l.linked && Gets(At(phase, t)).Nothing?
    && ((Sends(At(phase, t)).Nothing? && m.id !in l.sender) || Sends(At(phase, t)) == Carry(m))
  }

  // ---------------------------------------------------------------------------------
  // Each entry keeps them balanced
  // ---------------------------------------------------------------------------------

  /** Only thread t has changed, to a phase that sends a and gets b. */
  ghost predicate Only(phase: map<nat, Phase>, now: map<nat, Phase>, t: nat, a: Carry, b: Carry) {
    forall u: nat ::
      && Sends(At(now, u)) == (if u == t then a else Sends(At(phase, u)))
      && Gets(At(now, u)) == (if u == t then b else Gets(At(phase, u)))
  }

  lemma OnlyOne(phase: map<nat, Phase>, t: nat, p: Phase)
    ensures Only(phase, phase[t := p], t, Sends(p), Gets(p))
  {
    forall u: nat
      ensures At(phase[t := p], u) == if u == t then p else At(phase, u)
    {
      assert u != t ==> (u in phase[t := p] <==> u in phase);
    }
  }

  lemma SendersSame(phase: map<nat, Phase>, now: map<nat, Phase>, l: Ledger, r: Ledger)
    requires Numbered(l) && SendersOk(phase, l) && forall u: nat :: Sends(At(now, u)) == Sends(At(phase, u))
    requires r.asked == l.asked && r.sender == l.sender && r.linked == l.linked
    ensures SendersOk(now, r)
  {
    hide At;
    forall i | i in r.sender
      ensures Sends(At(now, r.sender[i])) == Carry(r.asked[i])
    {
      assert Sends(At(phase, r.sender[i])) == Carry(l.asked[i]);
    }
  }

  lemma TakersSame(phase: map<nat, Phase>, now: map<nat, Phase>, l: Ledger, r: Ledger)
    requires TakersOk(phase, l) && forall u: nat :: Gets(At(now, u)) == Gets(At(phase, u))
    requires r.asked == l.asked && r.taker == l.taker
    ensures TakersOk(now, r)
  {
    hide At;
    forall i | i in r.taker
      ensures Gets(At(now, r.taker[i])) == Carry(r.asked[i])
    {
      assert Gets(At(phase, l.taker[i])) == Carry(l.asked[i]);
    }
  }

  lemma ReceiptsSame(l: Ledger, r: Ledger, msgSize: nat)
    requires ReceiptsOk(l, msgSize)
    requires r.asked == l.asked && r.taken == l.taken && r.taker.Keys == l.taker.Keys && r.delivered == l.delivered
    ensures ReceiptsOk(r, msgSize)
  {
    hide Faithful;
  }

  lemma ConservedSame(deque: seq<Msg>, l: Ledger, r: Ledger)
    requires Conserved(deque, l) && r.linked == l.linked
    requires r.taken == l.taken && r.dropped == l.dropped && r.plain == l.plain
    ensures Conserved(deque, r)
  {
  }

  lemma BooksStay(phase: map<nat, Phase>, deque: seq<Msg>, l: Ledger, msgSize: nat, t: nat, p: Phase)
    requires Balanced(phase, deque, l, msgSize) && Sends(p) == Sends(At(phase, t)) && Gets(p) == Gets(At(phase, t))
    ensures Balanced(phase[t := p], deque, l, msgSize)
  {
    OnlyOne(phase, t, p);
    SendersSame(phase, phase[t := p], l, l);
    TakersSame(phase, phase[t := p], l, l);
    ReceiptsSame(l, l, msgSize);
  }

  lemma BooksAsk(phase: map<nat, Phase>, deque: seq<Msg>, l: Ledger, msgSize: nat, t: nat, bytes: Bytes)
    requires Balanced(phase, deque, l, msgSize) && Sends(At(phase, t)).Nothing? && Gets(At(phase, t)).Nothing?
    ensures Balanced(phase, deque, Ask(l, bytes), msgSize) && Ready(phase, Ask(l, bytes), t, Msg(|l.asked|, bytes))
  {
    SendersAsk(phase, l, bytes);
    TakersAsk(phase, l, bytes);
    ReceiptsAsk(l, msgSize, bytes);
    ConservedSame(deque, l, Ask(l, bytes));
    hide At, SendersOk, TakersOk, ReceiptsOk, Conserved;
  }

  lemma TakersAsk(phase: map<nat, Phase>, l: Ledger, bytes: Bytes)
    requires TakersOk(phase, l)
    ensures TakersOk(phase, Ask(l, bytes))
  {
    hide At;
  }

  lemma SendersAsk(phase: map<nat, Phase>, l: Ledger, bytes: Bytes)
    requires SendersOk(phase, l)
    ensures SendersOk(phase, Ask(l, bytes)) && |l.asked| !in l.sender && Msg(|l.asked|, bytes) !in l.linked
  {
    hide At;
  }

  lemma ReceiptsAsk(l: Ledger, msgSize: nat, bytes: Bytes)
    requires ReceiptsOk(l, msgSize)
    ensures ReceiptsOk(Ask(l, bytes), msgSize)
  {
    hide Faithful;
  }

  lemma SendersKeep(phase: map<nat, Phase>, now: map<nat, Phase>, l: Ledger, t: nat, m: Msg)
    requires Numbered(l) && SendersOk(phase, l) && Ready(phase, l, t, m) && Only(phase, now, t, Carry(m), Nothing)
    ensures SendersOk(now, Keep(l, m, t))
  {
    hide At;
    var r := Keep(l, m, t);
    forall i | i in r.sender
      ensures i < |r.asked| && Sends(At(now, r.sender[i])) == Carry(r.asked[i])
    {
      assert i != m.id ==> Sends(At(phase, l.sender[i])) == Carry(l.asked[i]);
    }
  }

  lemma BooksKeep(phase: map<nat, Phase>, deque: seq<Msg>, l: Ledger, msgSize: nat, t: nat, m: Msg, p: Phase)
    requires Balanced(phase, deque, l, msgSize) && Ready(phase, l, t, m) && Sends(p) == Carry(m) && Gets(p).Nothing?
    ensures Balanced(phase[t := p], deque, Keep(l, m, t), msgSize)
  {
    hide SendersOk, TakersOk, ReceiptsOk, Conserved;
    OnlyOne(phase, t, p);
    SendersKeep(phase, phase[t := p], l, t, m);
    TakersSame(phase, phase[t := p], l, Keep(l, m, t));
    ReceiptsSame(l, Keep(l, m, t), msgSize);
    ConservedSame(deque, l, Keep(l, m, t));
  }

  lemma SendersGiveUp(phase: map<nat, Phase>, now: map<nat, Phase>, l: Ledger, r: Ledger, t: nat, m: Msg)
    requires Numbered(l) && SendersOk(phase, l) && Ready(phase, l, t, m) && Only(phase, now, t, Nothing, Nothing)
    requires r.asked == l.asked && r.sender == l.sender - {m.id} && (r.linked == l.linked || r.linked == l.linked + [m])
    ensures SendersOk(now, r)
  {
    hide At;
    forall i | i in r.sender
      ensures i < |r.asked| && Sends(At(now, r.sender[i])) == Carry(r.asked[i])
    {
      assert Sends(At(phase, l.sender[i])) == Carry(l.asked[i]);
    }
  }

  lemma BooksGiveUp(phase: map<nat, Phase>, deque: seq<Msg>, l: Ledger, msgSize: nat, t: nat, m: Msg, p: Phase)
    requires Balanced(phase, deque, l, msgSize) && Ready(phase, l, t, m) && Sends(p).Nothing? && Gets(p).Nothing?
    ensures Balanced(phase[t := p], deque, GiveUp(l, m), msgSize)
  {
    hide SendersOk, TakersOk, ReceiptsOk, Conserved;
    OnlyOne(phase, t, p);
    SendersGiveUp(phase, phase[t := p], l, GiveUp(l, m), t, m);
    TakersSame(phase, phase[t := p], l, GiveUp(l, m));
    ReceiptsSame(l, GiveUp(l, m), msgSize);
    ConservedSame(deque, l, GiveUp(l, m));
  }

  lemma LinkConserves(deque: seq<Msg>, l: Ledger, m: Msg, urgent: bool)
    requires Conserved(deque, l)
    ensures Conserved(if urgent then [m] + deque else deque + [m], Linked(l, m, urgent))
  {
    if l.plain && !urgent {
      assert l.taken + (deque + [m]) == l.linked + [m];
    }
  }

  /** A sender that has a message is ready to go on with it. */
  lemma SenderReady(phase: map<nat, Phase>, l: Ledger, t: nat)
    requires Numbered(l) && SendersOk(phase, l) && Sends(At(phase, t)).Carry?
    ensures Ready(phase, l, t, Sends(At(phase, t)).msg)
  {
  }

  /** Linking puts the message into the books as linked, at the end the code puts it. */
  lemma BooksLink(phase: map<nat, Phase>, deque: seq<Msg>, l: Ledger, msgSize: nat, t: nat, m: Msg, urgent: bool)
    requires Balanced(phase, deque, l, msgSize) && Sends(At(phase, t)) == Carry(m)
    ensures Balanced(phase[t := Idle], if urgent then [m] + deque else deque + [m], Linked(l, m, urgent), msgSize)
  {
    SenderReady(phase, l, t);
    hide SendersOk, TakersOk, ReceiptsOk, Conserved;
    OnlyOne(phase, t, Idle);
    SendersGiveUp(phase, phase[t := Idle], l, Linked(l, m, urgent), t, m);
    TakersSame(phase, phase[t := Idle], l, Linked(l, m, urgent));
    ReceiptsSame(l, Linked(l, m, urgent), msgSize);
    LinkConserves(deque, l, m, urgent);
  }

  lemma {:induction false} CountOnce(s: seq<Msg>, m: Msg)
    requires forall i, j :: 0 <= i < j < |s| ==> s[i] != s[j]
    ensures multiset(s)[m] <= 1
  {
    if s != [] {
      assert s == [s[0]] + s[1..];
      CountOnce(s[1..], m);
      if m == s[0] {
        assert m !in s[1..];
      }
    }
  }

  /** What is at the head of the queue has been linked, and nobody has taken it. */
  lemma HeadIsNew(phase: map<nat, Phase>, deque: seq<Msg>, l: Ledger, msgSize: nat)
    requires Balanced(phase, deque, l, msgSize) && deque != []
    ensures deque[0] in l.linked && Asked(l, deque[0]) && deque[0] !in l.taken
    ensures deque[0].id !in l.taker && deque[0].id !in l.delivered
  {
    var m := deque[0];
    assert multiset(deque)[m] >= 1;
    CountOnce(l.linked, m);
    assert multiset(l.linked)[m] >= 1;
  }

  lemma TakeConserves(deque: seq<Msg>, l: Ledger, t: nat)
    requires Conserved(deque, l) && deque != []
    ensures Conserved(deque[1..], Taken(l, deque[0], t))
  {
    assert deque == [deque[0]] + deque[1..];
    assert l.taken + deque == (l.taken + [deque[0]]) + deque[1..];
  }

  lemma TakersTake(phase: map<nat, Phase>, now: map<nat, Phase>, l: Ledger, t: nat, m: Msg)
    requires Numbered(l) && TakersOk(phase, l) && Asked(l, m) && m.id !in l.taker
    requires Gets(At(phase, t)).Nothing? && Only(phase, now, t, Nothing, Carry(m))
    ensures TakersOk(now, Taken(l, m, t))
  {
    hide At;
    var r := Taken(l, m, t);
    forall i | i in r.taker
      ensures i < |r.asked| && Gets(At(now, r.taker[i])) == Carry(r.asked[i])
    {
      assert i != m.id ==> Gets(At(phase, l.taker[i])) == Carry(l.asked[i]);
    }
  }

  lemma ReceiptsTake(l: Ledger, msgSize: nat, t: nat, m: Msg)
    requires Numbered(l) && ReceiptsOk(l, msgSize) && Asked(l, m) && m.id !in l.delivered
    ensures ReceiptsOk(Taken(l, m, t), msgSize)
  {
    hide Faithful;
  }

  /** Taking the head of the queue hands its message, and no other, to the receiver. */
  lemma BooksTake(phase: map<nat, Phase>, deque: seq<Msg>, l: Ledger, msgSize: nat, t: nat, p: Phase)
    requires Balanced(phase, deque, l, msgSize) && deque != []
    requires Sends(At(phase, t)).Nothing? && Gets(At(phase, t)).Nothing?
    requires Sends(p).Nothing? && Gets(p) == Carry(deque[0])
    ensures Balanced(phase[t := p], deque[1..], Taken(l, deque[0], t), msgSize)
  {
    HeadIsNew(phase, deque, l, msgSize);
    hide SendersOk, TakersOk, ReceiptsOk, Conserved;
    OnlyOne(phase, t, p);
    SendersSame(phase, phase[t := p], l, Taken(l, deque[0], t));
    TakersTake(phase, phase[t := p], l, t, deque[0]);
    ReceiptsTake(l, msgSize, t, deque[0]);
    TakeConserves(deque, l, t);
  }

  lemma TakersDeliver(phase: map<nat, Phase>, now: map<nat, Phase>, l: Ledger, t: nat, m: Msg, d: Delivery)
    requires Numbered(l) && TakersOk(phase, l)
    requires Gets(At(phase, t)) == Carry(m) && Only(phase, now, t, Nothing, Nothing)
    ensures TakersOk(now, Delivered(l, m, d)) && m.id in l.taker && Asked(l, m)
  {
    hide At;
    var r := Delivered(l, m, d);
    assert Gets(At(phase, l.taker[m.id])) == Carry(l.asked[m.id]);
    forall i | i in r.taker
      ensures i < |r.asked| && Gets(At(now, r.taker[i])) == Carry(r.asked[i])
    {
      assert Gets(At(phase, l.taker[i])) == Carry(l.asked[i]);
    }
  }

  lemma ReceiptsDeliver(l: Ledger, msgSize: nat, m: Msg, d: Delivery)
    requires Numbered(l) && ReceiptsOk(l, msgSize) && m.id in l.taker && Asked(l, m) && Faithful(d, m.bytes, msgSize)
    ensures ReceiptsOk(Delivered(l, m, d), msgSize)
  {
    hide Faithful;
  }

  /** Handing the buffer over delivers the message that was taken. */
  lemma BooksDeliver(phase: map<nat, Phase>, deque: seq<Msg>, l: Ledger, msgSize: nat, t: nat, m: Msg, d: Delivery)
    requires Balanced(phase, deque, l, msgSize) && Gets(At(phase, t)) == Carry(m) && Faithful(d, m.bytes, msgSize)
    ensures Balanced(phase[t := Idle], deque, Delivered(l, m, d), msgSize)
  {
    hide SendersOk, TakersOk, ReceiptsOk, Conserved;
    OnlyOne(phase, t, Idle);
    SendersSame(phase, phase[t := Idle], l, Delivered(l, m, d));
    TakersDeliver(phase, phase[t := Idle], l, t, m, d);
    ReceiptsDeliver(l, msgSize, m, d);
    ConservedSame(deque, l, Delivered(l, m, d));
  }

  lemma SendersDiscard(phase: map<nat, Phase>, now: map<nat, Phase>, deque: seq<Msg>, l: Ledger)
    requires Numbered(l) && SendersOk(phase, l)
    requires forall u: nat :: Sends(At(now, u)) == if At(phase, u).SendSuspended? then Nothing else Sends(At(phase, u))
    ensures SendersOk(now, Discard(l, phase, deque))
  {
    hide At;
    var r := Discard(l, phase, deque);
    forall i | i in r.sender
      ensures i < |r.asked| && Sends(At(now, r.sender[i])) == Carry(r.asked[i])
    {
      assert Sends(At(phase, l.sender[i])) == Carry(l.asked[i]);
    }
  }

  /** A reset sends every suspended thread away and throws the queue's messages away. */
  lemma BooksDiscard(phase: map<nat, Phase>, now: map<nat, Phase>, deque: seq<Msg>, l: Ledger, msgSize: nat)
    requires Balanced(phase, deque, l, msgSize)
    requires forall u: nat :: Sends(At(now, u)) == if At(phase, u).SendSuspended? then Nothing else Sends(At(phase, u))
    requires forall u: nat :: Gets(At(now, u)) == Gets(At(phase, u))
    ensures Balanced(now, [], Discard(l, phase, deque), msgSize)
  {
    hide At, SendersOk, TakersOk, ReceiptsOk;
    SendersDiscard(phase, now, deque, l);
    TakersSame(phase, now, l, Discard(l, phase, deque));
    ReceiptsSame(l, Discard(l, phase, deque), msgSize);
  }
}
