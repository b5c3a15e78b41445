/** Any number of threads using one message queue: their code between interrupt-disabled
    sections interleaves freely, so a run is an arbitrary sequence of sections, unlocked
    copies, timer expiries and resets. The thread side of suspend, resume and timeout is
    taken from the comments of _ipc_list_suspend and _ipc_list_resume. */
module MessageQueueRuns {
  import opened WaitList
  import opened MessageQueueSpec
  import opened MessageLedger

  /** Besides the queue: the threads, who has each in-flight node, the queued messages in link
      order, and the ledger of all messages so far. */
  datatype State = State(q: Mq, phase: map<nat, Phase>, holder: map<nat, nat>, deque: seq<Msg>, ledger: Ledger)

  datatype Event =
    | Send(tid: nat, prio: nat, bytes: Bytes, urgent: bool, timeout: int)
    | SendAgain(tid: nat, prio: nat, elapsed: nat)
    | Copy(tid: nat)
    | LinkIn(tid: nat)
    | Receive(tid: nat, prio: nat, size: nat, timeout: int)
    | ReceiveAgain(tid: nat, prio: nat, elapsed: nat)
    | Finish(tid: nat)
    | Expire(tid: nat)
    | ResetQueue

  function PhaseOf(s: State, t: nat): Phase {
    At(s.phase, t)
  }

  /** The part of a waiting time that is left; negative means forever. */
  function Remaining(timeout: int, elapsed: nat): int {
    if timeout > 0 then if timeout - elapsed < 0 then 0 else timeout - elapsed else timeout
  }

  // ---------------------------------------------------------------------------------
  // Steps
  // ---------------------------------------------------------------------------------

  function TrySend(s: State, t: nat, prio: nat, msg: Msg, urgent: bool, timeout: int): State {
    var (q, g) := TakeFree(s.q, Waiter(t, prio), timeout);
    match g
    case Refused => s.(q := q, phase := s.phase[t := Idle], ledger := GiveUp(s.ledger, msg))
    case MustWait => s.(q := q, phase := s.phase[t := SendSuspended(msg, timeout)], ledger := Keep(s.ledger, msg, t))
    case Node(n) =>
      s.(q := q, phase := s.phase[t := Filling(n, msg, urgent)], holder := s.holder[n := t],
         ledger := Keep(s.ledger, msg, t))
  }

  /** A first attempt, which gets the next number. */
  function Begin(s: State, t: nat, prio: nat, bytes: Bytes, urgent: bool, timeout: int): State {
    TrySend(s.(ledger := Ask(s.ledger, bytes)), t, prio, Msg(|s.ledger.asked|, bytes), urgent, timeout)
  }

  function TryReceive(s: State, t: nat, prio: nat, size: nat, timeout: int): State
    requires s.q.entry == |s.q.queue| == |s.deque|
  {
    var (q, g) := Dequeue(s.q, Waiter(t, prio), timeout);
    match g
    case Refused => s.(q := q, phase := s.phase[t := Idle])
    case MustWait => s.(q := q, phase := s.phase[t := RecvSuspended(size, timeout)])
    case Node(n) =>
      if s.deque == [] then s
      else s.(q := q, phase := s.phase[t := Draining(n, size, s.deque[0])], holder := s.holder[n := t],
              deque := s.deque[1..], ledger := Taken(s.ledger, s.deque[0], t))
  }

  function WakeReceiver(phase: map<nat, Phase>, w: Option<Waiter>): map<nat, Phase> {
    if w.Some? && w.value.tid in phase && phase[w.value.tid].RecvSuspended? then
      var p := phase[w.value.tid];
      phase[w.value.tid := RecvWoken(p.size, p.timeout)]
    else phase
  }

  function WakeSender(phase: map<nat, Phase>, w: Option<Waiter>): map<nat, Phase> {
    if w.Some? && w.value.tid in phase && phase[w.value.tid].SendSuspended? then
      var p := phase[w.value.tid];
      phase[w.value.tid := SendWoken(p.msg, p.timeout)]
    else phase
  }

  function DoCopy(s: State, t: nat, p: Phase): State
    requires p.Filling? && p.node < |s.q.data| && |p.msg.bytes| <= |s.q.data[p.node]|
  {
    s.(q := Fill(s.q, p.node, p.msg.bytes, p.urgent), phase := s.phase[t := Filled(p.node, p.msg, p.urgent)])
  }

  function DoLink(s: State, t: nat, p: Phase): State
    requires p.Filled?
  {
    s.(q := Link(s.q, p.node, p.urgent),
       phase := WakeReceiver(s.phase[t := Idle], First(s.q.receivers)),
       holder := s.holder - {p.node},
       deque := if p.urgent then [p.msg] + s.deque else s.deque + [p.msg],
       ledger := Linked(s.ledger, p.msg, p.urgent))
  }

  function DoFinish(s: State, t: nat, p: Phase): State
    requires p.Draining? && p.node < |s.q.data| && |s.q.data[p.node]| == s.q.msgSize
  {
    s.(q := Release(s.q, p.node),
       phase := WakeSender(s.phase[t := Idle], First(s.q.senders)),
       holder := s.holder - {p.node},
       ledger := Delivered(s.ledger, p.msg, Delivery(t, p.size, Read(s.q, p.node, p.size))))
  }

  function DoExpire(s: State, t: nat): State {
    var p := PhaseOf(s, t);
    s.(q := Timeout(s.q, t), phase := s.phase[t := Idle],
       ledger := if p.SendSuspended? then GiveUp(s.ledger, p.msg) else s.ledger)
  }

  function DoReset(s: State): State {
    s.(q := Reset(s.q),
       phase := map t | t in s.phase :: if s.phase[t].SendSuspended? || s.phase[t].RecvSuspended? then Idle
           else s.phase[t],
       deque := [],
       ledger := Discard(s.ledger, s.phase, s.deque))
  }

  /** One step; an event that cannot happen now changes nothing. */
  function Next(s: State, e: Event): State
    requires Inv(s)
  {
    match e
    case Send(t, prio, bytes, urgent, timeout) =>
      if PhaseOf(s, t).Idle? && 0 < |bytes| <= s.q.msgSize
      then Begin(s, t, prio, bytes, urgent, if urgent then 0 else timeout) else s
    case SendAgain(t, prio, elapsed) =>
      var p := PhaseOf(s, t);
      if p.SendWoken? then TrySend(s, t, prio, p.msg, false, Remaining(p.timeout, elapsed)) else s
    case Copy(t) =>
      var p := PhaseOf(s, t);
      if p.Filling? then DoCopy(s, t, p) else s
    case LinkIn(t) =>
      var p := PhaseOf(s, t);
      if p.Filled? then DoLink(s, t, p) else s
    case Receive(t, prio, size, timeout) =>
      if PhaseOf(s, t).Idle? && 0 < size then TryReceive(s, t, prio, size, timeout) else s
    case ReceiveAgain(t, prio, elapsed) =>
      var p := PhaseOf(s, t);
      if p.RecvWoken? then TryReceive(s, t, prio, p.size, Remaining(p.timeout, elapsed)) else s
    case Finish(t) =>
      var p := PhaseOf(s, t);
      if p.Draining? then DoFinish(s, t, p) else s
    case Expire(t) =>
      var p := PhaseOf(s, t);
      if (p.SendSuspended? || p.RecvSuspended?) && p.timeout > 0
      then DoExpire(s, t) else s
    case ResetQueue => DoReset(s)
  }

  // ---------------------------------------------------------------------------------
  // The invariant
  // ---------------------------------------------------------------------------------

  predicate Stores(cell: Bytes, message: Bytes) {
    |message| <= |cell| && cell[..|message|] == message
  }

  /** The queued nodes hold the queued messages, in order. */
  ghost predicate QueueStores(s: State) {
    && |s.deque| == |s.q.queue|
    && forall i :: 0 <= i < |s.deque| ==> s.q.queue[i] < |s.q.data| && Stores(s.q.data[s.q.queue[i]], s.deque[i].bytes)
  }

  predicate HoldsNode(p: Phase) {
    p.Filling? || p.Filled? || p.Draining?
  }

  ghost predicate PhaseFits(q: Mq, p: Phase) {
    && (HoldsNode(p) ==> p.node in q.held && p.node < |q.data|)
    && (p.Filling? || p.Filled? || p.SendSuspended? || p.SendWoken? ==> |p.msg.bytes| <= q.msgSize)
    && (p.Filled? ==> Stores(q.data[p.node], p.msg.bytes) && (!p.urgent ==> p.node in q.sealed))
    && (p.Draining? ==> Stores(q.data[p.node], p.msg.bytes))
  }

  /** Every in-flight node has exactly one thread, and that thread's copy of it is right. */
  ghost predicate Flights(s: State) {
    && (forall t :: t in s.phase ==> PhaseFits(s.q, s.phase[t]))
    && (forall t :: t in s.phase && HoldsNode(s.phase[t]) ==>
            s.phase[t].node in s.holder && s.holder[s.phase[t].node] == t)
    && s.holder.Keys == s.q.held
    && (forall n :: n in s.holder ==>
            s.holder[n] in s.phase && HoldsNode(s.phase[s.holder[n]]) && s.phase[s.holder[n]].node == n)
  }

  ghost function SuspendedReceivers(phase: map<nat, Phase>): set<nat> {
    set t | t in phase && phase[t].RecvSuspended?
  }

  ghost function SuspendedSenders(phase: map<nat, Phase>): set<nat> {
    set t | t in phase && phase[t].SendSuspended?
  }

  ghost function WokenReceivers(phase: map<nat, Phase>): set<nat> {
    set t | t in phase && phase[t].RecvWoken?
  }

  ghost function WokenSenders(phase: map<nat, Phase>): set<nat> {
    set t | t in phase && phase[t].SendWoken?
  }

  ghost function ReceiversWoken(phase: map<nat, Phase>): nat {
    |WokenReceivers(phase)|
  }

  ghost function SendersWoken(phase: map<nat, Phase>): nat {
    |WokenSenders(phase)|
  }

  ghost predicate AnyReceiverWaits(phase: map<nat, Phase>) {
    SuspendedReceivers(phase) != {}
  }

  ghost predicate AnySenderWaits(phase: map<nat, Phase>) {
    SuspendedSenders(phase) != {}
  }

  ghost predicate Lists(s: State) {
    && Distinct(s.q.receivers) && Tids(s.q.receivers) == SuspendedReceivers(s.phase)
    && Distinct(s.q.senders) && Tids(s.q.senders) == SuspendedSenders(s.phase)
  }

  /** No lost wake-up: nobody stays suspended for want of something that is there, unless
      enough others have already been woken to take all of it. */
  ghost predicate NoLostWakeUp(s: State) {
    && (AnyReceiverWaits(s.phase) ==> ReceiversWoken(s.phase) >= s.q.entry)
    && (AnySenderWaits(s.phase) ==> SendersWoken(s.phase) >= |s.q.free|)
  }

  ghost predicate Books(s: State) {
    Balanced(s.phase, s.deque, s.ledger, s.q.msgSize)
  }

  ghost predicate Inv(s: State) {
    && Partitioned(s.q)
    && QueueStores(s)
    && Flights(s)
    && Lists(s)
    && NoLostWakeUp(s)
    && Books(s)
  }

  // ---------------------------------------------------------------------------------
  // Threads moving between phases
  // ---------------------------------------------------------------------------------

  lemma PhaseSets(phase: map<nat, Phase>, t: nat, p: Phase)
    ensures SuspendedReceivers(phase[t := p]) ==
            (SuspendedReceivers(phase) - {t}) + (if p.RecvSuspended? then {t} else {})
    ensures SuspendedSenders(phase[t := p]) == (SuspendedSenders(phase) - {t}) + (if p.SendSuspended? then {t} else {})
    ensures WokenReceivers(phase[t := p]) == (WokenReceivers(phase) - {t}) + (if p.RecvWoken? then {t} else {})
    ensures WokenSenders(phase[t := p]) == (WokenSenders(phase) - {t}) + (if p.SendWoken? then {t} else {})
  {
  }

  lemma NotIn(phase: map<nat, Phase>, t: nat)
    ensures t in SuspendedReceivers(phase) <==> t in phase && phase[t].RecvSuspended?
    ensures t in SuspendedSenders(phase) <==> t in phase && phase[t].SendSuspended?
  {
  }

  lemma Swap(s: set<nat>, t: nat, now: bool)
    ensures |(s - {t}) + (if now then {t} else {})| == |s| - (if t in s then 1 else 0) + (if now then 1 else 0)
  {
    if t in s {
      assert s == (s - {t}) + {t};
    } else {
      assert s - {t} == s;
    }
  }

  /** What one thread's change of phase does to the counts. */
  lemma Move(phase: map<nat, Phase>, t: nat, p: Phase)
    ensures ReceiversWoken(phase[t := p])
            == ReceiversWoken(phase) - (if At(phase, t).RecvWoken? then 1 else 0) + (if p.RecvWoken? then 1 else 0)
    ensures SendersWoken(phase[t := p])
            == SendersWoken(phase) - (if At(phase, t).SendWoken? then 1 else 0) + (if p.SendWoken? then 1 else 0)
    ensures AnyReceiverWaits(phase[t := p]) ==> AnyReceiverWaits(phase) || p.RecvSuspended?
    ensures AnySenderWaits(phase[t := p]) ==> AnySenderWaits(phase) || p.SendSuspended?
  {
    PhaseSets(phase, t, p);
    Swap(WokenReceivers(phase), t, p.RecvWoken?);
    Swap(WokenSenders(phase), t, p.SendWoken?);
  }

  /** A thread without a node takes one that nobody has. */
  lemma FlightStarts(s: State, q: Mq, t: nat, n: nat, p: Phase, deque: seq<Msg>, ledger: Ledger)
    requires Flights(s) && !HoldsNode(PhaseOf(s, t))
    requires n !in s.q.held && q.held == s.q.held + {n} && q.data == s.q.data
    requires q.sealed == s.q.sealed && q.msgSize == s.q.msgSize
    requires HoldsNode(p) && p.node == n && PhaseFits(q, p)
    ensures Flights(s.(q := q, phase := s.phase[t := p], holder := s.holder[n := t], deque := deque, ledger := ledger))
  {
    hide Stores;
  }

  /** A thread without a node changes phase and still has none. */
  lemma FlightsStay(s: State, q: Mq, t: nat, p: Phase, ledger: Ledger)
    requires Flights(s) && !HoldsNode(PhaseOf(s, t))
    requires q.held == s.q.held && q.data == s.q.data && q.sealed == s.q.sealed && q.msgSize == s.q.msgSize
    requires !HoldsNode(p) && PhaseFits(q, p)
    ensures Flights(s.(q := q, phase := s.phase[t := p], ledger := ledger))
  {
    hide Stores;
  }

  // ---------------------------------------------------------------------------------
  // Sending
  // ---------------------------------------------------------------------------------

  ghost predicate MaySend(s: State, t: nat, msg: Msg) {
    (PhaseOf(s, t).Idle? || PhaseOf(s, t).SendWoken?) && |msg.bytes| <= s.q.msgSize
  }

  lemma TrySendFlights(s: State, t: nat, prio: nat, msg: Msg, urgent: bool, timeout: int)
    requires Partitioned(s.q) && Flights(s) && MaySend(s, t, msg)
    ensures Flights(TrySend(s, t, prio, msg, urgent, timeout))
  {
    if s.q.free != [] {
      FreeNode(s.q);
    }
    hide Partitioned, Insert, Stores, Flights;
    var (q, g) := TakeFree(s.q, Waiter(t, prio), timeout);
    match g
    case Refused => FlightsStay(s, q, t, Idle, GiveUp(s.ledger, msg));
    case MustWait => FlightsStay(s, q, t, SendSuspended(msg, timeout), Keep(s.ledger, msg, t));
    case Node(n) => FlightStarts(s, q, t, n, Filling(n, msg, urgent), s.deque, Keep(s.ledger, msg, t));
  }

  lemma TrySendLists(s: State, t: nat, prio: nat, msg: Msg, urgent: bool, timeout: int)
    requires Lists(s) && MaySend(s, t, msg)
    ensures Lists(TrySend(s, t, prio, msg, urgent, timeout))
  {
    hide Distinct, Tids, SuspendedReceivers, SuspendedSenders, WokenReceivers, WokenSenders, Insert;
    var r := TrySend(s, t, prio, msg, urgent, timeout);
    PhaseSets(s.phase, t, PhaseOf(r, t));
    NotIn(s.phase, t);
    InsertDistinct(s.q.senders, Waiter(t, prio), s.q.order);
  }

  lemma TrySendWakes(s: State, t: nat, prio: nat, msg: Msg, urgent: bool, timeout: int)
    requires NoLostWakeUp(s) && MaySend(s, t, msg)
    ensures NoLostWakeUp(TrySend(s, t, prio, msg, urgent, timeout))
  {
    hide ReceiversWoken, SendersWoken, AnyReceiverWaits, AnySenderWaits, Insert;
    Move(s.phase, t, PhaseOf(TrySend(s, t, prio, msg, urgent, timeout), t));
  }

  lemma TrySendBooks(s: State, t: nat, prio: nat, msg: Msg, urgent: bool, timeout: int)
    requires Books(s) && MaySend(s, t, msg) && Ready(s.phase, s.ledger, t, msg)
    ensures Books(TrySend(s, t, prio, msg, urgent, timeout))
  {
    hide Insert, Balanced, Ready;
    match TakeFree(s.q, Waiter(t, prio), timeout).1
    case Refused => BooksGiveUp(s.phase, s.deque, s.ledger, s.q.msgSize, t, msg, Idle);
    case MustWait => BooksKeep(s.phase, s.deque, s.ledger, s.q.msgSize, t, msg, SendSuspended(msg, timeout));
    case Node(n) => BooksKeep(s.phase, s.deque, s.ledger, s.q.msgSize, t, msg, Filling(n, msg, urgent));
  }

  lemma TrySendStores(s: State, t: nat, prio: nat, msg: Msg, urgent: bool, timeout: int)
    requires QueueStores(s)
    ensures QueueStores(TrySend(s, t, prio, msg, urgent, timeout))
  {
    hide Insert, Stores;
  }

  lemma TrySendKeeps(s: State, t: nat, prio: nat, msg: Msg, urgent: bool, timeout: int)
    requires Inv(s) && MaySend(s, t, msg) && Ready(s.phase, s.ledger, t, msg)
    ensures Inv(TrySend(s, t, prio, msg, urgent, timeout))
  {
    TakeFreePartitions(s.q, Waiter(t, prio), timeout);
    TrySendStores(s, t, prio, msg, urgent, timeout);
    hide Partitioned, Flights, Lists, NoLostWakeUp, Insert, Books, Ready, QueueStores;
    TrySendFlights(s, t, prio, msg, urgent, timeout);
    TrySendLists(s, t, prio, msg, urgent, timeout);
    TrySendWakes(s, t, prio, msg, urgent, timeout);
    TrySendBooks(s, t, prio, msg, urgent, timeout);
  }

  /** Asking changes nothing but the ledger. */
  lemma AskKeeps(s: State, t: nat, bytes: Bytes)
    requires Inv(s) && PhaseOf(s, t).Idle?
    ensures var r := s.(ledger := Ask(s.ledger, bytes));
            Inv(r) && Ready(r.phase, r.ledger, t, Msg(|s.ledger.asked|, bytes))
  {
    BooksAsk(s.phase, s.deque, s.ledger, s.q.msgSize, t, bytes);
    hide Partitioned, Ready, Balanced;
  }

  lemma CopyStores(s: State, t: nat, p: Phase)
    requires Partitioned(s.q) && QueueStores(s) && Flights(s) && p == PhaseOf(s, t) && p.Filling?
    requires p.node < |s.q.data| && |p.msg.bytes| <= |s.q.data[p.node]|
    ensures QueueStores(DoCopy(s, t, p))
  {
    HeldNode(s.q, p.node);
    hide Partitioned, Flights, Stores;
    assert forall i :: 0 <= i < |s.q.queue| ==> s.q.queue[i] in s.q.queue;
  }

  lemma CopyFlights(s: State, t: nat, p: Phase)
    requires Flights(s) && p == PhaseOf(s, t) && p.Filling?
    requires p.node < |s.q.data| && |p.msg.bytes| <= |s.q.data[p.node]|
    ensures Flights(DoCopy(s, t, p))
  {
    var r := DoCopy(s, t, p);
    assert Stores(r.q.data[p.node], p.msg.bytes);
    hide Stores, Overwrite;
  }

  lemma CopyLists(s: State, t: nat, p: Phase, q: Mq, now: Phase)
    requires Lists(s) && NoLostWakeUp(s) && (p == PhaseOf(s, t)) && HoldsNode(p) && HoldsNode(now)
    requires q.receivers == s.q.receivers && q.senders == s.q.senders && q.entry == s.q.entry && q.free == s.q.free
    ensures Lists(s.(q := q, phase := s.phase[t := now])) && NoLostWakeUp(s.(q := q, phase := s.phase[t := now]))
  {
    hide Distinct, Tids, SuspendedReceivers, SuspendedSenders, ReceiversWoken, SendersWoken, AnyReceiverWaits,
        AnySenderWaits;
    PhaseSets(s.phase, t, now);
    NotIn(s.phase, t);
    Move(s.phase, t, now);
  }

  lemma CopyKeeps(s: State, t: nat, p: Phase)
    requires Inv(s) && p == PhaseOf(s, t) && p.Filling?
    ensures p.node < |s.q.data| && |p.msg.bytes| <= |s.q.data[p.node]| && Inv(DoCopy(s, t, p))
  {
    HeldNode(s.q, p.node);
    FillPartitions(s.q, p.node, p.msg.bytes, p.urgent);
    BooksStay(s.phase, s.deque, s.ledger, s.q.msgSize, t, Filled(p.node, p.msg, p.urgent));
    CopyStores(s, t, p);
    CopyFlights(s, t, p);
    hide Partitioned, QueueStores, Flights, Lists, NoLostWakeUp, Balanced;
    CopyLists(s, t, p, Fill(s.q, p.node, p.msg.bytes, p.urgent), Filled(p.node, p.msg, p.urgent));
    var r := s.(q := Fill(s.q, p.node, p.msg.bytes, p.urgent), phase := s.phase[t := Filled(p.node, p.msg, p.urgent)]);
    assert DoCopy(s, t, p) == r;
  }

  lemma LinkLists(s: State, t: nat, p: Phase)
    requires Lists(s) && p == PhaseOf(s, t) && p.Filled?
    ensures Lists(DoLink(s, t, p))
    ensures s.q.receivers != [] ==> s.q.receivers[0].tid in s.phase && s.phase[s.q.receivers[0].tid].RecvSuspended?
    ensures s.q.receivers == [] ==> !AnyReceiverWaits(s.phase)
    ensures s.q.receivers != [] ==> AnyReceiverWaits(s.phase)
  {
    hide Distinct, Tids, SuspendedReceivers, SuspendedSenders;
    var idle := s.phase[t := Idle];
    PhaseSets(s.phase, t, Idle);
    NotIn(s.phase, t);
    if s.q.receivers != [] {
      var w := s.q.receivers[0].tid;
      HeadLeaves(s.q.receivers);
      FirstTid(s.q.receivers);
      NotIn(s.phase, w);
      NotIn(idle, w);
      PhaseSets(idle, w, RecvWoken(idle[w].size, idle[w].timeout));
    } else {
      NoTids();
    }
  }

  /** Linking a message in wakes the first waiting receiver for it. */
  lemma LinkWakes(s: State, t: nat, p: Phase)
    requires Lists(s) && NoLostWakeUp(s) && p == PhaseOf(s, t) && p.Filled?
    ensures NoLostWakeUp(DoLink(s, t, p))
  {
    hide Lists, ReceiversWoken, SendersWoken, AnyReceiverWaits, AnySenderWaits;
    LinkLists(s, t, p);
    var idle := s.phase[t := Idle];
    Move(s.phase, t, Idle);
    if s.q.receivers != [] {
      var w := s.q.receivers[0].tid;
      Move(idle, w, RecvWoken(idle[w].size, idle[w].timeout));
    }
  }

  lemma LinkFlights(s: State, t: nat, p: Phase)
    requires Partitioned(s.q) && Flights(s) && Lists(s) && p == PhaseOf(s, t) && p.Filled?
    ensures Flights(DoLink(s, t, p))
  {
    hide Partitioned, Lists;
    var r := DoLink(s, t, p);
    assert r.holder.Keys == s.holder.Keys - {p.node};
    forall n | n in r.holder
      ensures r.holder[n] in r.phase && HoldsNode(r.phase[r.holder[n]]) && r.phase[r.holder[n]].node == n
    {
      assert s.holder[n] != t;
    }
  }

  lemma LinkStores(s: State, t: nat, p: Phase)
    requires QueueStores(s) && Flights(s) && p == PhaseOf(s, t) && p.Filled?
    ensures QueueStores(DoLink(s, t, p))
  {
    hide Stores;
  }

  lemma LinkKeeps(s: State, t: nat, p: Phase)
    requires Inv(s) && p == PhaseOf(s, t) && p.Filled?
    ensures Inv(DoLink(s, t, p))
  {
    LinkPartitions(s.q, p.node, p.urgent) by {
      HeldNode(s.q, p.node);
    }
    LinkLists(s, t, p);
    LinkWakes(s, t, p);
    LinkFlights(s, t, p);
    LinkStores(s, t, p);
    LinkBooks(s, t, p);
  }

  lemma LinkBooks(s: State, t: nat, p: Phase)
    requires Books(s) && p == PhaseOf(s, t) && p.Filled?
    ensures Books(DoLink(s, t, p))
  {
    hide Balanced;
    var idle := s.phase[t := Idle];
    var deque := if p.urgent then [p.msg] + s.deque else s.deque + [p.msg];
    BooksLink(s.phase, s.deque, s.ledger, s.q.msgSize, t, p.msg, p.urgent);
    if s.q.receivers != [] {
      var w := s.q.receivers[0].tid;
      if w in idle && idle[w].RecvSuspended? {
        BooksStay(idle, deque, Linked(s.ledger, p.msg, p.urgent), s.q.msgSize, w,
                  RecvWoken(idle[w].size, idle[w].timeout));
      }
    }
  }

  // ---------------------------------------------------------------------------------
  // Receiving
  // ---------------------------------------------------------------------------------

  ghost predicate MayReceive(s: State, t: nat) {
    PhaseOf(s, t).Idle? || PhaseOf(s, t).RecvWoken?
  }

  lemma TryReceiveFlights(s: State, t: nat, prio: nat, size: nat, timeout: int)
    requires Partitioned(s.q) && QueueStores(s) && Flights(s) && MayReceive(s, t)
    ensures Flights(TryReceive(s, t, prio, size, timeout))
  {
    if s.q.queue != [] {
      QueuedNode(s.q);
    }
    hide Partitioned, Insert, Stores, Flights;
    var (q, g) := Dequeue(s.q, Waiter(t, prio), timeout);
    match g
    case Refused => FlightsStay(s, q, t, Idle, s.ledger);
    case MustWait => FlightsStay(s, q, t, RecvSuspended(size, timeout), s.ledger);
    case Node(n) =>
      FlightStarts(s, q, t, n, Draining(n, size, s.deque[0]), s.deque[1..], Taken(s.ledger, s.deque[0], t));
  }

  lemma TryReceiveStores(s: State, t: nat, prio: nat, size: nat, timeout: int)
    requires s.q.entry == |s.q.queue| && QueueStores(s)
    ensures QueueStores(TryReceive(s, t, prio, size, timeout))
  {
    hide Insert, Stores;
  }

  lemma TryReceiveLists(s: State, t: nat, prio: nat, size: nat, timeout: int)
    requires s.q.entry == |s.q.queue| == |s.deque| && Lists(s) && MayReceive(s, t)
    ensures Lists(TryReceive(s, t, prio, size, timeout))
  {
    hide Distinct, Tids, SuspendedReceivers, SuspendedSenders, Insert;
    var r := TryReceive(s, t, prio, size, timeout);
    PhaseSets(s.phase, t, PhaseOf(r, t));
    NotIn(s.phase, t);
    InsertDistinct(s.q.receivers, Waiter(t, prio), s.q.order);
  }

  lemma TryReceiveWakes(s: State, t: nat, prio: nat, size: nat, timeout: int)
    requires s.q.entry == |s.q.queue| == |s.deque| && NoLostWakeUp(s) && MayReceive(s, t)
    ensures NoLostWakeUp(TryReceive(s, t, prio, size, timeout))
  {
    hide ReceiversWoken, SendersWoken, AnyReceiverWaits, AnySenderWaits, Insert;
    Move(s.phase, t, PhaseOf(TryReceive(s, t, prio, size, timeout), t));
  }

  lemma TryReceiveBooks(s: State, t: nat, prio: nat, size: nat, timeout: int)
    requires s.q.entry == |s.q.queue| == |s.deque| && Books(s) && MayReceive(s, t)
    ensures Books(TryReceive(s, t, prio, size, timeout))
  {
    hide Insert, Balanced;
    match Dequeue(s.q, Waiter(t, prio), timeout).1
    case Refused => BooksStay(s.phase, s.deque, s.ledger, s.q.msgSize, t, Idle);
    case MustWait => BooksStay(s.phase, s.deque, s.ledger, s.q.msgSize, t, RecvSuspended(size, timeout));
    case Node(n) => BooksTake(s.phase, s.deque, s.ledger, s.q.msgSize, t, Draining(n, size, s.deque[0]));
  }

  lemma TryReceiveKeeps(s: State, t: nat, prio: nat, size: nat, timeout: int)
    requires Inv(s) && MayReceive(s, t)
    ensures s.q.entry == |s.q.queue| == |s.deque| && Inv(TryReceive(s, t, prio, size, timeout))
  {
    DequeuePartitions(s.q, Waiter(t, prio), timeout);
    assert s.q.entry == |s.q.queue| == |s.deque|;
    hide Partitioned, QueueStores, Flights, Lists, NoLostWakeUp, Books, Insert;
    TryReceiveFlights(s, t, prio, size, timeout);
    TryReceiveStores(s, t, prio, size, timeout);
    TryReceiveLists(s, t, prio, size, timeout);
    TryReceiveWakes(s, t, prio, size, timeout);
    TryReceiveBooks(s, t, prio, size, timeout);
  }

  lemma FinishLists(s: State, t: nat, p: Phase)
    requires Lists(s) && p == PhaseOf(s, t) && p.Draining? && p.node < |s.q.data| && |s.q.data[p.node]| == s.q.msgSize
    ensures Lists(DoFinish(s, t, p))
    ensures s.q.senders != [] ==> s.q.senders[0].tid in s.phase && s.phase[s.q.senders[0].tid].SendSuspended?
    ensures s.q.senders == [] <==> !AnySenderWaits(s.phase)
  {
    hide Distinct, Tids, SuspendedReceivers, SuspendedSenders, Read;
    var idle := s.phase[t := Idle];
    PhaseSets(s.phase, t, Idle);
    NotIn(s.phase, t);
    if s.q.senders != [] {
      var w := s.q.senders[0].tid;
      HeadLeaves(s.q.senders);
      FirstTid(s.q.senders);
      NotIn(s.phase, w);
      NotIn(idle, w);
      PhaseSets(idle, w, SendWoken(idle[w].msg, idle[w].timeout));
    } else {
      NoTids();
    }
  }

  /** Giving a node back wakes the first waiting sender for it. */
  lemma FinishWakes(s: State, t: nat, p: Phase)
    requires Lists(s) && NoLostWakeUp(s) && p == PhaseOf(s, t) && p.Draining?
    requires p.node < |s.q.data| && |s.q.data[p.node]| == s.q.msgSize
    ensures NoLostWakeUp(DoFinish(s, t, p))
  {
    hide Lists, ReceiversWoken, SendersWoken, AnyReceiverWaits, AnySenderWaits, Read;
    FinishLists(s, t, p);
    var idle := s.phase[t := Idle];
    Move(s.phase, t, Idle);
    if s.q.senders != [] {
      var w := s.q.senders[0].tid;
      Move(idle, w, SendWoken(idle[w].msg, idle[w].timeout));
    }
  }

  lemma FinishFlights(s: State, t: nat, p: Phase)
    requires Flights(s) && Lists(s) && p == PhaseOf(s, t) && p.Draining?
    requires p.node < |s.q.data| && |s.q.data[p.node]| == s.q.msgSize
    ensures Flights(DoFinish(s, t, p))
  {
    FinishLists(s, t, p);
    hide Lists, Read, Stores;
    var r := DoFinish(s, t, p);
    assert r.holder.Keys == s.holder.Keys - {p.node};
    forall n | n in r.holder
      ensures r.holder[n] in r.phase && HoldsNode(r.phase[r.holder[n]]) && r.phase[r.holder[n]].node == n
    {
      assert s.holder[n] != t;
    }
  }

  /** The buffer handed to the caller agrees with the message taken off the queue. */
  lemma FinishBooks(s: State, t: nat, p: Phase)
    requires Books(s) && p == PhaseOf(s, t) && p.Draining?
    requires p.node < |s.q.data| && |s.q.data[p.node]| == s.q.msgSize && Stores(s.q.data[p.node], p.msg.bytes)
    ensures Books(DoFinish(s, t, p))
  {
    var d := Delivery(t, p.size, Read(s.q, p.node, p.size));
    forall k | 0 <= k < |d.buffer| && k < |p.msg.bytes|
      ensures d.buffer[k] == p.msg.bytes[k]
    {
      assert s.q.data[p.node][..|p.msg.bytes|][k] == p.msg.bytes[k];
    }
    BooksDeliver(s.phase, s.deque, s.ledger, s.q.msgSize, t, p.msg, d);
    hide Balanced, Read, Stores;
    var idle := s.phase[t := Idle];
    if s.q.senders != [] {
      var w := s.q.senders[0].tid;
      if w in idle && idle[w].SendSuspended? {
        BooksStay(idle, s.deque, Delivered(s.ledger, p.msg, d), s.q.msgSize, w,
                  SendWoken(idle[w].msg, idle[w].timeout));
      }
    }
  }

  lemma FinishKeeps(s: State, t: nat, p: Phase)
    requires Inv(s) && p == PhaseOf(s, t) && p.Draining?
    ensures p.node < |s.q.data| && |s.q.data[p.node]| == s.q.msgSize && Inv(DoFinish(s, t, p))
  {
    HeldNode(s.q, p.node);
    ReleasePartitions(s.q, p.node);
    FinishBooks(s, t, p);
    hide Partitioned, Flights, Lists, NoLostWakeUp, Books, Read;
    FinishLists(s, t, p);
    FinishWakes(s, t, p);
    FinishFlights(s, t, p);
  }

  // ---------------------------------------------------------------------------------
  // Timers and resets
  // ---------------------------------------------------------------------------------

  lemma ExpireLists(s: State, t: nat)
    requires Lists(s) && NoLostWakeUp(s) && (PhaseOf(s, t).SendSuspended? || PhaseOf(s, t).RecvSuspended?)
    ensures Lists(DoExpire(s, t)) && NoLostWakeUp(DoExpire(s, t))
  {
    hide Distinct, Tids, SuspendedReceivers, SuspendedSenders, ReceiversWoken, SendersWoken, AnyReceiverWaits,
        AnySenderWaits;
    PhaseSets(s.phase, t, Idle);
    Move(s.phase, t, Idle);
    WithoutRemoves(s.q.receivers, t);
    WithoutRemoves(s.q.senders, t);
  }

  lemma ExpirePartitions(s: State, t: nat)
    requires Partitioned(s.q)
    ensures Partitioned(DoExpire(s, t).q)
  {
    hide Without;
  }

  lemma ExpireFlights(s: State, t: nat)
    requires Flights(s) && (PhaseOf(s, t).SendSuspended? || PhaseOf(s, t).RecvSuspended?)
    ensures Flights(DoExpire(s, t))
  {
    hide Flights, Without;
    var p := PhaseOf(s, t);
    FlightsStay(s, Timeout(s.q, t), t, Idle, if p.SendSuspended? then GiveUp(s.ledger, p.msg) else s.ledger);
  }

  lemma ExpireBooks(s: State, t: nat)
    requires Books(s) && (PhaseOf(s, t).SendSuspended? || PhaseOf(s, t).RecvSuspended?)
    ensures Books(DoExpire(s, t))
  {
    var p := PhaseOf(s, t);
    if p.SendSuspended? {
      SenderReady(s.phase, s.ledger, t);
      hide Balanced;
      BooksGiveUp(s.phase, s.deque, s.ledger, s.q.msgSize, t, p.msg, Idle);
    } else {
      BooksStay(s.phase, s.deque, s.ledger, s.q.msgSize, t, Idle);
    }
  }

  lemma ExpireKeeps(s: State, t: nat)
    requires Inv(s) && (PhaseOf(s, t).SendSuspended? || PhaseOf(s, t).RecvSuspended?)
    ensures Inv(DoExpire(s, t))
  {
    ExpireLists(s, t);
    ExpireBooks(s, t);
    ExpireFlights(s, t);
    ExpirePartitions(s, t);
    hide Lists, NoLostWakeUp, Stores, Without, Books, Flights, Partitioned;
  }

  lemma ResetLists(s: State)
    ensures Lists(DoReset(s)) && NoLostWakeUp(DoReset(s))
  {
    hide Reversed;
    NoTids();
  }

  lemma ResetFlights(s: State)
    requires Flights(s)
    ensures Flights(DoReset(s))
  {
    hide Reversed, Stores;
  }

  lemma ResetBooks(s: State)
    requires Books(s)
    ensures Books(DoReset(s))
  {
    var now := DoReset(s).phase;
    forall u: nat
      ensures At(now, u) == if At(s.phase, u).SendSuspended? || At(s.phase, u).RecvSuspended? then Idle
              else At(s.phase, u)
    {
      assert u in now <==> u in s.phase;
    }
    BooksDiscard(s.phase, now, s.deque, s.ledger, s.q.msgSize);
    hide Balanced, Reversed;
  }

  lemma ResetKeeps(s: State)
    requires Inv(s)
    ensures Inv(DoReset(s))
  {
    ResetPartitions(s.q);
    ResetFlights(s);
    ResetLists(s);
    ResetBooks(s);
    hide Partitioned, Flights, Lists, NoLostWakeUp, Books, Reversed;
  }

  // ---------------------------------------------------------------------------------
  // All runs
  // ---------------------------------------------------------------------------------

  lemma WokenReady(s: State, t: nat)
    requires Inv(s) && PhaseOf(s, t).SendWoken?
    ensures Ready(s.phase, s.ledger, t, PhaseOf(s, t).msg)
  {
    SenderReady(s.phase, s.ledger, t);
    hide Ready;
  }

  lemma NextKeeps(s: State, e: Event)
    requires Inv(s)
    ensures Inv(Next(s, e))
  {
    assert forall t :: t in s.phase ==> PhaseFits(s.q, s.phase[t]);
    hide Inv, TrySend, TryReceive, DoCopy, DoLink, DoFinish, DoReset, DoExpire, Ready, Balanced;
    match e
    case Send(t, prio, bytes, urgent, timeout) =>
      if PhaseOf(s, t).Idle? && 0 < |bytes| <= s.q.msgSize {
        AskKeeps(s, t, bytes);
        TrySendKeeps(s.(ledger := Ask(s.ledger, bytes)), t, prio, Msg(|s.ledger.asked|, bytes), urgent,
                     if urgent then 0 else timeout);
      }
    case SendAgain(t, prio, elapsed) =>
      var p := PhaseOf(s, t);
      if p.SendWoken? {
        WokenReady(s, t);
        TrySendKeeps(s, t, prio, p.msg, false, Remaining(p.timeout, elapsed));
      }
    case Copy(t) =>
      if PhaseOf(s, t).Filling? {
        CopyKeeps(s, t, PhaseOf(s, t));
      }
    case LinkIn(t) =>
      if PhaseOf(s, t).Filled? {
        LinkKeeps(s, t, PhaseOf(s, t));
      }
    case Receive(t, prio, size, timeout) =>
      if PhaseOf(s, t).Idle? && 0 < size {
        TryReceiveKeeps(s, t, prio, size, timeout);
      }
    case ReceiveAgain(t, prio, elapsed) =>
      var p := PhaseOf(s, t);
      if p.RecvWoken? {
        TryReceiveKeeps(s, t, prio, p.size, Remaining(p.timeout, elapsed));
      }
    case Finish(t) =>
      if PhaseOf(s, t).Draining? {
        FinishKeeps(s, t, PhaseOf(s, t));
      }
    case Expire(t) =>
      var p := PhaseOf(s, t);
      if (p.SendSuspended? || p.RecvSuspended?) && p.timeout > 0 {
        ExpireKeeps(s, t);
      }
    case ResetQueue =>
      ResetKeeps(s);
  }

  ghost predicate Fresh(q: Mq) {
    Partitioned(q) && q.queue == [] && q.held == {} && q.receivers == [] && q.senders == []
  }

  function Start(q: Mq): State {
    State(q, map[], map[], [], Opened())
  }

  lemma StartIsFine(q: Mq)
    requires Fresh(q)
    ensures Inv(Start(q))
  {
    NoTids();
  }

  /** The state after any sequence of events from a fresh queue. */
  ghost function Run(q: Mq, events: seq<Event>): (s: State)
    requires Fresh(q)
    ensures Inv(s)
    decreases |events|
  {
    if events == [] then
      StartIsFine(q);
      Start(q)
    else
      var before, e := Run(q, events[..|events| - 1]), events[|events| - 1];
      NextKeeps(before, e);
      Next(before, e)
  }

  lemma SuspendedIsCovered(s: State, t: nat)
    requires NoLostWakeUp(s) && t in s.phase
    ensures s.phase[t].RecvSuspended? ==> |WokenReceivers(s.phase)| >= s.q.entry
    ensures s.phase[t].SendSuspended? ==> |WokenSenders(s.phase)| >= |s.q.free|
  {
    NotIn(s.phase, t);
  }

  /** On every run: a thread is left suspended on the receive list only if as many others as
      there are messages have already been woken and have yet to look; likewise for senders
      and free nodes. So when all woken threads have looked, waiting receivers mean an empty
      queue and waiting senders an empty free list. */
  lemma NoWakeUpIsLost(q: Mq, events: seq<Event>, t: nat)
    requires Fresh(q) && t in Run(q, events).phase
    ensures var s := Run(q, events);
            && (s.phase[t].RecvSuspended? ==> |WokenReceivers(s.phase)| >= |s.q.queue|)
            && (s.phase[t].SendSuspended? ==> |WokenSenders(s.phase)| >= |s.q.free|)
  {
    hide Run, Fresh, Partitioned, NoLostWakeUp, WokenReceivers, WokenSenders;
    var s := Run(q, events);
    SuspendedIsCovered(s, t);
    QueueCounted(s.q);
  }

  lemma QueueCounted(q: Mq)
    requires Partitioned(q)
    ensures q.entry == |q.queue|
  {
  }

  // ---------------------------------------------------------------------------------
  // What becomes of the messages
  // ---------------------------------------------------------------------------------

  /** The bytes of the send events, in order. */
  function Requests(events: seq<Event>): seq<Bytes>
    decreases |events|
  {
    if events == [] then []
    else
      var e := events[|events| - 1];
      Requests(events[..|events| - 1]) + if e.Send? then [e.bytes] else []
  }

  function Contents(msgs: seq<Msg>): (r: seq<Bytes>)
    ensures |r| == |msgs| && forall i :: 0 <= i < |msgs| ==> r[i] == msgs[i].bytes
  {
    seq(|msgs|, i requires 0 <= i < |msgs| => msgs[i].bytes)
  }

  /** A step asks for nothing but what its event sends. */
  lemma NextAsks(s: State, e: Event)
    requires Inv(s)
    ensures var r := Next(s, e);
            || r.ledger.asked == s.ledger.asked
            || (e.Send? && r.ledger.asked == s.ledger.asked + [Msg(|s.ledger.asked|, e.bytes)])
  {
    hide Inv, TakeFree, Dequeue, Fill, Link, Release, Reset, Timeout, WakeReceiver, WakeSender;
  }

  lemma {:induction false} AskedWereSent(q: Mq, events: seq<Event>)
    requires Fresh(q)
    ensures multiset(Contents(Run(q, events).ledger.asked)) <= multiset(Requests(events))
    decreases |events|
  {
    hide Inv, Next, Fresh;
    if events != [] {
      var before, e := Run(q, events[..|events| - 1]), events[|events| - 1];
      var asked := before.ledger.asked;
      AskedWereSent(q, events[..|events| - 1]);
      NextAsks(before, e);
      if e.Send? {
        assert Contents(asked + [Msg(|asked|, e.bytes)]) == Contents(asked) + [e.bytes];
      }
    }
  }

  datatype Wish = Wish(tid: nat, size: nat)

  /** Who has asked to receive how many bytes. */
  function Wishes(events: seq<Event>): set<Wish>
    decreases |events|
  {
    if events == [] then {}
    else
      var e := events[|events| - 1];
      Wishes(events[..|events| - 1]) + if e.Receive? then {Wish(e.tid, e.size)} else {}
  }

  /** Every receiving thread and every delivery goes by one of these wishes. */
  ghost predicate Wished(s: State, wishes: set<Wish>) {
    && (forall t :: t in s.phase && (s.phase[t].Draining? || s.phase[t].RecvSuspended? || s.phase[t].RecvWoken?) ==>
          Wish(t, s.phase[t].size) in wishes)
    && (forall i :: i in s.ledger.delivered ==> Wish(s.ledger.delivered[i].tid, s.ledger.delivered[i].size) in wishes)
  }

  lemma MoreWishes(s: State, wishes: set<Wish>, more: set<Wish>)
    requires Wished(s, wishes)
    ensures Wished(s, wishes + more)
  {
  }

  lemma SendWishes(s: State, t: nat, prio: nat, msg: Msg, urgent: bool, timeout: int, wishes: set<Wish>)
    requires Wished(s, wishes)
    ensures Wished(TrySend(s, t, prio, msg, urgent, timeout), wishes)
  {
    hide TakeFree;
  }

  lemma ReceiveWishes(s: State, t: nat, prio: nat, size: nat, timeout: int, wishes: set<Wish>)
    requires s.q.entry == |s.q.queue| == |s.deque| && Wished(s, wishes) && Wish(t, size) in wishes
    ensures Wished(TryReceive(s, t, prio, size, timeout), wishes)
  {
    hide Dequeue;
  }

  lemma LinkWishes(s: State, t: nat, wishes: set<Wish>)
    requires Wished(s, wishes) && PhaseOf(s, t).Filled?
    ensures Wished(DoLink(s, t, PhaseOf(s, t)), wishes)
  {
    hide Link;
  }

  lemma FinishWishes(s: State, t: nat, wishes: set<Wish>)
    requires Wished(s, wishes) && PhaseOf(s, t).Draining?
    requires var n := PhaseOf(s, t).node; n < |s.q.data| && |s.q.data[n]| == s.q.msgSize
    ensures Wished(DoFinish(s, t, PhaseOf(s, t)), wishes)
  {
    hide Release, Read;
  }

  lemma CopyWishes(s: State, t: nat, wishes: set<Wish>)
    requires Wished(s, wishes) && PhaseOf(s, t).Filling?
    requires var p := PhaseOf(s, t); p.node < |s.q.data| && |p.msg.bytes| <= |s.q.data[p.node]|
    ensures Wished(DoCopy(s, t, PhaseOf(s, t)), wishes)
  {
    hide Fill;
  }

  lemma LeaveWishes(s: State, t: nat, wishes: set<Wish>)
    requires Wished(s, wishes)
    ensures Wished(DoExpire(s, t), wishes) && Wished(DoReset(s), wishes)
  {
    hide Timeout, Reset;
  }

  lemma NextWishes(s: State, e: Event, wishes: set<Wish>)
    requires Inv(s) && Wished(s, wishes)
    ensures Wished(Next(s, e), wishes + if e.Receive? then {Wish(e.tid, e.size)} else {})
  {
    var more := wishes + if e.Receive? then {Wish(e.tid, e.size)} else {};
    MoreWishes(s, wishes, if e.Receive? then {Wish(e.tid, e.size)} else {});
    assert s.q.entry == |s.q.queue| == |s.deque|;
    AskWishes(s, if e.Send? then e.bytes else [], more);
    forall t: nat
      ensures HoldsNode(PhaseOf(s, t)) ==>
                PhaseOf(s, t).node < |s.q.data| && |s.q.data[PhaseOf(s, t).node]| == s.q.msgSize
      ensures PhaseOf(s, t).Filling? ==> |PhaseOf(s, t).msg.bytes| <= s.q.msgSize
    {
      NodeKnown(s, t);
    }
    hide Inv, Wished, TrySend, TryReceive, DoCopy, DoLink, DoFinish, DoExpire, DoReset;
    match e
    case Send(t, prio, bytes, urgent, timeout) =>
      SendWishes(s.(ledger := Ask(s.ledger, bytes)), t, prio, Msg(|s.ledger.asked|, bytes), urgent,
                 if urgent then 0 else timeout, more);
    case SendAgain(t, prio, elapsed) =>
      var p := PhaseOf(s, t);
      if p.SendWoken? {
        SendWishes(s, t, prio, p.msg, false, Remaining(p.timeout, elapsed), more);
      }
    case Receive(t, prio, size, timeout) =>
      ReceiveWishes(s, t, prio, size, timeout, more);
    case ReceiveAgain(t, prio, elapsed) =>
      var p := PhaseOf(s, t);
      if p.RecvWoken? {
        WokenWishes(s, t, more);
        ReceiveWishes(s, t, prio, p.size, Remaining(p.timeout, elapsed), more);
      }
    case Copy(t) =>
      if PhaseOf(s, t).Filling? {
        CopyWishes(s, t, more);
      }
    case LinkIn(t) =>
      if PhaseOf(s, t).Filled? {
        LinkWishes(s, t, more);
      }
    case Finish(t) =>
      if PhaseOf(s, t).Draining? {
        FinishWishes(s, t, more);
      }
    case Expire(t) => LeaveWishes(s, t, more);
    case ResetQueue => LeaveWishes(s, 0, more);
  }

  lemma AskWishes(s: State, bytes: Bytes, wishes: set<Wish>)
    requires Wished(s, wishes)
    ensures Wished(s.(ledger := Ask(s.ledger, bytes)), wishes)
  {
  }

  lemma WokenWishes(s: State, t: nat, wishes: set<Wish>)
    requires Wished(s, wishes) && PhaseOf(s, t).RecvWoken?
    ensures Wish(t, PhaseOf(s, t).size) in wishes
  {
  }

  lemma NodeKnown(s: State, t: nat)
    requires Inv(s)
    ensures HoldsNode(PhaseOf(s, t)) ==>
              PhaseOf(s, t).node < |s.q.data| && |s.q.data[PhaseOf(s, t).node]| == s.q.msgSize
    ensures PhaseOf(s, t).Filling? ==> |PhaseOf(s, t).msg.bytes| <= s.q.msgSize
  {
    hide QueueStores, Lists, NoLostWakeUp, Balanced, Stores;
    if t in s.phase {
      assert PhaseFits(s.q, s.phase[t]);
    }
  }

  lemma {:induction false} SizesWereAsked(q: Mq, events: seq<Event>)
    requires Fresh(q)
    ensures Wished(Run(q, events), Wishes(events))
    decreases |events|
  {
    hide Inv, Next, Fresh, Wished;
    if events == [] {
      StartWishes(q);
    } else {
      SizesWereAsked(q, events[..|events| - 1]);
      NextWishes(Run(q, events[..|events| - 1]), events[|events| - 1], Wishes(events[..|events| - 1]));
    }
  }

  lemma StartWishes(q: Mq)
    ensures Wished(Start(q), {})
  {
  }

  /** On every run: messages are numbered requests of send events; a message is linked at most
      once, and then it is queued, or was taken, or thrown away by a reset, and only one of these;
      a message that was taken is with exactly one receiver or was delivered, once, to a thread that
      asked for so many bytes, as many of them as a node holds, agreeing with what was sent as far
      as that goes. Without
      urgent sends and resets messages are taken in the order in which they were linked. */
  lemma MessagesAreConserved(q: Mq, events: seq<Event>)
    requires Fresh(q)
    ensures var s := Run(q, events);
            var l := s.ledger;
            && multiset(Contents(l.asked)) <= multiset(Requests(events)) && Wished(s, Wishes(events))
            && (forall m :: m in l.linked ==> m.id < |l.asked| && l.asked[m.id] == m)
            && (forall i, j :: 0 <= i < j < |l.linked| ==> l.linked[i] != l.linked[j])
            && multiset(l.linked) == multiset(s.deque) + multiset(l.taken) + l.dropped
            && (forall m :: m in l.taken ==> (m.id in l.taker <==> m.id !in l.delivered))
            && (forall i :: i in l.delivered ==>
                  i < |l.asked| && l.asked[i] in l.taken && Faithful(l.delivered[i], l.asked[i].bytes, s.q.msgSize))
            && (l.plain ==> l.linked == l.taken + s.deque)
  {
    AskedWereSent(q, events);
    SizesWereAsked(q, events);
    hide Run, Next, Wished, Partitioned, QueueStores, Flights, Lists, NoLostWakeUp, Faithful, At;
  }

  /** A receiver that is copying a message out took that message, which nobody else has. */
  lemma InHandIsTaken(q: Mq, events: seq<Event>, t: nat, u: nat)
    requires Fresh(q) && PhaseOf(Run(q, events), t).Draining?
    ensures var s := Run(q, events);
            var m := PhaseOf(s, t).msg;
            && m in s.ledger.taken && m.id !in s.ledger.delivered
            && (PhaseOf(s, u).Draining? && PhaseOf(s, u).msg == m ==> u == t)
  {
    var s := Run(q, events);
    hide Run, Next, Partitioned, QueueStores, Flights, Lists, NoLostWakeUp, Faithful, At, Conserved;
    assert Gets(At(s.phase, t)).Carry? && Gets(At(s.phase, u)) == Gets(At(s.phase, u));
    assert Gets(At(s.phase, s.ledger.taker[PhaseOf(s, t).msg.id])) == Carry(s.ledger.asked[PhaseOf(s, t).msg.id]);
  }

  // ---------------------------------------------------------------------------------
  // Who gets what, and in which order
  // ---------------------------------------------------------------------------------

  /** What a send call does first: with a free node it starts copying, without one it is refused
      at once or waits. */
  lemma SendBegins(s: State, t: nat, prio: nat, bytes: Bytes, urgent: bool, timeout: int)
    requires Inv(s) && PhaseOf(s, t).Idle? && 0 < |bytes| <= s.q.msgSize
    ensures var r := Next(s, Send(t, prio, bytes, urgent, timeout));
            var p := PhaseOf(r, t);
            && r.deque == s.deque && r.ledger.taken == s.ledger.taken
            && (s.q.free != [] ==> p.Filling? && p.msg.bytes == bytes && p.urgent == urgent)
            && (s.q.free == [] && (urgent || timeout == 0) ==> p == Idle)
            && (s.q.free == [] && !urgent && timeout != 0 ==>
                  p.SendSuspended? && p.msg.bytes == bytes && p.timeout == timeout)
  {
    hide Inv, Insert;
  }

  /** The copy changes neither the message nor its urgency. */
  lemma CopyCarries(s: State, t: nat)
    requires Inv(s) && PhaseOf(s, t).Filling?
    ensures var p, r := PhaseOf(s, t), Next(s, Copy(t));
            PhaseOf(r, t) == Filled(p.node, p.msg, p.urgent) && r.deque == s.deque && r.ledger.taken == s.ledger.taken
  {
    NodeKnown(s, t);
    hide Inv, Fill;
  }

  /** Linking puts an urgent message in front of all others and a plain one behind them. */
  lemma LinkPlaces(s: State, t: nat)
    requires Inv(s) && PhaseOf(s, t).Filled?
    ensures var p, r := PhaseOf(s, t), Next(s, LinkIn(t));
            && r.deque == (if p.urgent then [p.msg] + s.deque else s.deque + [p.msg])
            && r.ledger.taken == s.ledger.taken && r.ledger.linked == s.ledger.linked + [p.msg]
            && r.q.entry == s.q.entry + 1
  {
    hide Inv, WakeReceiver;
  }

  /** Thread t asks to receive size bytes, for the first time or again after a wake-up. */
  ghost predicate Receives(s: State, e: Event, t: nat, size: nat) {
    || (e.Receive? && e.tid == t && PhaseOf(s, t).Idle? && e.size == size > 0)
    || (e.ReceiveAgain? && e.tid == t && PhaseOf(s, t).RecvWoken? && PhaseOf(s, t).size == size)
  }

  /** A receive takes the first message of the queue, if there is one, and hands exactly that one
      to the thread; the others stay as they are. */
  lemma ReceiveGetsFirst(s: State, e: Event, t: nat, size: nat)
    requires Inv(s) && Receives(s, e, t, size)
    ensures var r := Next(s, e);
            && (s.deque == [] ==> !PhaseOf(r, t).Draining? && r.deque == [] && r.ledger.taken == s.ledger.taken)
            && (s.deque != [] ==>
                  && PhaseOf(r, t).Draining? && PhaseOf(r, t).msg == s.deque[0] && PhaseOf(r, t).size == size
                  && r.deque == s.deque[1..] && r.ledger.taken == s.ledger.taken + [s.deque[0]])
  {
    assert s.q.entry == |s.q.queue| == |s.deque|;
    hide Inv, Insert;
  }

  lemma SendOrder(s: State, t: nat, prio: nat, msg: Msg, urgent: bool, timeout: int)
    ensures var r := TrySend(s, t, prio, msg, urgent, timeout);
            r.deque == s.deque && r.ledger.taken == s.ledger.taken
  {
    hide TakeFree;
  }

  lemma ReceiveOrder(s: State, t: nat, prio: nat, size: nat, timeout: int)
    requires s.q.entry == |s.q.queue| == |s.deque|
    ensures var r := TryReceive(s, t, prio, size, timeout); r.ledger.taken + r.deque == s.ledger.taken + s.deque
  {
    hide Dequeue;
    if s.deque != [] {
      assert s.ledger.taken + s.deque == (s.ledger.taken + [s.deque[0]]) + s.deque[1..];
    }
  }

  /** Whatever else happens but linking and resets leaves the order of the messages alone. */
  lemma OrderStays(s: State, e: Event)
    requires Inv(s) && !e.LinkIn? && !e.ResetQueue?
    ensures Next(s, e).ledger.taken + Next(s, e).deque == s.ledger.taken + s.deque
  {
    assert s.q.entry == |s.q.queue| == |s.deque|;
    hide Inv, TrySend, TryReceive, Fill, Release, Timeout, WakeSender, Read, Ask;
    match e
    case Send(t, prio, bytes, urgent, timeout) =>
      SendOrder(s.(ledger := Ask(s.ledger, bytes)), t, prio, Msg(|s.ledger.asked|, bytes), urgent,
                if urgent then 0 else timeout);
      AskOrder(s.ledger, bytes);
    case SendAgain(t, prio, elapsed) =>
      var p := PhaseOf(s, t);
      if p.SendWoken? {
        SendOrder(s, t, prio, p.msg, false, Remaining(p.timeout, elapsed));
      }
    case Receive(t, prio, size, timeout) =>
      ReceiveOrder(s, t, prio, size, timeout);
    case ReceiveAgain(t, prio, elapsed) =>
      var p := PhaseOf(s, t);
      if p.RecvWoken? {
        ReceiveOrder(s, t, prio, p.size, Remaining(p.timeout, elapsed));
      }
    case _ =>
  }

  lemma AskOrder(l: Ledger, bytes: Bytes)
    ensures Ask(l, bytes).taken == l.taken
  {
  }

  ghost predicate NoLinks(events: seq<Event>) {
    forall e :: e in events ==> !e.LinkIn? && !e.ResetQueue?
  }

  lemma RunFurther(q: Mq, events: seq<Event>, e: Event)
    requires Fresh(q)
    ensures Run(q, events + [e]) == Next(Run(q, events), e)
  {
    assert (events + [e])[..|events + [e]| - 1] == events;
    hide Inv, Next, Fresh;
  }

  lemma {:induction false} OrderStaysLong(q: Mq, events: seq<Event>, more: seq<Event>)
    requires Fresh(q) && NoLinks(more)
    ensures var s, r := Run(q, events), Run(q, events + more);
            r.ledger.taken + r.deque == s.ledger.taken + s.deque
    decreases |more|
  {
    hide Inv, Next, Fresh;
    if more == [] {
      assert events + more == events;
    } else {
      var last, less := more[|more| - 1], more[..|more| - 1];
      assert last in more && forall e :: e in less ==> e in more;
      assert events + more == events + less + [last];
      OrderStaysLong(q, events, less);
      RunFurther(q, events + less, last);
      OrderStays(Run(q, events + less), last);
    }
  }

  /** On every run: after an urgent message is linked, and until something else is linked or the
      queue is reset, messages are taken in this order: the urgent one, then the others as they
      stood. After a plain one: the others as they stood, then that one. */
  lemma OrderOfTaking(q: Mq, events: seq<Event>, t: nat, more: seq<Event>)
    requires Fresh(q) && PhaseOf(Run(q, events), t).Filled? && NoLinks(more)
    ensures var s, r := Run(q, events), Run(q, events + [LinkIn(t)] + more);
            var p := PhaseOf(s, t);
            r.ledger.taken + r.deque == s.ledger.taken + (if p.urgent then [p.msg] + s.deque else s.deque + [p.msg])
  {
    OrderStaysLong(q, events + [LinkIn(t)], more);
    RunFurther(q, events, LinkIn(t));
    LinkPlaces(Run(q, events), t);
    hide Inv, Next, Fresh, Run;
  }

  /** On every run: after an urgent message is linked, the next receive that takes anything gets it,
      and the messages that were there before are left as they stood. */
  lemma UrgentIsNext(q: Mq, events: seq<Event>, t: nat, more: seq<Event>, e: Event, u: nat, size: nat)
    requires Fresh(q) && PhaseOf(Run(q, events), t).Filled? && PhaseOf(Run(q, events), t).urgent && NoLinks(more)
    requires Run(q, events + [LinkIn(t)] + more).ledger.taken == Run(q, events).ledger.taken
    requires Receives(Run(q, events + [LinkIn(t)] + more), e, u, size)
    ensures var s, r := Run(q, events), Run(q, events + [LinkIn(t)] + more + [e]);
            PhaseOf(r, u).Draining? && PhaseOf(r, u).msg == PhaseOf(s, t).msg && r.deque == s.deque
  {
    var s, m := Run(q, events), Run(q, events + [LinkIn(t)] + more);
    OrderOfTaking(q, events, t, more);
    SameRest(s.ledger.taken, m.deque, [PhaseOf(s, t).msg] + s.deque);
    RunFurther(q, events + [LinkIn(t)] + more, e);
    ReceiveGetsFirst(m, e, u, size);
    hide Inv, Next, Fresh, Run, Receives;
  }

  lemma SameRest(a: seq<Msg>, b: seq<Msg>, c: seq<Msg>)
    requires a + b == a + c
    ensures b == c
  {
    assert b == (a + b)[|a|..] && c == (a + c)[|a|..];
  }
}
