/** Any number of threads using one mailbox, their interrupt-disabled sections interleaved
    with timer expiries and resets in any order. */
module MailboxRuns {
  import opened WaitList
  import opened MailboxSpec

  datatype Phase =
    | Idle
    | SendSuspended(value: Mail, timeout: int)
    | SendWoken(value: Mail, timeout: int)
    | RecvSuspended(timeout: int)
    | RecvWoken(timeout: int)

  /** accepted, taken: every mail sent and received so far, in order of sending and receiving.
      plain: no urgent mail and no reset so far. */
  datatype State = State(
    m: Mb, phase: map<nat, Phase>, accepted: seq<Mail>, taken: seq<Mail>, dropped: multiset<Mail>, plain: bool)

  datatype Event =
    | SendMail(tid: nat, prio: nat, value: Mail, timeout: int)
    | SendAgain(tid: nat, prio: nat, elapsed: nat)
    | SendUrgent(value: Mail)
    | Receive(tid: nat, prio: nat, timeout: int)
    | ReceiveAgain(tid: nat, prio: nat, elapsed: nat)
    | Expire(tid: nat)
    | ResetMailbox

  function At(phase: map<nat, Phase>, t: nat): Phase {
    if t in phase then phase[t] else Idle
  }

  function Remaining(timeout: int, elapsed: nat): int {
    if timeout > 0 then if timeout - elapsed < 0 then 0 else timeout - elapsed else timeout
  }

  function WakeReceiver(phase: map<nat, Phase>, w: Option<Waiter>): map<nat, Phase> {
    if w.Some? && At(phase, w.value.tid).RecvSuspended?
        then phase[w.value.tid := RecvWoken(phase[w.value.tid].timeout)] else phase
  }

  function WakeSender(phase: map<nat, Phase>, w: Option<Waiter>): map<nat, Phase> {
    if w.Some? && At(phase, w.value.tid).SendSuspended?
    then phase[w.value.tid := SendWoken(phase[w.value.tid].value, phase[w.value.tid].timeout)] else phase
  }

  function TrySend(s: State, t: nat, prio: nat, value: Mail, timeout: int): State {
    var (m, r) := Send(s.m, Waiter(t, prio), value, timeout);
    match r
    case Full => s.(m := m, phase := s.phase[t := Idle])
    case SenderWaits => s.(m := m, phase := s.phase[t := SendSuspended(value, timeout)])
    case Sent(w) => s.(m := m, phase := WakeReceiver(s.phase[t := Idle], w), accepted := s.accepted + [value])
  }

  function TryUrgent(s: State, value: Mail): State {
    var (m, r) := Urgent(s.m, value);
    match r
    case Sent(w) => s.(m := m, phase := WakeReceiver(s.phase, w), accepted := s.accepted + [value], plain := false)
    case _ => s
  }

  function TryReceive(s: State, t: nat, prio: nat, timeout: int): State {
    var (m, r) := Recv(s.m, Waiter(t, prio), timeout);
    match r
    case Empty => s.(m := m, phase := s.phase[t := Idle])
    case ReceiverWaits => s.(m := m, phase := s.phase[t := RecvSuspended(timeout)])
    case Got(value, w) => s.(m := m, phase := WakeSender(s.phase[t := Idle], w), taken := s.taken + [value])
  }

  function DoReset(s: State): State {
    s.(m := Reset(s.m),
       phase := map t | t in s.phase :: if s.phase[t].SendSuspended? || s.phase[t].RecvSuspended? then Idle
           else s.phase[t],
       dropped := s.dropped + multiset(s.m.content), plain := false)
  }

  /** One step; an event that cannot happen now changes nothing. */
  function Next(s: State, e: Event): State {
    match e
    case SendMail(t, prio, value, timeout) =>
      if At(s.phase, t).Idle? then TrySend(s, t, prio, value, timeout) else s
    case SendAgain(t, prio, elapsed) =>
      var p := At(s.phase, t);
      if p.SendWoken? then TrySend(s, t, prio, p.value, Remaining(p.timeout, elapsed)) else s
    case SendUrgent(value) => TryUrgent(s, value)
    case Receive(t, prio, timeout) =>
      if At(s.phase, t).Idle? then TryReceive(s, t, prio, timeout) else s
    case ReceiveAgain(t, prio, elapsed) =>
      var p := At(s.phase, t);
      if p.RecvWoken? then TryReceive(s, t, prio, Remaining(p.timeout, elapsed)) else s
    case Expire(t) =>
      var p := At(s.phase, t);
      if (p.SendSuspended? || p.RecvSuspended?) && p.timeout > 0
      then s.(m := Timeout(s.m, t), phase := s.phase[t := Idle]) else s
    case ResetMailbox => DoReset(s)
  }

  function Run(size: nat, order: Order, events: seq<Event>): State
    decreases |events|
  {
    if events == [] then State(Mb(size, order, [], [], []), map[], [], [], multiset{}, true)
    else Next(Run(size, order, events[..|events| - 1]), events[|events| - 1])
  }

  // ---------------------------------------------------------------------------------
  // The invariant
  // ---------------------------------------------------------------------------------

  ghost function SuspendedReceivers(phase: map<nat, Phase>): set<nat> {
    set t | t in phase && phase[t].RecvSuspended?
  }

  ghost function SuspendedSenders(phase: map<nat, Phase>): set<nat> {
    set t | t in phase && phase[t].SendSuspended?
  }

  ghost function WokenReceivers(phase: map<nat, Phase>): set<nat> {
    set t | t in phase && phase[t].RecvWoken?
  }

  ghost function WokenSenders(phase: map<nat, Phase>): set<nat> {
    set t | t in phase && phase[t].SendWoken?
  }

  ghost function ReceiversWoken(phase: map<nat, Phase>): nat {
    |WokenReceivers(phase)|
  }

  ghost function SendersWoken(phase: map<nat, Phase>): nat {
    |WokenSenders(phase)|
  }

  ghost predicate AnyReceiverWaits(phase: map<nat, Phase>) {
    SuspendedReceivers(phase) != {}
  }

  ghost predicate AnySenderWaits(phase: map<nat, Phase>) {
    SuspendedSenders(phase) != {}
  }

  ghost predicate Lists(m: Mb, phase: map<nat, Phase>) {
    && Distinct(m.receivers) && Tids(m.receivers) == SuspendedReceivers(phase)
    && Distinct(m.senders) && Tids(m.senders) == SuspendedSenders(phase)
  }

  /** Nobody stays suspended for a mail or a free slot, unless enough others have already been
      woken to take all of them. */
  ghost predicate NoLostWakeUp(m: Mb, phase: map<nat, Phase>) {
    && |m.content| <= m.size
    && (AnyReceiverWaits(phase) ==> ReceiversWoken(phase) >= |m.content|)
    && (AnySenderWaits(phase) ==> SendersWoken(phase) >= m.size - |m.content|)
  }

  ghost predicate Conserved(s: State) {
    && multiset(s.accepted) == multiset(s.m.content) + multiset(s.taken) + s.dropped
    && (s.plain ==> s.accepted == s.taken + s.m.content)
  }

  ghost predicate Inv(s: State) {
    Lists(s.m, s.phase) && NoLostWakeUp(s.m, s.phase) && Conserved(s)
  }

  // ---------------------------------------------------------------------------------
  // Threads moving between phases
  // ---------------------------------------------------------------------------------

  lemma PhaseSets(phase: map<nat, Phase>, t: nat, p: Phase)
    ensures SuspendedReceivers(phase[t := p]) ==
            (SuspendedReceivers(phase) - {t}) + (if p.RecvSuspended? then {t} else {})
    ensures SuspendedSenders(phase[t := p]) == (SuspendedSenders(phase) - {t}) + (if p.SendSuspended? then {t} else {})
    ensures WokenReceivers(phase[t := p]) == (WokenReceivers(phase) - {t}) + (if p.RecvWoken? then {t} else {})
    ensures WokenSenders(phase[t := p]) == (WokenSenders(phase) - {t}) + (if p.SendWoken? then {t} else {})
    ensures t in SuspendedReceivers(phase) <==> At(phase, t).RecvSuspended?
    ensures t in SuspendedSenders(phase) <==> At(phase, t).SendSuspended?
    ensures t in WokenReceivers(phase) <==> At(phase, t).RecvWoken?
    ensures t in WokenSenders(phase) <==> At(phase, t).SendWoken?
  {
  }

  lemma Swap(s: set<nat>, t: nat, now: bool)
    ensures |(s - {t}) + (if now then {t} else {})| == |s| - (if t in s then 1 else 0) + (if now then 1 else 0)
  {
    if t in s {
      assert s == (s - {t}) + {t};
    } else {
      assert s - {t} == s;
    }
  }

  /** What one thread's change of phase does to the counts. */
  lemma Move(phase: map<nat, Phase>, t: nat, p: Phase)
    ensures ReceiversWoken(phase[t := p])
            == ReceiversWoken(phase) - (if At(phase, t).RecvWoken? then 1 else 0) + (if p.RecvWoken? then 1 else 0)
    ensures SendersWoken(phase[t := p])
            == SendersWoken(phase) - (if At(phase, t).SendWoken? then 1 else 0) + (if p.SendWoken? then 1 else 0)
    ensures AnyReceiverWaits(phase[t := p]) ==> AnyReceiverWaits(phase) || p.RecvSuspended?
    ensures AnySenderWaits(phase[t := p]) ==> AnySenderWaits(phase) || p.SendSuspended?
  {
    PhaseSets(phase, t, p);
    Swap(WokenReceivers(phase), t, p.RecvWoken?);
    Swap(WokenSenders(phase), t, p.SendWoken?);
  }

  /** A thread that is on neither list goes to sleep on one of them, or on none. */
  lemma Sleep(m: Mb, phase: map<nat, Phase>, t: nat, prio: nat, p: Phase)
    requires Lists(m, phase) && !At(phase, t).RecvSuspended? && !At(phase, t).SendSuspended?
    ensures Lists(m.(receivers := if p.RecvSuspended? then Insert(m.receivers, Waiter(t, prio), m.order)
                     else m.receivers,
                     senders := if p.SendSuspended? then Insert(m.senders, Waiter(t, prio), m.order) else m.senders),
                  phase[t := p])
  {
    hide Distinct, Tids, SuspendedReceivers, SuspendedSenders, WokenReceivers, WokenSenders, Insert;
    PhaseSets(phase, t, p);
    InsertDistinct(m.receivers, Waiter(t, prio), m.order);
    InsertDistinct(m.senders, Waiter(t, prio), m.order);
  }

  /** The head of the receive list is woken for a mail that has just come in. */
  lemma ReceiverWoken(m: Mb, phase: map<nat, Phase>)
    requires Lists(m, phase)
    ensures Lists(m.(receivers := Rest(m.receivers)), WakeReceiver(phase, First(m.receivers)))
    ensures AnyReceiverWaits(phase) ==>
            ReceiversWoken(WakeReceiver(phase, First(m.receivers))) == ReceiversWoken(phase) + 1
    ensures SendersWoken(WakeReceiver(phase, First(m.receivers))) == SendersWoken(phase)
    ensures AnyReceiverWaits(WakeReceiver(phase, First(m.receivers))) ==> AnyReceiverWaits(phase)
    ensures AnySenderWaits(WakeReceiver(phase, First(m.receivers))) ==> AnySenderWaits(phase)
  {
    hide Distinct, Tids, SuspendedReceivers, SuspendedSenders, WokenReceivers, WokenSenders, ReceiversWoken,
        SendersWoken;
    if m.receivers == [] {
      NoTids();
    } else {
      var w := m.receivers[0].tid;
      HeadLeaves(m.receivers);
      FirstTid(m.receivers);
      PhaseSets(phase, w, RecvWoken(0));
      PhaseSets(phase, w, RecvWoken(At(phase, w).timeout));
      Move(phase, w, RecvWoken(phase[w].timeout));
    }
  }

  /** The head of the send list is woken for a slot that has just become free. */
  lemma SenderWoken(m: Mb, phase: map<nat, Phase>)
    requires Lists(m, phase)
    ensures Lists(m.(senders := Rest(m.senders)), WakeSender(phase, First(m.senders)))
    ensures AnySenderWaits(phase) ==> SendersWoken(WakeSender(phase, First(m.senders))) == SendersWoken(phase) + 1
    ensures ReceiversWoken(WakeSender(phase, First(m.senders))) == ReceiversWoken(phase)
    ensures AnyReceiverWaits(WakeSender(phase, First(m.senders))) ==> AnyReceiverWaits(phase)
    ensures AnySenderWaits(WakeSender(phase, First(m.senders))) ==> AnySenderWaits(phase)
  {
    hide Distinct, Tids, SuspendedReceivers, SuspendedSenders, WokenReceivers, WokenSenders, ReceiversWoken,
        SendersWoken;
    if m.senders == [] {
      NoTids();
    } else {
      var w := m.senders[0].tid;
      HeadLeaves(m.senders);
      FirstTid(m.senders);
      PhaseSets(phase, w, SendWoken(0, 0));
      PhaseSets(phase, w, SendWoken(At(phase, w).value, At(phase, w).timeout));
      Move(phase, w, SendWoken(phase[w].value, phase[w].timeout));
    }
  }

  // ---------------------------------------------------------------------------------
  // Every step keeps the invariant
  // ---------------------------------------------------------------------------------

  lemma TrySendConserves(s: State, t: nat, prio: nat, value: Mail, timeout: int)
    requires Conserved(s)
    ensures Conserved(TrySend(s, t, prio, value, timeout))
  {
    hide Insert, WakeReceiver;
  }

  lemma SentKeeps(m: Mb, phase: map<nat, Phase>, t: nat, value: Mail)
    requires Lists(m, phase) && NoLostWakeUp(m, phase) && |m.content| < m.size
    requires At(phase, t).Idle? || At(phase, t).SendWoken?
    ensures Lists(m.(content := m.content + [value], receivers := Rest(m.receivers)),
                  WakeReceiver(phase[t := Idle], First(m.receivers)))
    ensures NoLostWakeUp(m.(content := m.content + [value], receivers := Rest(m.receivers)),
                         WakeReceiver(phase[t := Idle], First(m.receivers)))
  {
    hide Lists, Insert, ReceiversWoken, SendersWoken, AnyReceiverWaits, AnySenderWaits, WakeReceiver, First, Rest;
    Sleep(m, phase, t, 0, Idle);
    Move(phase, t, Idle);
    assert m.(receivers := m.receivers, senders := m.senders) == m;
    ListsIgnoreContent(m, m.(content := m.content + [value]), phase[t := Idle]);
    ReceiverWoken(m.(content := m.content + [value]), phase[t := Idle]);
  }

  lemma GotKeeps(m: Mb, phase: map<nat, Phase>, t: nat)
    requires Lists(m, phase) && NoLostWakeUp(m, phase) && m.content != []
    requires At(phase, t).Idle? || At(phase, t).RecvWoken?
    ensures Lists(m.(content := m.content[1..], senders := Rest(m.senders)),
                  WakeSender(phase[t := Idle], First(m.senders)))
    ensures NoLostWakeUp(m.(content := m.content[1..], senders := Rest(m.senders)),
                         WakeSender(phase[t := Idle], First(m.senders)))
  {
    hide Lists, Insert, ReceiversWoken, SendersWoken, AnyReceiverWaits, AnySenderWaits, WakeSender, First, Rest;
    Sleep(m, phase, t, 0, Idle);
    Move(phase, t, Idle);
    assert m.(receivers := m.receivers, senders := m.senders) == m;
    ListsIgnoreContent(m, m.(content := m.content[1..]), phase[t := Idle]);
    SenderWoken(m.(content := m.content[1..]), phase[t := Idle]);
  }

  lemma TrySendKeeps(s: State, t: nat, prio: nat, value: Mail, timeout: int)
    requires Inv(s) && (At(s.phase, t).Idle? || At(s.phase, t).SendWoken?)
    ensures Inv(TrySend(s, t, prio, value, timeout))
  {
    TrySendConserves(s, t, prio, value, timeout);
    hide Lists, Insert, ReceiversWoken, SendersWoken, AnyReceiverWaits, AnySenderWaits, WakeReceiver, Conserved;
    if |s.m.content| != s.m.size {
      hide NoLostWakeUp;
      WithinSize(s.m, s.phase);
      SentKeeps(s.m, s.phase, t, value);
    } else {
      var p := if timeout != 0 then SendSuspended(value, timeout) else Idle;
      Sleep(s.m, s.phase, t, prio, p);
      Move(s.phase, t, p);
    }
  }

  lemma WithinSize(m: Mb, phase: map<nat, Phase>)
    requires NoLostWakeUp(m, phase)
    ensures |m.content| <= m.size
  {
  }

  lemma ListsIgnoreContent(m: Mb, n: Mb, phase: map<nat, Phase>)
    requires Lists(m, phase) && n.receivers == m.receivers && n.senders == m.senders
    ensures Lists(n, phase)
  {
  }

  lemma TryUrgentKeeps(s: State, value: Mail)
    requires Inv(s)
    ensures Inv(TryUrgent(s, value))
  {
    hide Lists, ReceiversWoken, SendersWoken, AnyReceiverWaits, AnySenderWaits, WakeReceiver;
    ListsIgnoreContent(s.m, s.m.(content := [value] + s.m.content), s.phase);
    ReceiverWoken(s.m.(content := [value] + s.m.content), s.phase);
  }

  lemma TryReceiveConserves(s: State, t: nat, prio: nat, timeout: int)
    requires Conserved(s)
    ensures Conserved(TryReceive(s, t, prio, timeout))
  {
    hide Insert, WakeSender;
    if s.m.content != [] {
      assert s.m.content == [s.m.content[0]] + s.m.content[1..];
    }
  }

  lemma TryReceiveKeeps(s: State, t: nat, prio: nat, timeout: int)
    requires Inv(s) && (At(s.phase, t).Idle? || At(s.phase, t).RecvWoken?)
    ensures Inv(TryReceive(s, t, prio, timeout))
  {
    TryReceiveConserves(s, t, prio, timeout);
    hide Lists, Insert, ReceiversWoken, SendersWoken, AnyReceiverWaits, AnySenderWaits, WakeSender, Conserved;
    if s.m.content != [] {
      hide NoLostWakeUp;
      GotKeeps(s.m, s.phase, t);
    } else {
      var p := if timeout != 0 then RecvSuspended(timeout) else Idle;
      Sleep(s.m, s.phase, t, prio, p);
      Move(s.phase, t, p);
    }
  }

  lemma ExpireKeeps(s: State, t: nat)
    requires Inv(s) && (At(s.phase, t).SendSuspended? || At(s.phase, t).RecvSuspended?)
    ensures Inv(s.(m := Timeout(s.m, t), phase := s.phase[t := Idle]))
  {
    hide Distinct, Tids, SuspendedReceivers, SuspendedSenders, WokenReceivers, WokenSenders;
    hide ReceiversWoken, SendersWoken, AnyReceiverWaits, AnySenderWaits, Without;
    PhaseSets(s.phase, t, Idle);
    Move(s.phase, t, Idle);
    WithoutRemoves(s.m.receivers, t);
    WithoutRemoves(s.m.senders, t);
  }

  lemma ResetKeeps(s: State)
    requires Inv(s)
    ensures Inv(DoReset(s))
  {
    NoTids();
  }

  lemma NextKeeps(s: State, e: Event)
    requires Inv(s)
    ensures Inv(Next(s, e))
  {
    hide Inv, TrySend, TryUrgent, TryReceive, DoReset;
    match e
    case SendMail(t, prio, value, timeout) =>
      if At(s.phase, t).Idle? {
        TrySendKeeps(s, t, prio, value, timeout);
      }
    case SendAgain(t, prio, elapsed) =>
      if At(s.phase, t).SendWoken? {
        TrySendKeeps(s, t, prio, s.phase[t].value, Remaining(s.phase[t].timeout, elapsed));
      }
    case SendUrgent(value) =>
      TryUrgentKeeps(s, value);
    case Receive(t, prio, timeout) =>
      if At(s.phase, t).Idle? {
        TryReceiveKeeps(s, t, prio, timeout);
      }
    case ReceiveAgain(t, prio, elapsed) =>
      if At(s.phase, t).RecvWoken? {
        TryReceiveKeeps(s, t, prio, Remaining(s.phase[t].timeout, elapsed));
      }
    case Expire(t) =>
      if (At(s.phase, t).SendSuspended? || At(s.phase, t).RecvSuspended?) && s.phase[t].timeout > 0 {
        ExpireKeeps(s, t);
      }
    case ResetMailbox =>
      ResetKeeps(s);
  }

  lemma {:induction false} EveryRunKeeps(size: nat, order: Order, events: seq<Event>)
    ensures Inv(Run(size, order, events)) && Run(size, order, events).m.size == size
    decreases |events|
  {
    hide Inv, Next;
    if events == [] {
      StartIsFine(size, order);
    } else {
      EveryRunKeeps(size, order, events[..|events| - 1]);
      NextKeeps(Run(size, order, events[..|events| - 1]), events[|events| - 1]);
      SizeIsFixed(Run(size, order, events[..|events| - 1]), events[|events| - 1]);
    }
  }

  lemma SizeIsFixed(s: State, e: Event)
    ensures Next(s, e).m.size == s.m.size
  {
    hide Insert, WakeReceiver, WakeSender, Without;
  }

  lemma StartIsFine(size: nat, order: Order)
    ensures Inv(State(Mb(size, order, [], [], []), map[], [], [], multiset{}, true))
  {
    NoTids();
  }

  /** On every run, with timeouts, stealing newcomers, urgent mail and resets: a receiver stays
      suspended only if at least as many woken receivers as there are mails have yet to look, a
      sender only if at least as many woken senders as there are free slots do. */
  lemma NoWakeUpIsLost(size: nat, order: Order, events: seq<Event>, t: nat)
    ensures var s := Run(size, order, events);
            && (At(s.phase, t).RecvSuspended? ==> |WokenReceivers(s.phase)| >= |s.m.content|)
            && (At(s.phase, t).SendSuspended? ==> |WokenSenders(s.phase)| >= size - |s.m.content|)
  {
    hide Run;
    EveryRunKeeps(size, order, events);
    PhaseSets(Run(size, order, events).phase, t, Idle);
  }

  /** On every run no mail is duplicated or invented, and without urgent mail and resets they
      are received in the order in which they were sent. */
  lemma MailIsConserved(size: nat, order: Order, events: seq<Event>)
    ensures var s := Run(size, order, events);
            && multiset(s.accepted) == multiset(s.m.content) + multiset(s.taken) + s.dropped
            && (s.plain ==> s.taken <= s.accepted)
  {
    EveryRunKeeps(size, order, events);
  }

  // ---------------------------------------------------------------------------------
  // The order of receiving
  // ---------------------------------------------------------------------------------

  ghost predicate NoSends(events: seq<Event>) {
    forall e :: e in events ==> e.Receive? || e.ReceiveAgain? || e.Expire?
  }

  /** Receives and timeouts leave the order of the mails alone. */
  lemma OrderStays(s: State, e: Event)
    requires e.Receive? || e.ReceiveAgain? || e.Expire?
    ensures Next(s, e).taken + Next(s, e).m.content == s.taken + s.m.content
  {
    hide Insert, WakeSender, Without;
    if s.m.content != [] {
      assert s.taken + s.m.content == (s.taken + [s.m.content[0]]) + s.m.content[1..];
    }
  }

  /** A receive gets the first mail, if there is one, at once. */
  lemma ReceiveGetsFirst(s: State, t: nat, prio: nat, timeout: int)
    requires At(s.phase, t).Idle? && s.m.content != []
    ensures var r := Next(s, Receive(t, prio, timeout));
            r.taken == s.taken + [s.m.content[0]] && r.m.content == s.m.content[1..]
  {
    hide WakeSender;
  }

  lemma RunFurther(size: nat, order: Order, events: seq<Event>, e: Event)
    ensures Run(size, order, events + [e]) == Next(Run(size, order, events), e)
  {
    assert (events + [e])[..|events + [e]| - 1] == events;
    hide Next;
  }

  lemma {:induction false} OrderStaysLong(size: nat, order: Order, events: seq<Event>, more: seq<Event>)
    requires NoSends(more)
    ensures var s, r := Run(size, order, events), Run(size, order, events + more);
            r.taken + r.m.content == s.taken + s.m.content
    decreases |more|
  {
    hide Next;
    if more == [] {
      assert events + more == events;
    } else {
      var last, less := more[|more| - 1], more[..|more| - 1];
      assert last in more && forall e :: e in less ==> e in more;
      assert events + more == events + less + [last];
      OrderStaysLong(size, order, events, less);
      RunFurther(size, order, events + less, last);
      OrderStays(Run(size, order, events + less), last);
    }
  }

  /** On every run: urgent mail is received next, before everything that was there, and the others
      keep their order. */
  lemma UrgentIsNext(size: nat, order: Order, events: seq<Event>, value: Mail, more: seq<Event>)
    requires |Run(size, order, events).m.content| < size && NoSends(more)
    ensures var s, r := Run(size, order, events), Run(size, order, events + [SendUrgent(value)] + more);
            r.taken + r.m.content == s.taken + [value] + s.m.content
  {
    var s := Run(size, order, events);
    EveryRunKeeps(size, order, events);
    RunFurther(size, order, events, SendUrgent(value));
    OrderStaysLong(size, order, events + [SendUrgent(value)], more);
    hide Run, Inv, WakeReceiver;
    assert s.taken + ([value] + s.m.content) == s.taken + [value] + s.m.content;
  }

  /** On every run: mail that is sent with room for it is received after everything that was there. */
  lemma MailGoesLast(size: nat, order: Order, events: seq<Event>, t: nat, prio: nat, value: Mail, timeout: int,
                     more: seq<Event>)
    requires |Run(size, order, events).m.content| < size && At(Run(size, order, events).phase, t).Idle? && NoSends(more)
    ensures var s, r := Run(size, order, events), Run(size, order, events + [SendMail(t, prio, value, timeout)] + more);
            r.taken + r.m.content == s.taken + s.m.content + [value]
  {
    var s := Run(size, order, events);
    EveryRunKeeps(size, order, events);
    RunFurther(size, order, events, SendMail(t, prio, value, timeout));
    OrderStaysLong(size, order, events + [SendMail(t, prio, value, timeout)], more);
    hide Run, Inv, WakeReceiver;
    assert s.taken + (s.m.content + [value]) == s.taken + s.m.content + [value];
  }
}
