/** The recursive mutex of rt-thread/src/ipc.c with its one-level priority inheritance.
    Smaller numbers are more urgent. */
module Mutex {
  import opened WaitList
  import opened RingList
  import Threads = ThreadList

  const VALUE_MAX: nat := 65535
  const HOLD_MAX: nat := 255
  const NO_PRIORITY: nat := 0xFF

  /** The mutex's fields and the current priority of every thread. */
  datatype Mtx = Mtx(
    value: nat, hold: nat, owner: Option<nat>, original: nat, waiters: seq<Waiter>, prio: map<nat, nat>)

  datatype Result = Ok | Full | TimedOut | NotOwner | TakerWaits | Resumed(w: Waiter)

  function TakeSpec(m: Mtx, t: nat, timeout: int): (Mtx, Result)
    requires t in m.prio && (m.owner.Some? ==> m.owner.value in m.prio)
    requires m.value == 0 ==> m.owner.Some?
  {
    if m.owner == Some(t) then
      if m.hold < HOLD_MAX then (m.(hold := m.hold + 1), Ok) else (m, Full)
    else if m.value > 0 then
      var n := m.(value := m.value - 1, owner := Some(t), original := m.prio[t]);
      if m.hold < HOLD_MAX then (n.(hold := m.hold + 1), Ok) else (n, Full)
    else if timeout == 0 then (m, TimedOut)
    else
      var o := m.owner.value;
      (m.(prio := if m.prio[t] < m.prio[o] then m.prio[o := m.prio[t]] else m.prio,
          waiters := InsertByPriority(m.waiters, Waiter(t, m.prio[t]))), TakerWaits)
  }

  function ReleaseSpec(m: Mtx, t: nat): (Mtx, Result)
    requires m.owner == Some(t) ==> m.hold > 0 && t in m.prio
    requires m.waiters != [] ==> m.waiters[0].tid in m.prio
  {
    if m.owner != Some(t) then (m, NotOwner)
    else if m.hold > 1 then (m.(hold := m.hold - 1), Ok)
    else
      var n := m.(hold := 0, prio := m.prio[t := m.original]);
      if m.waiters != [] then
        var w := m.waiters[0];
        (n.(owner := Some(w.tid), original := n.prio[w.tid], hold := 1, waiters := m.waiters[1..]), Resumed(w))
      else if m.value < VALUE_MAX then
        (n.(value := m.value + 1, owner := None, original := NO_PRIORITY), Ok)
      else (n, Full)
  }

  // ---------------------------------------------------------------------------------
  // In place
  // ---------------------------------------------------------------------------------

  class Mutex {
    var value: nat
    var hold: nat
    var owner: Option<nat>
    var originalPriority: nat
    const suspendThread: Threads.ThreadList
    var threads: map<nat, nat>  // rt_thread.current_priority

    ghost predicate Valid()
      reads this, suspendThread, suspendThread.ring
    {
      suspendThread.Valid()
    }

    ghost function Abs(): Mtx
      requires Valid()
      reads this, suspendThread, suspendThread.ring
    {
      Mtx(value, hold, owner, originalPriority, suspendThread.Waiters(), threads)
    }

    /** rt_mutex_init: the flag argument is ignored, the queue is always by priority. */
    constructor (threads: map<nat, nat>)
      ensures Valid() && fresh(suspendThread) && fresh(suspendThread.ring)
      ensures Abs() == Mtx(1, 0, None, NO_PRIORITY, [], threads)
    {
      value, hold, owner, originalPriority := 1, 0, None, NO_PRIORITY;
      this.threads := threads;
      suspendThread := new Threads.ThreadList();
    }

    /** rt_mutex_take by thread t with list node n, up to the point where it returns or sleeps. */
    method Take(n: Node, t: nat, timeout: int) returns (r: Result)
      requires Valid() && n !in suspendThread.ring
      requires t in threads && (owner.Some? ==> owner.value in threads) && (value == 0 ==> owner.Some?)
      modifies this, suspendThread, suspendThread.ring, n
      ensures Valid() && (Abs(), r) == TakeSpec(old(Abs()), t, timeout)
      ensures old(owner) == Some(t) && old(hold) < 255 ==>
                r == Ok && owner == Some(t) && hold == old(hold) + 1 && value == old(value)
      ensures old(owner) != Some(t) && old(value) > 0 && old(hold) < 255 ==>
                r == Ok && owner == Some(t) && hold == old(hold) + 1 && value == old(value) - 1
      ensures old(owner) != Some(t) && old(value) == 0 ==>
                && owner == old(owner) && hold == old(hold) && value == 0
                && (timeout == 0 ==> r == TimedOut && Abs() == old(Abs()))
                && (timeout != 0 ==>
                      && r == TakerWaits && Waiter(t, threads[t]) in Abs().waiters
                      && var o, p := owner.value, old(threads);
                         threads == if p[t] < p[o] then p[o := p[t]] else p)
    {
      if owner == Some(t) {
        if hold < HOLD_MAX {
          hold := hold + 1;
          return Ok;
        }
        return Full;
      }
      if value > 0 {
        value := value - 1;
        owner := Some(t);
        originalPriority := threads[t];
        if hold < HOLD_MAX {
          hold := hold + 1;
          return Ok;
        }
        return Full;
      }
      if timeout == 0 {
        return TimedOut;
      }
      if threads[t] < threads[owner.value] {
        threads := threads[owner.value := threads[t]];
      }
      Joins(suspendThread.Waiters(), Waiter(t, threads[t]), Prio);
      suspendThread.Suspend(n, Waiter(t, threads[t]), Prio);
      r := TakerWaits;
    }

    /** rt_mutex_release by thread t. */
    method Release(t: nat) returns (r: Result)
      requires owner == Some(t) ==> hold > 0 && t in threads
      requires Valid() && (Abs().waiters != [] ==> Abs().waiters[0].tid in threads)
      modifies this, suspendThread`ring, suspendThread.ring
      ensures Valid() && (Abs(), r) == ReleaseSpec(old(Abs()), t)
      ensures old(owner) != Some(t) ==> r == NotOwner && Abs() == old(Abs())
      ensures old(owner) == Some(t) && old(hold) > 1 ==>
                r == Ok && owner == Some(t) && hold == old(hold) - 1 && value == old(value) && threads == old(threads)
      ensures old(owner) == Some(t) && old(hold) == 1 ==> threads == old(threads)[t := old(originalPriority)]
      ensures old(owner) == Some(t) && old(hold) == 1 && old(Abs()).waiters != [] ==>
                var w := old(Abs()).waiters[0];
                r == Resumed(w) && owner == Some(w.tid) && hold == 1 && Abs().waiters == old(Abs()).waiters[1..]
      ensures old(owner) == Some(t) && old(hold) == 1 && old(Abs()).waiters == [] && old(value) == 0 ==>
                r == Ok && owner == None && hold == 0 && value == 1
    {
      hide IsRing, Threads.Entries, Threads.Known;
      if owner != Some(t) {
        return NotOwner;
      }
      hold := hold - 1;
      if hold != 0 {
        return Ok;
      }
      if originalPriority != threads[t] {
        threads := threads[t := originalPriority];
      }
      assert threads == old(threads)[t := originalPriority];
      var empty := suspendThread.Empty();
      if !empty {
        var w := suspendThread.Resume();
        owner, originalPriority := Some(w.tid), threads[w.tid];
        hold := hold + 1;
        return Resumed(w);
      }
      if value < VALUE_MAX {
        value := value + 1;
      } else {
        return Full;
      }
      owner, originalPriority := None, NO_PRIORITY;
      r := Ok;
    }
  }

  // ---------------------------------------------------------------------------------
  // Runs of one mutex among threads whose priorities nothing else changes
  // ---------------------------------------------------------------------------------

  /** waiting: threads asleep in a take, with their waiting time. base: priorities of the
      threads when they hold and want nothing. */
  datatype State = State(m: Mtx, waiting: map<nat, int>, base: map<nat, nat>)

  datatype Event =
    | Take(tid: nat, timeout: int)
    | Release(tid: nat)
    | Expire(tid: nat)

  /** One step; an event that cannot happen now changes nothing. */
  function Next(s: State, e: Event): State
    requires Inv(s)
  {
    match e
    case Take(t, timeout) =>
      if t in s.waiting || t !in s.base then s
      else
        var (m, r) := TakeSpec(s.m, t, timeout);
        if r == TakerWaits then s.(m := m, waiting := s.waiting[t := timeout]) else s.(m := m)
    case Release(t) =>
      if t in s.waiting || t !in s.base then s
      else
        FirstWaiterKnown(s);
        var (m, r) := ReleaseSpec(s.m, t);
        if r.Resumed? then s.(m := m, waiting := s.waiting - {r.w.tid}) else s.(m := m)
    case Expire(t) =>
      if t in s.waiting && s.waiting[t] > 0
      then s.(m := s.m.(waiters := Without(s.m.waiters, t)), waiting := s.waiting - {t}) else s
  }

  /** The fields agree with each other. */
  ghost predicate Consistent(s: State) {
    && s.m.value <= 1 && s.m.hold <= HOLD_MAX
    && (s.m.owner == None <==> s.m.value == 1) && (s.m.owner == None <==> s.m.hold == 0)
    && (s.m.waiters != [] ==> s.m.owner.Some?)
    && (s.m.owner.Some? ==> s.m.owner.value in s.base && s.m.owner.value !in s.waiting)
  }

  ghost predicate Queue(s: State) {
    && Distinct(s.m.waiters) && Tids(s.m.waiters) == s.waiting.Keys && Sorted(s.m.waiters)
    && s.waiting.Keys <= s.base.Keys
    && (forall w :: w in s.m.waiters ==> w.tid in s.base && w.prio == s.base[w.tid])
  }

  /** Everyone but the owner runs at its own priority; the owner at least at its own and at
      that of every waiter. */
  ghost predicate Inherited(s: State) {
    && s.m.prio.Keys == s.base.Keys
    && (forall t :: t in s.base && s.m.owner != Some(t) ==> s.m.prio[t] == s.base[t])
    && (s.m.owner.Some? && s.m.owner.value in s.base ==>
          var o := s.m.owner.value;
          && s.m.original == s.base[o] && s.m.prio[o] <= s.base[o]
          && forall w :: w in s.m.waiters ==> s.m.prio[o] <= w.prio)
  }

  ghost predicate Inv(s: State) {
    Consistent(s) && Queue(s) && Inherited(s)
  }

  lemma FirstWaiterKnown(s: State)
    requires Queue(s)
    ensures s.m.waiters != [] ==> s.m.waiters[0].tid in s.base && s.m.waiters[0].tid in s.waiting
  {
    if s.m.waiters != [] {
      FirstTid(s.m.waiters);
    }
  }

  lemma BlockedQueue(s: State, t: nat, prio: map<nat, nat>, timeout: int)
    requires Queue(s) && t !in s.waiting && t in s.base
    ensures Queue(s.(m := s.m.(prio := prio, waiters := InsertByPriority(s.m.waiters, Waiter(t, s.base[t]))),
                     waiting := s.waiting[t := timeout]))
  {
    hide Distinct, Tids, Sorted, InsertByPriority;
    var w := Waiter(t, s.base[t]);
    InsertDistinct(s.m.waiters, w, Prio);
    InsertKeepsSorted(s.m.waiters, w);
    InsertMembers(s.m.waiters, w);
  }

  lemma TakeQueue(s: State, t: nat, timeout: int)
    requires Inv(s) && t !in s.waiting && t in s.base
    ensures Queue(Next(s, Take(t, timeout)))
  {
    var m := TakeSpec(s.m, t, timeout).0;
    BlockedQueue(s, t, m.prio, timeout);
    hide Distinct, Tids, Sorted, InsertByPriority;
  }

  lemma TakeInherits(s: State, t: nat, timeout: int)
    requires Inv(s) && t !in s.waiting && t in s.base
    ensures Inherited(Next(s, Take(t, timeout)))
  {
    InsertMembers(s.m.waiters, Waiter(t, s.m.prio[t]));
    hide Distinct, Tids, Sorted, InsertByPriority;
  }

  lemma TakeKeeps(s: State, t: nat, timeout: int)
    requires Inv(s)
    ensures Inv(Next(s, Take(t, timeout)))
  {
    if t !in s.waiting && t in s.base {
      TakeQueue(s, t, timeout);
      TakeInherits(s, t, timeout);
      hide Queue, Inherited, InsertByPriority;
      InheritedKeys(s);
    }
  }

  lemma InheritedKeys(s: State)
    requires Inherited(s)
    ensures s.m.prio.Keys == s.base.Keys
  {
  }

  /** Handing over: the new owner is the most urgent waiter, so it needs no boost. */
  lemma HandOver(s: State)
    requires Queue(s) && s.m.waiters != []
    ensures forall w :: w in s.m.waiters[1..] ==> s.m.waiters[0].prio <= w.prio
    ensures forall w :: w in s.m.waiters[1..] ==> w in s.m.waiters && w.tid != s.m.waiters[0].tid
    ensures s.m.waiters[0] in s.m.waiters
  {
  }

  lemma ReleaseQueue(s: State, t: nat)
    requires Inv(s) && t !in s.waiting && t in s.base
    ensures Queue(Next(s, Release(t)))
  {
    FirstWaiterKnown(s);
    if s.m.waiters != [] {
      HeadLeaves(s.m.waiters);
      HandOver(s);
    }
    hide Distinct, Tids, Sorted;
  }

  lemma ReleaseInherits(s: State, t: nat)
    requires Inv(s) && t !in s.waiting && t in s.base
    ensures Inherited(Next(s, Release(t)))
  {
    FirstWaiterKnown(s);
    if s.m.waiters != [] {
      HandOver(s);
    }
    hide Distinct, Tids, Sorted;
  }

  lemma ReleaseKeeps(s: State, t: nat)
    requires Inv(s)
    ensures Inv(Next(s, Release(t)))
  {
    if t !in s.waiting && t in s.base {
      ReleaseQueue(s, t);
      ReleaseInherits(s, t);
      FirstWaiterKnown(s);
      InheritedKeys(s);
      hide Queue, Inherited;
    }
  }

  lemma ExpireKeeps(s: State, t: nat)
    requires Inv(s)
    ensures Inv(Next(s, Expire(t)))
  {
    WithoutRemoves(s.m.waiters, t);
    hide Distinct, Tids, Sorted, Without;
    if s.m.waiters == [] {
      NoTids();
    }
  }

  lemma NextKeeps(s: State, e: Event)
    requires Inv(s)
    ensures Inv(Next(s, e)) && Next(s, e).base == s.base
  {
    match e
    case Take(t, timeout) => TakeKeeps(s, t, timeout);
    case Release(t) => ReleaseKeeps(s, t);
    case Expire(t) => ExpireKeeps(s, t);
  }

  function Start(base: map<nat, nat>): State {
    State(Mtx(1, 0, None, NO_PRIORITY, [], base), map[], base)
  }

  lemma StartIsFine(base: map<nat, nat>)
    ensures Inv(Start(base))
  {
    NoTids();
  }

  ghost function Run(base: map<nat, nat>, events: seq<Event>): (s: State)
    ensures Inv(s) && s.base == base
    decreases |events|
  {
    if events == [] then
      StartIsFine(base);
      Start(base)
    else
      var before, e := Run(base, events[..|events| - 1]), events[|events| - 1];
      NextKeeps(before, e);
      Next(before, e)
  }

  /** On every run the owner runs at least as urgently as every thread that waits for it, the
      waiters are sorted, and there are waiters only if there is an owner. */
  lemma OwnerInheritsFromEveryWaiter(base: map<nat, nat>, events: seq<Event>, i: nat)
    requires i < |Run(base, events).m.waiters|
    ensures var m := Run(base, events).m;
            && m.owner.Some? && m.owner.value in m.prio && m.prio[m.owner.value] <= m.waiters[i].prio
            && (forall j :: i <= j < |m.waiters| ==> m.waiters[i].prio <= m.waiters[j].prio)
  {
    hide Run, Next;
    var m := Run(base, events).m;
    assert m.waiters[i] in m.waiters;
  }

  /** On every run, a thread that releases its last hold is back at the priority it had. */
  lemma FinalReleaseRestoresPriority(base: map<nat, nat>, events: seq<Event>, t: nat)
    requires var m := Run(base, events).m; m.owner == Some(t) && m.hold == 1
    ensures var after := Run(base, events + [Release(t)]).m;
            && after.owner != Some(t)
            && t in base && t in after.prio && after.prio[t] == base[t]
  {
    var more := events + [Release(t)];
    assert more[..|more| - 1] == events && more[|more| - 1] == Release(t);
    var s := Run(base, events);
    assert Run(base, more) == Next(s, Release(t));
    FirstWaiterKnown(s);
    hide Run;
  }

  /** On every run: no owner, a count of one and no holds are the same thing. */
  lemma FreeMeansFree(base: map<nat, nat>, events: seq<Event>)
    ensures var m := Run(base, events).m;
            && (m.owner == None <==> m.value == 1) && (m.owner == None <==> m.hold == 0) && m.value <= 1
  {
    hide Run, Next, Queue, Inherited;
    var s := Run(base, events);
  }

  // ---------------------------------------------------------------------------------
  // Holds are counted
  // ---------------------------------------------------------------------------------

  /** What the caller is told; None if the event cannot happen now. */
  ghost function Answer(s: State, e: Event): Option<Result>
    requires Inv(s)
  {
    match e
    case Take(t, timeout) =>
      if t in s.waiting || t !in s.base then None else Some(TakeSpec(s.m, t, timeout).1)
    case Release(t) =>
      if t in s.waiting || t !in s.base then None
      else
        FirstWaiterKnown(s);
        Some(ReleaseSpec(s.m, t).1)
    case Expire(_) => None
  }

  /** The takes of thread t that were answered with success, the hand-over to it included, less
      its releases that were not refused. */
  ghost function Depth(base: map<nat, nat>, events: seq<Event>, t: nat): int
    decreases |events|
  {
    if events == [] then 0
    else
      var before, e := Run(base, events[..|events| - 1]), events[|events| - 1];
      var a := Answer(before, e);
      Depth(base, events[..|events| - 1], t)
        + (if e.Take? && e.tid == t && a == Some(Ok) then 1 else 0)
        + (if e.Release? && a.Some? && a.value.Resumed? && a.value.w.tid == t then 1 else 0)
        - (if e.Release? && e.tid == t && a.Some? && a.value != NotOwner then 1 else 0)
  }

  ghost function HoldOf(m: Mtx, t: nat): nat {
    if m.owner == Some(t) then m.hold else 0
  }

  lemma TakeCounts(s: State, u: nat, timeout: int, t: nat)
    requires Inv(s)
    ensures var a := Answer(s, Take(u, timeout));
            HoldOf(Next(s, Take(u, timeout)).m, t) == HoldOf(s.m, t) + if u == t && a == Some(Ok) then 1 else 0
    ensures u in s.base && u !in s.waiting && s.m.owner == None ==>
              Answer(s, Take(u, timeout)) == Some(Ok) && Next(s, Take(u, timeout)).m.owner == Some(u)
    ensures u in s.base && s.m.owner == Some(u) && s.m.hold < 255 ==> Answer(s, Take(u, timeout)) == Some(Ok)
  {
    hide Queue, Inherited, InsertByPriority;
    InheritedKeys(s);
  }

  lemma ReleaseCounts(s: State, u: nat, t: nat)
    requires Inv(s)
    ensures var a := Answer(s, Release(u));
            HoldOf(Next(s, Release(u)).m, t) ==
            HoldOf(s.m, t)
              + (if a.Some? && a.value.Resumed? && a.value.w.tid == t then 1 else 0)
              - (if u == t && a.Some? && a.value != NotOwner then 1 else 0)
    ensures s.m.owner == Some(u) ==> Answer(s, Release(u)).Some? && Answer(s, Release(u)) != Some(NotOwner)
  {
    FirstWaiterKnown(s);
    InheritedKeys(s);
    hide Queue, Inherited;
  }

  /** On every run the hold count is what the calls say: for the owner, its successful takes less
      its releases; and for every other thread these are equally many. So after k takes nobody else
      becomes owner before the k-th release, and the k-th release gives the mutex up. */
  lemma {:induction false} HoldsAreCounted(base: map<nat, nat>, events: seq<Event>, t: nat)
    ensures var m := Run(base, events).m;
            && Depth(base, events, t) == (if m.owner == Some(t) then m.hold else 0)
            && (Depth(base, events, t) > 0 <==> m.owner == Some(t))
    decreases |events|
  {
    hide Next, Answer, Queue, Inherited;
    if events != [] {
      var less, e := events[..|events| - 1], events[|events| - 1];
      HoldsAreCounted(base, less, t);
      var s := Run(base, less);
      match e {
        case Take(u, timeout) => TakeCounts(s, u, timeout, t);
        case Release(u) => ReleaseCounts(s, u, t);
        case Expire(u) => ExpireCounts(s, u, t);
      }
    }
  }

  lemma ExpireCounts(s: State, u: nat, t: nat)
    requires Inv(s)
    ensures HoldOf(Next(s, Expire(u)).m, t) == HoldOf(s.m, t)
  {
    hide Queue, Inherited, Without;
  }

  /** How often thread t calls release in a stretch of events. */
  function Releases(events: seq<Event>, t: nat): nat
    decreases |events|
  {
    if events == [] then 0
    else Releases(events[..|events| - 1], t) + if events[|events| - 1] == Release(t) then 1 else 0
  }

  /** On every run: an owner with k holds stays the owner through any events with fewer than k
      releases of its own, whatever other threads do. */
  lemma {:induction false} OwnerUntilLastRelease(base: map<nat, nat>, events: seq<Event>, more: seq<Event>, t: nat)
    requires Run(base, events).m.owner == Some(t) && Releases(more, t) < Run(base, events).m.hold
    ensures var m := Run(base, events + more).m;
            m.owner == Some(t) && m.hold >= Run(base, events).m.hold - Releases(more, t)
    decreases |more|
  {
    hide Next, Answer, Queue, Inherited;
    if more == [] {
      assert events + more == events;
    } else {
      var less, e := more[..|more| - 1], more[|more| - 1];
      assert (events + more)[..|events + more| - 1] == events + less;
      OwnerUntilLastRelease(base, events, less, t);
      var s := Run(base, events + less);
      match e {
        case Take(u, timeout) => TakeCounts(s, u, timeout, t);
        case Release(u) => ReleaseCounts(s, u, t);
        case Expire(u) => ExpireCounts(s, u, t);
      }
      assert HoldOf(Next(s, e).m, t) >= HoldOf(s.m, t) - if e == Release(t) then 1 else 0;
    }
  }

  /** And the release of the last hold gives the mutex up: to the first waiter, or to nobody. */
  lemma LastReleaseGivesUp(base: map<nat, nat>, events: seq<Event>, t: nat)
    requires Run(base, events).m.owner == Some(t) && Run(base, events).m.hold == 1
    ensures var m, r := Run(base, events).m, Run(base, events + [Release(t)]).m;
            && r.owner == (if m.waiters == [] then None else Some(m.waiters[0].tid)) && r.owner != Some(t)
            && r.waiters == if m.waiters == [] then [] else m.waiters[1..]
  {
    var more := events + [Release(t)];
    assert more[..|more| - 1] == events && more[|more| - 1] == Release(t);
    var s := Run(base, events);
    assert Run(base, more) == Next(s, Release(t));
    FirstWaiterKnown(s);
    hide Run, Distinct, Sorted;
  }
}
