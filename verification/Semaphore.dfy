/** The counting semaphore of rt-thread/src/ipc.c and its runs. A release with threads waiting
    hands its token straight to the first of them, which then returns without looking again. */
module Semaphore {
  import opened WaitList
  import opened RingList
  import Threads = ThreadList

  const VALUE_MAX: nat := 65535

  datatype Sem = Sem(value: nat, order: Order, waiters: seq<Waiter>)

  datatype TakeResult = Taken | TimedOut | TakerWaits

  datatype ReleaseResult = Resumed(w: Waiter) | Counted | Overflow

  function TakeSpec(s: Sem, w: Waiter, timeout: int): (Sem, TakeResult) {
    if s.value > 0 then (s.(value := s.value - 1), Taken)
    else if timeout == 0 then (s, TimedOut)
    else (s.(waiters := Insert(s.waiters, w, s.order)), TakerWaits)
  }

  function ReleaseSpec(s: Sem): (Sem, ReleaseResult) {
    if s.waiters != [] then (s.(waiters := s.waiters[1..]), Resumed(s.waiters[0]))
    else if s.value < VALUE_MAX then (s.(value := s.value + 1), Counted)
    else (s, Overflow)
  }

  function ResetSpec(s: Sem, value: nat): Sem {
    s.(value := value % (VALUE_MAX + 1), waiters := [])
  }

  class Semaphore {
    const order: Order
    const suspendThread: Threads.ThreadList
    var value: nat

    ghost predicate Valid()
      reads this, suspendThread, suspendThread.ring
    {
      suspendThread.Valid()
    }

    ghost function Abs(): Sem
      requires Valid()
      reads this, suspendThread, suspendThread.ring
    {
      Sem(value, order, suspendThread.Waiters())
    }

    /** rt_sem_init. */
    constructor (value: nat, order: Order)
      requires value <= VALUE_MAX
      ensures Valid() && fresh(suspendThread) && fresh(suspendThread.ring) && Abs() == Sem(value, order, [])
    {
      this.value, this.order := value, order;
      suspendThread := new Threads.ThreadList();
    }

    /** rt_sem_take by the thread with list node n, up to the point where it returns or sleeps. */
    method Take(n: Node, w: Waiter, timeout: int) returns (r: TakeResult)
      requires Valid() && n !in suspendThread.ring
      modifies this, suspendThread, suspendThread.ring, n
      ensures Valid() && (Abs(), r) == TakeSpec(old(Abs()), w, timeout)
      ensures old(value) > 0 ==> r == Taken && value == old(value) - 1 && Abs().waiters == old(Abs()).waiters
      ensures old(value) == 0 && timeout == 0 ==> r == TimedOut && Abs() == old(Abs())
      ensures old(value) == 0 && timeout != 0 ==> r == TakerWaits && value == 0 && w in Abs().waiters
    {
      if value > 0 {
        value := value - 1;
        return Taken;
      }
      if timeout == 0 {
        return TimedOut;
      }
      Joins(suspendThread.Waiters(), w, order);
      suspendThread.Suspend(n, w, order);
      r := TakerWaits;
    }

    /** rt_sem_release. */
    method Release() returns (r: ReleaseResult)
      requires Valid()
      modifies this, suspendThread`ring, suspendThread.ring
      ensures Valid() && (Abs(), r) == ReleaseSpec(old(Abs()))
      ensures old(Abs()).waiters != [] ==>
                r == Resumed(old(Abs()).waiters[0]) && value == old(value) && Abs().waiters == old(Abs()).waiters[1..]
      ensures old(Abs()).waiters == [] && old(value) < 65535 ==> r == Counted && value == old(value) + 1
      ensures old(Abs()).waiters == [] && old(value) >= 65535 ==> r == Overflow && Abs() == old(Abs())
    {
      var empty := suspendThread.Empty();
      if !empty {
        var w := suspendThread.Resume();
        return Resumed(w);
      }
      if value < VALUE_MAX {
        value := value + 1;
        return Counted;
      }
      r := Overflow;
    }

    /** rt_sem_control with RT_IPC_CMD_RESET. */
    method Reset(v: nat) returns (woken: seq<Waiter>)
      requires Valid()
      modifies this, suspendThread`ring, suspendThread.ring
      ensures Valid() && Abs() == ResetSpec(old(Abs()), v) && woken == old(Abs()).waiters
      ensures value == v % 65536 && Abs().waiters == []
    {
      woken := suspendThread.ResumeAll();
      value := v % (VALUE_MAX + 1);
    }

    /** The waiting time of the thread with list node n is over. */
    method Timeout(n: Node, ghost k: nat)
      requires Valid() && 0 < k < |suspendThread.ring| && suspendThread.ring[k] == n && Distinct(Abs().waiters)
      modifies suspendThread`ring, suspendThread.ring
      ensures Valid()
      ensures Abs() == old(Abs()).(waiters := Without(old(Abs()).waiters, suspendThread.threads[n].tid))
    {
      suspendThread.Expire(n, k);
    }
  }

  // ---------------------------------------------------------------------------------
  // Runs
  // ---------------------------------------------------------------------------------

  /** waiting: the threads asleep in a take with their waiting time. Since the last reset the
      counter started at `initial`; `granted` takes have succeeded and `released` releases
      have not overflowed. */
  datatype State = State(sem: Sem, waiting: map<nat, int>, initial: nat, granted: nat, released: nat)

  datatype Event =
    | Take(tid: nat, prio: nat, timeout: int)
    | Release
    | Expire(tid: nat)
    | Reset(value: nat)

  function Next(s: State, e: Event): State {
    match e
    case Take(t, prio, timeout) =>
      if t in s.waiting then s
      else
        (var (sem, r) := TakeSpec(s.sem, Waiter(t, prio), timeout);
        match r
        case Taken => s.(sem := sem, granted := s.granted + 1)
        case TimedOut => s
        case TakerWaits => s.(sem := sem, waiting := s.waiting[t := timeout]))
    case Release =>
      (var (sem, r) := ReleaseSpec(s.sem);
      match r
      case Resumed(w) => s.(sem := sem, waiting := s.waiting - {w.tid}, granted := s.granted + 1,
                            released := s.released + 1)
      case Counted => s.(sem := sem, released := s.released + 1)
      case Overflow => s)
    case Expire(t) =>
      if t in s.waiting && s.waiting[t] > 0
      then s.(sem := s.sem.(waiters := Without(s.sem.waiters, t)), waiting := s.waiting - {t}) else s
    case Reset(v) =>
      s.(sem := ResetSpec(s.sem, v), waiting := map[], initial := v % (VALUE_MAX + 1), granted := 0, released := 0)
  }

  function Run(value: nat, order: Order, events: seq<Event>): State
    decreases |events|
  {
    if events == [] then State(Sem(value, order, []), map[], value, 0, 0)
    else Next(Run(value, order, events[..|events| - 1]), events[|events| - 1])
  }

  ghost predicate Inv(s: State) {
    && Distinct(s.sem.waiters) && Tids(s.sem.waiters) == s.waiting.Keys
    && (s.sem.order == Prio ==> Sorted(s.sem.waiters))
    && (s.sem.value > 0 ==> s.sem.waiters == [])
    && s.sem.value <= VALUE_MAX
    && s.sem.value + s.granted == s.initial + s.released
  }

  lemma TakeKeeps(s: State, t: nat, prio: nat, timeout: int)
    requires Inv(s) && t !in s.waiting
    ensures Inv(Next(s, Take(t, prio, timeout)))
  {
    InsertDistinct(s.sem.waiters, Waiter(t, prio), s.sem.order);
    hide Distinct, Tids, Sorted;
    if s.sem.order == Prio {
      InsertKeepsSorted(s.sem.waiters, Waiter(t, prio));
    }
  }

  lemma ReleaseKeeps(s: State)
    requires Inv(s)
    ensures Inv(Next(s, Release))
  {
    if s.sem.waiters != [] {
      HeadLeaves(s.sem.waiters);
    }
    hide Distinct, Tids;
  }

  lemma ExpireKeeps(s: State, t: nat)
    requires Inv(s)
    ensures Inv(Next(s, Expire(t)))
  {
    WithoutRemoves(s.sem.waiters, t);
    hide Distinct, Tids, Sorted;
    if t in s.waiting && s.sem.waiters == [] {
      NoTids();
    }
  }

  lemma NextKeeps(s: State, e: Event)
    requires Inv(s)
    ensures Inv(Next(s, e))
  {
    match e
    case Take(t, prio, timeout) =>
      if t !in s.waiting {
        TakeKeeps(s, t, prio, timeout);
      }
    case Release => ReleaseKeeps(s);
    case Expire(t) => ExpireKeeps(s, t);
    case Reset(v) => NoTids();
  }

  /** On every run: a positive count and waiting threads exclude each other, and since the last
      reset every token is either still counted or has been granted exactly once. */
  lemma {:induction false} TokensAreConserved(value: nat, order: Order, events: seq<Event>)
    requires value <= VALUE_MAX
    ensures var s := Run(value, order, events);
            && Inv(s)
            && (s.sem.value > 0 ==> s.waiting == map[])
            && s.sem.value + s.granted == s.initial + s.released
    decreases |events|
  {
    if events == [] {
      NoTids();
    } else {
      TokensAreConserved(value, order, events[..|events| - 1]);
      NextKeeps(Run(value, order, events[..|events| - 1]), events[|events| - 1]);
      hide Next;
    }
    NoTids();
  }

  /** On every run: a take with tokens there succeeds at once, a release with threads waiting hands
      its token to the first of them, and only a release without waiters and with a full counter is
      refused. */
  lemma TokensArePassedOn(value: nat, order: Order, events: seq<Event>, t: nat, prio: nat, timeout: int)
    requires value <= VALUE_MAX
    ensures var s := Run(value, order, events);
            var a, b := Next(s, Take(t, prio, timeout)), Next(s, Release);
            && (s.sem.value > 0 && t !in s.waiting ==> a.granted == s.granted + 1 && a.sem.value == s.sem.value - 1)
            && (s.sem.waiters != [] ==>
                  var w := s.sem.waiters[0].tid;
                  && w in s.waiting && b.waiting == s.waiting - {w}
                  && b.granted == s.granted + 1 && b.released == s.released + 1)
            && (s.sem.waiters == [] && s.sem.value < VALUE_MAX ==>
                  b.sem.value == s.sem.value + 1 && b.released == s.released + 1)
  {
    TokensAreConserved(value, order, events);
    var s := Run(value, order, events);
    if s.sem.waiters != [] {
      FirstTid(s.sem.waiters);
    }
    hide Run, Insert, Distinct, Sorted;
  }
}
