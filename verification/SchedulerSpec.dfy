/** The single-core scheduler (rt-thread/src/scheduler.c, with the thread operations of
    rt-thread/src/thread.c and the time slice of rt-thread/src/clock.c): a FIFO list of ready
    threads for each priority, and the thread that runs. */
module SchedulerSpec {

  type Tid = nat

  const PRIORITIES: nat := 32
  const SLICE_SPAN: nat := 0x1_0000_0000

  datatype Stat = Initial | Ready | Suspended | Running | Closed

  /** slice is init_tick, remaining is remaining_tick. */
  datatype Thread = Thread(stat: Stat, yielded: bool, prio: nat, slice: nat, remaining: nat)

  datatype State = State(threads: map<Tid, Thread>, queues: seq<seq<Tid>>, current: Tid, idle: Tid, lockNest: int)

  // ---------------------------------------------------------------------------------
  // Operations
  // ---------------------------------------------------------------------------------

  function Removed(queue: seq<Tid>, t: Tid): seq<Tid> {
    if queue == [] then []
    else if queue[0] == t then Removed(queue[1..], t)
    else [queue[0]] + Removed(queue[1..], t)
  }

  function SetStat(s: State, t: Tid, stat: Stat): State
    requires t in s.threads
  {
    s.(threads := s.threads[t := s.threads[t].(stat := stat)])
  }

  function SetYield(s: State, t: Tid, yielded: bool): State
    requires t in s.threads
  {
    s.(threads := s.threads[t := s.threads[t].(yielded := yielded)])
  }

  /** rt_schedule_insert_thread. */
  function Insert(s: State, t: Tid): State
    requires t in s.threads && s.threads[t].prio < |s.queues|
  {
    if t == s.current then SetStat(s, t, Running)
    else
      var p := s.threads[t].prio;
      SetStat(s, t, Ready).(queues := s.queues[p := s.queues[p] + [t]])
  }

  /** rt_schedule_remove_thread. */
  function Remove(s: State, t: Tid): State
    requires t in s.threads && s.threads[t].prio < |s.queues|
  {
    var p := s.threads[t].prio;
    s.(queues := s.queues[p := Removed(s.queues[p], t)])
  }

  /** The best priority that has a ready thread, from p on; the number of priorities if none has. */
  function Highest(queues: seq<seq<Tid>>, p: nat): (h: nat)
    requires p <= |queues|
    ensures p <= h <= |queues| && (h < |queues| ==> queues[h] != [])
    ensures forall q :: p <= q < h ==> queues[q] == []
    decreases |queues| - p
  {
    if p == |queues| || queues[p] != [] then p else Highest(queues, p + 1)
  }

  /** The running thread keeps the processor: it is better than the best ready thread, or as good
      and has not yielded. */
  predicate Stays(s: State, best: nat)
    requires s.current in s.threads
  {
    var c := s.threads[s.current];
    c.stat == Running && (c.prio < best || (c.prio == best && !c.yielded))
  }

  /** Switches to thread `to`; a thread that was running goes to the end of its list. */
  function SwitchTo(s: State, to: Tid): State
    requires s.current in s.threads && s.threads[s.current].prio < |s.queues|
    requires to in s.threads && s.threads[to].prio < |s.queues|
  {
    var from := s.current;
    var cleared := if s.threads[from].stat == Running then SetYield(s, from, false) else s;
    var chosen := cleared.(current := to);
    var queued := if s.threads[from].stat == Running then Insert(chosen, from) else chosen;
    SetStat(Remove(queued, to), to, Running)
  }

  /** rt_schedule. */
  function Schedule(s: State): State
    requires Ok(s)
  {
    var best := Highest(s.queues, 0);
    if s.lockNest != 0 || best == |s.queues| then s
    else if Stays(s, best) then SetYield(s, s.current, false)
    else
      HeadKnown(s, best);
      SwitchTo(s, s.queues[best][0])
  }

  // ---------------------------------------------------------------------------------
  // Invariant
  // ---------------------------------------------------------------------------------

  ghost predicate NoDup(queue: seq<Tid>) {
    forall i, j :: 0 <= i < j < |queue| ==> queue[i] != queue[j]
  }

  /** Every thread in the list of priority p is ready, has that priority, and is not running. */
  ghost predicate QueueOk(s: State, p: nat)
    requires p < |s.queues|
  {
    NoDup(s.queues[p]) &&
    forall t :: t in s.queues[p] ==>
        t in s.threads && s.threads[t].stat == Ready && s.threads[t].prio == p && t != s.current
  }

  /** A ready thread is in the list of its priority; only the current thread is running. */
  ghost predicate ThreadOk(s: State, t: Tid)
    requires t in s.threads
  {
    && s.threads[t].prio < |s.queues|
    && (s.threads[t].stat == Ready ==> t in s.queues[s.threads[t].prio])
    && (s.threads[t].stat == Running ==> t == s.current)
  }

  ghost predicate Ok(s: State) {
    && |s.queues| == PRIORITIES && s.lockNest >= 0
    && s.current in s.threads && s.threads[s.current].stat != Ready
    && s.idle in s.threads && (s.threads[s.idle].stat == Ready || s.threads[s.idle].stat == Running)
    && (forall p :: 0 <= p < |s.queues| ==> QueueOk(s, p))
    && (forall t :: t in s.threads ==> ThreadOk(s, t))
  }

  /** The current thread runs and no ready thread is better. */
  ghost predicate BestRuns(s: State) {
    && s.current in s.threads && s.threads[s.current].stat == Running
    && forall t :: t in s.threads && s.threads[t].stat == Ready ==> s.threads[s.current].prio <= s.threads[t].prio
  }

  lemma HeadKnown(s: State, p: nat)
    requires Ok(s) && p < |s.queues| && s.queues[p] != []
    ensures s.queues[p][0] in s.threads && s.queues[p][0] != s.current
    ensures s.threads[s.queues[p][0]].prio == p && s.threads[s.queues[p][0]].stat == Ready
    ensures s.threads[s.current].prio < |s.queues|
  {
    assert QueueOk(s, p) && ThreadOk(s, s.current);
    assert s.queues[p][0] in s.queues[p];
  }

  // ---------------------------------------------------------------------------------
  // Lists
  // ---------------------------------------------------------------------------------

  lemma {:induction false} RemovedMembers(queue: seq<Tid>, t: Tid)
    ensures forall x :: x in Removed(queue, t) <==> x in queue && x != t
    ensures NoDup(queue) ==> NoDup(Removed(queue, t))
    ensures t !in queue ==> Removed(queue, t) == queue
  {
    if queue != [] {
      assert queue == [queue[0]] + queue[1..];
      RemovedMembers(queue[1..], t);
      if NoDup(queue) && queue[0] != t {
        NoDupCons(queue[0], Removed(queue[1..], t));
      }
    }
  }

  lemma NoDupCons(x: Tid, queue: seq<Tid>)
    requires NoDup(queue) && x !in queue
    ensures NoDup([x] + queue)
  {
  }

  lemma NoDupAppend(queue: seq<Tid>, x: Tid)
    requires NoDup(queue) && x !in queue
    ensures NoDup(queue + [x])
  {
  }

  lemma RemovedHead(queue: seq<Tid>)
    requires queue != [] && NoDup(queue)
    ensures Removed(queue, queue[0]) == queue[1..]
  {
    RemovedMembers(queue[1..], queue[0]);
  }

  // ---------------------------------------------------------------------------------
  // The invariant, one change at a time
  // ---------------------------------------------------------------------------------

  /** Ok but for thread t, which is in no list. */
  ghost predicate OkBut(s: State, t: Tid) {
    && |s.queues| == PRIORITIES && s.lockNest >= 0
    && s.current in s.threads && s.idle in s.threads && t in s.threads && s.threads[t].prio < |s.queues|
    && (s.threads[s.idle].stat == Ready || s.threads[s.idle].stat == Running || s.idle == t)
    && (s.current != t ==> s.threads[s.current].stat != Ready)
    && (forall p :: 0 <= p < |s.queues| ==> QueueOk(s, p) && t !in s.queues[p])
    && (forall x :: x in s.threads && x != t ==> ThreadOk(s, x))
  }

  lemma TakeOut(s: State, t: Tid)
    requires Ok(s) && t in s.threads
    ensures ThreadOk(s, t) && OkBut(Remove(s, t), t)
  {
    assert ThreadOk(s, t);
    var r := Remove(s, t);
    forall p | 0 <= p < |r.queues|
      ensures QueueOk(r, p) && t !in r.queues[p]
    {
      assert QueueOk(s, p);
      RemovedMembers(s.queues[p], t);
    }
    forall x | x in r.threads && x != t
      ensures ThreadOk(r, x)
    {
      assert ThreadOk(s, x);
      RemovedMembers(s.queues[s.threads[x].prio], t);
    }
  }

  /** Any change to a thread in no list that leaves it neither ready nor running keeps things Ok. */
  lemma Settle(s: State, t: Tid, thread: Thread)
    requires OkBut(s, t) && thread.prio < |s.queues| && thread.stat != Ready
    requires thread.stat == Running ==> t == s.current
    requires t == s.idle ==> thread.stat == Running
    ensures Ok(s.(threads := s.threads[t := thread]))
  {
    var r := s.(threads := s.threads[t := thread]);
    forall p | 0 <= p < |r.queues|
      ensures QueueOk(r, p)
    {
      assert QueueOk(s, p);
    }
    forall x | x in r.threads
      ensures ThreadOk(r, x)
    {
      if x != t {
        assert ThreadOk(s, x);
      }
    }
  }

  lemma PutIn(s: State, t: Tid)
    requires OkBut(s, t)
    ensures Ok(Insert(s, t))
  {
    if t == s.current {
      Settle(s, t, s.threads[t].(stat := Running));
    } else {
      var r := Insert(s, t);
      var q := s.threads[t].prio;
      forall p | 0 <= p < |r.queues|
        ensures QueueOk(r, p)
      {
        assert QueueOk(s, p);
        NoDupAppend(s.queues[p], t);
      }
      forall x | x in r.threads
        ensures ThreadOk(r, x)
      {
        if x != t {
          assert ThreadOk(s, x);
        } else {
          assert r.queues[q][|r.queues[q]| - 1] == t;
        }
      }
    }
  }

  /** A thread that is not ready is in no list. */
  lemma NotListed(s: State, t: Tid)
    requires Ok(s) && t in s.threads && s.threads[t].stat != Ready
    ensures OkBut(s, t) && Remove(s, t) == s
  {
    assert ThreadOk(s, t);
    forall p | 0 <= p < |s.queues|
      ensures QueueOk(s, p) && t !in s.queues[p]
    {
      assert QueueOk(s, p);
    }
    RemovedMembers(s.queues[s.threads[t].prio], t);
    assert s.queues[s.threads[t].prio := s.queues[s.threads[t].prio]] == s.queues;
  }

  // ---------------------------------------------------------------------------------
  // rt_schedule picks the best thread
  // ---------------------------------------------------------------------------------

  lemma SetYieldOk(s: State, t: Tid, yielded: bool)
    requires Ok(s) && t in s.threads
    ensures Ok(SetYield(s, t, yielded))
  {
    var r := SetYield(s, t, yielded);
    forall p | 0 <= p < |r.queues|
      ensures QueueOk(r, p)
    {
      assert QueueOk(s, p);
    }
    forall x | x in r.threads
      ensures ThreadOk(r, x)
    {
      assert ThreadOk(s, x);
    }
  }

  /** Changing which thread is current, when the old one is dealt with next. */
  lemma ChooseOk(s: State, to: Tid)
    requires OkBut(s, to) && s.threads[s.current].stat != Ready && to != s.current
    ensures var from := s.current;
            var c := SetStat(s, to, Running).(current := to);
            OkBut(c, from) && c.current == to
  {
    var c := SetStat(s, to, Running).(current := to);
    forall p | 0 <= p < |c.queues|
      ensures QueueOk(c, p) && s.current !in c.queues[p]
    {
      assert QueueOk(s, p);
    }
    forall x | x in c.threads && x != s.current
      ensures ThreadOk(c, x)
    {
      if x != to {
        assert ThreadOk(s, x);
      }
    }
    assert ThreadOk(s, s.current);
  }

  lemma RemovedAppend(queue: seq<Tid>, x: Tid, t: Tid)
    requires x != t
    ensures Removed(queue + [x], t) == Removed(queue, t) + [x]
  {
    if queue == [] {
      assert [] + [x] == [x] && Removed([x][1..], t) == [];
    } else {
      assert (queue + [x])[1..] == queue[1..] + [x] && (queue + [x])[0] == queue[0];
      RemovedAppend(queue[1..], x, t);
      assert [queue[0]] + (Removed(queue[1..], t) + [x]) == ([queue[0]] + Removed(queue[1..], t)) + [x];
    }
  }

  /** Queueing the old thread before taking the new one out is the same as after. */
  lemma SwitchOrder(s: State, from: Tid, to: Tid)
    requires from in s.threads && to in s.threads && from != to && s.current == to
    requires s.threads[from].prio < |s.queues| && s.threads[to].prio < |s.queues|
    ensures SetStat(Remove(Insert(s, from), to), to, Running) == Insert(SetStat(Remove(s, to), to, Running), from)
  {
    var a := SetStat(Remove(Insert(s, from), to), to, Running);
    var b := Insert(SetStat(Remove(s, to), to, Running), from);
    var p, q := s.threads[from].prio, s.threads[to].prio;
    RemovedAppend(s.queues[q], from, to);
    assert a.threads == b.threads;
    forall k | 0 <= k < |s.queues|
      ensures a.queues[k] == b.queues[k]
    {
    }
    assert a.queues == b.queues;
  }

  lemma SwitchOk(s: State, best: nat)
    requires Ok(s) && best < |s.queues| && s.queues[best] != []
    ensures s.queues[best][0] in s.threads && s.threads[s.current].prio < |s.queues|
    ensures s.threads[s.queues[best][0]].prio == best
    ensures Ok(SwitchTo(s, s.queues[best][0]))
  {
    hide QueueOk, ThreadOk, Removed, NoDup, Insert, Remove;
    HeadKnown(s, best);
    var from, to := s.current, s.queues[best][0];
    var running := s.threads[from].stat == Running;
    var cleared := if running then SetYield(s, from, false) else s;
    SetYieldOk(s, from, false);
    TakeOut(cleared, to);
    SameThreads(cleared, to);
    ChooseOk(Remove(cleared, to), to);
    var c := SetStat(Remove(cleared, to), to, Running).(current := to);
    assert c == SetStat(Remove(cleared.(current := to), to), to, Running) by {
      RemoveElsewhere(cleared, to, to);
    }
    if running {
      SwitchOrder(cleared.(current := to), from, to);
      PutIn(c, from);
    } else {
      Settle(c, from, c.threads[from]);
      assert c.(threads := c.threads[from := c.threads[from]]) == c;
    }
  }

  lemma SameThreads(s: State, t: Tid)
    requires t in s.threads && s.threads[t].prio < |s.queues|
    ensures var r := Remove(s, t);
            r.threads == s.threads && |r.queues| == |s.queues| && r.current == s.current && r.idle == s.idle
  {
  }

  lemma RemoveElsewhere(s: State, t: Tid, c: Tid)
    requires t in s.threads && s.threads[t].prio < |s.queues|
    ensures Remove(s.(current := c), t) == Remove(s, t).(current := c)
  {
  }

  /** No ready thread is better than the best list that is not empty. */
  lemma ReadyBound(s: State, t: Tid)
    requires Ok(s) && t in s.threads && s.threads[t].stat == Ready
    ensures Highest(s.queues, 0) <= s.threads[t].prio < |s.queues|
  {
    assert ThreadOk(s, t);
  }

  /** Main result: with the scheduler unlocked, rt_schedule leaves the best thread running; locked,
      it changes nothing. */
  lemma ScheduleBest(s: State)
    requires Ok(s)
    ensures Ok(Schedule(s))
    ensures s.lockNest == 0 ==> BestRuns(Schedule(s))
    ensures s.lockNest != 0 ==> Schedule(s) == s
  {
    hide QueueOk, ThreadOk, Removed, Highest;
    var best := Highest(s.queues, 0);
    var r := Schedule(s);
    forall t | t in s.threads && s.threads[t].stat == Ready
      ensures best <= s.threads[t].prio < |s.queues|
    {
      ReadyBound(s, t);
    }
    if s.lockNest == 0 {
      if best == |s.queues| {
        IdleRuns(s);
      } else if Stays(s, best) {
        SetYieldOk(s, s.current, false);
      } else {
        SwitchOk(s, best);
        HeadKnown(s, best);
        SwitchThreads(s, s.queues[best][0]);
      }
    }
  }

  lemma IdleRuns(s: State)
    requires Ok(s) && Highest(s.queues, 0) == |s.queues|
    ensures s.threads[s.current].stat == Running
  {
    if s.threads[s.idle].stat == Ready {
      ReadyBound(s, s.idle);
      assert false;
    }
    assert ThreadOk(s, s.idle);
  }

  lemma SwitchThreads(s: State, to: Tid)
    requires s.current in s.threads && s.threads[s.current].prio < |s.queues|
    requires to in s.threads && s.threads[to].prio < |s.queues| && to != s.current
    ensures var r := SwitchTo(s, to);
            && r.current == to && r.lockNest == s.lockNest && r.threads.Keys == s.threads.Keys
            && r.threads[to] == s.threads[to].(stat := Running)
            && r.threads[s.current] ==
                 (if s.threads[s.current].stat == Running then s.threads[s.current].(stat := Ready, yielded := false)
                  else s.threads[s.current])
            && forall t :: t in s.threads && t != to && t != s.current ==> r.threads[t] == s.threads[t]
  {
  }

  /** The running thread is taken off the processor only by a better thread, or by an equal one
      after it has yielded. */
  lemma PreemptedOnlyBy(s: State)
    requires Ok(s) && s.threads[s.current].stat == Running && Schedule(s).current != s.current
    ensures exists t :: t in s.threads && s.threads[t].stat == Ready && t == Schedule(s).current
              && (s.threads[t].prio < s.threads[s.current].prio
                  || (s.threads[t].prio == s.threads[s.current].prio && s.threads[s.current].yielded))
  {
    hide QueueOk, ThreadOk, Removed, Highest;
    var best := Highest(s.queues, 0);
    if s.lockNest == 0 && best < |s.queues| && !Stays(s, best) {
      HeadKnown(s, best);
      SwitchThreads(s, s.queues[best][0]);
    }
  }

  // ---------------------------------------------------------------------------------
  // The operations that threads and interrupts call
  // ---------------------------------------------------------------------------------

  /** rt_thread_resume, and rt_thread_timeout before it schedules. */
  function Resume(s: State, t: Tid): State
    requires Ok(s) && t in s.threads
  {
    if s.threads[t].stat != Suspended then s
    else
      ThreadPrio(s, t);
      Insert(s, t)
  }

  /** rt_thread_suspend; a running thread can only suspend itself. */
  function Suspend(s: State, t: Tid): State
    requires Ok(s) && t in s.threads
  {
    if s.threads[t].stat != Ready && s.threads[t].stat != Running then s
    else
      ThreadPrio(s, t);
      SetStat(Remove(s, t), t, Suspended)
  }

  /** rt_thread_delete and rt_thread_detach. */
  function Detach(s: State, t: Tid): State
    requires Ok(s) && t in s.threads
  {
    if s.threads[t].stat == Closed then s
    else
      ThreadPrio(s, t);
      SetStat(if s.threads[t].stat == Initial then s else Remove(s, t), t, Closed)
  }

  function SetPrio(s: State, t: Tid, prio: nat): State
    requires t in s.threads
  {
    s.(threads := s.threads[t := s.threads[t].(prio := prio)])
  }

  /** RT_THREAD_CTRL_CHANGE_PRIORITY. */
  function ChangePriority(s: State, t: Tid, prio: nat): State
    requires Ok(s) && t in s.threads && prio < |s.queues|
  {
    if s.threads[t].stat == Ready then
      ThreadPrio(s, t);
      Insert(SetPrio(Remove(s, t), t, prio), t)
    else SetPrio(s, t, prio)
  }

  /** What one tick does to the current thread's slice. */
  function Spend(s: State): State
    requires s.current in s.threads
  {
    var c := s.threads[s.current];
    var left := (c.remaining + SLICE_SPAN - 1) % SLICE_SPAN;
    s.(threads := s.threads[s.current := if left == 0 then c.(remaining := c.slice, yielded := true)
                            else c.(remaining := left)])
  }

  /** The time-slice part of rt_tick_increase. */
  function Tick(s: State): State
    requires Ok(s)
  {
    SpendOk(s);
    if (s.threads[s.current].remaining + SLICE_SPAN - 1) % SLICE_SPAN == 0 then Schedule(Spend(s)) else Spend(s)
  }

  /** rt_thread_yield. */
  function Yield(s: State): State
    requires Ok(s)
  {
    var c := s.threads[s.current];
    var r := s.(threads := s.threads[s.current := c.(remaining := c.slice, yielded := true)]);
    TouchOk(s, s.current, c.(remaining := c.slice, yielded := true));
    Schedule(r)
  }

  /** rt_thread_startup of a thread that was only initialised. */
  function Startup(s: State, t: Tid): State
    requires Ok(s) && t in s.threads && s.threads[t].stat == Initial && t != s.idle
  {
    StartupOk(s, t);
    Schedule(Resume(SetStat(s, t, Suspended), t))
  }

  function EnterCritical(s: State): State {
    s.(lockNest := s.lockNest + 1)
  }

  /** rt_exit_critical. */
  function ExitCritical(s: State): State
    requires Ok(s)
  {
    var nest := if s.lockNest - 1 <= 0 then 0 else s.lockNest - 1;
    NestOk(s, nest);
    if nest == 0 then Schedule(s.(lockNest := 0)) else s.(lockNest := nest)
  }

  /** What one tick does to the slice: the counter goes down, on 32 bits; when it reaches zero the
      slice starts over and the thread has to give way to its equals. */
  lemma SpendDoes(s: State)
    requires s.current in s.threads
    ensures var r, c := Spend(s), s.threads[s.current];
            && r == s.(threads := s.threads[s.current := r.threads[s.current]])
            && (c.remaining == 1 ==> r.threads[s.current] == c.(remaining := c.slice, yielded := true))
            && (1 < c.remaining < SLICE_SPAN ==> r.threads[s.current] == c.(remaining := c.remaining - 1))
            && (c.remaining == 0 ==> r.threads[s.current] == c.(remaining := 0xFFFF_FFFF))
  {
  }

  lemma ThreadPrio(s: State, t: Tid)
    requires Ok(s) && t in s.threads
    ensures s.threads[t].prio < |s.queues|
  {
    assert ThreadOk(s, t);
  }

  lemma NestOk(s: State, nest: nat)
    requires Ok(s)
    ensures Ok(s.(lockNest := nest))
  {
    var r := s.(lockNest := nest);
    forall p | 0 <= p < |r.queues|
      ensures QueueOk(r, p)
    {
      assert QueueOk(s, p);
    }
    forall x | x in r.threads
      ensures ThreadOk(r, x)
    {
      assert ThreadOk(s, x);
    }
  }

  /** A change to a thread that keeps its state and priority. */
  lemma TouchOk(s: State, t: Tid, thread: Thread)
    requires Ok(s) && t in s.threads && thread.stat == s.threads[t].stat && thread.prio == s.threads[t].prio
    ensures Ok(s.(threads := s.threads[t := thread]))
  {
    var r := s.(threads := s.threads[t := thread]);
    forall p | 0 <= p < |r.queues|
      ensures QueueOk(r, p)
    {
      assert QueueOk(s, p);
    }
    forall x | x in r.threads
      ensures ThreadOk(r, x)
    {
      assert ThreadOk(s, x);
    }
  }

  lemma SpendOk(s: State)
    requires Ok(s)
    ensures Ok(Spend(s))
  {
    hide QueueOk, ThreadOk;
    TouchOk(s, s.current, Spend(s).threads[s.current]);
  }

  /** Taking a thread out of a list leaves the others as they stood. */
  lemma {:induction false} RemovedIs(a: seq<Tid>, t: Tid, b: seq<Tid>)
    requires t !in a && t !in b
    ensures Removed(a + [t] + b, t) == a + b && Removed(a, t) == a
  {
    if a == [] {
      assert [] + [t] + b == [t] + b && ([t] + b)[1..] == b;
      RemovedNone(b, t);
    } else {
      assert a + [t] + b == [a[0]] + (a[1..] + [t] + b);
      assert (a + [t] + b)[1..] == a[1..] + [t] + b;
      RemovedIs(a[1..], t, b);
      assert [a[0]] + (a[1..] + b) == a + b;
    }
  }

  lemma {:induction false} RemovedNone(queue: seq<Tid>, t: Tid)
    requires t !in queue
    ensures Removed(queue, t) == queue
  {
    if queue != [] {
      RemovedNone(queue[1..], t);
    }
  }

  /** Thread t, and no other, has changed. */
  ghost predicate OnlyThread(s: State, r: State, t: Tid) {
    && r.threads.Keys == s.threads.Keys && r.current == s.current
    && r.lockNest == s.lockNest && |r.queues| == |s.queues|
    && forall x :: x in s.threads && x != t ==> r.threads[x] == s.threads[x]
  }

  /** A suspended thread becomes ready, behind all others of its priority, or running if it is
      still the current thread; any other thread is left alone. */
  lemma ResumeDoes(s: State, t: Tid)
    requires Ok(s) && t in s.threads
    ensures var r, p := Resume(s, t), s.threads[t].prio;
            && OnlyThread(s, r, t) && p < |s.queues|
            && (s.threads[t].stat != Suspended ==> r == s)
            && (s.threads[t].stat == Suspended && t == s.current ==>
                  r.threads[t] == s.threads[t].(stat := Running) && r.queues == s.queues)
            && (s.threads[t].stat == Suspended && t != s.current ==>
                  r.threads[t] == s.threads[t].(stat := Ready) && r.queues == s.queues[p := s.queues[p] + [t]])
  {
    ThreadPrio(s, t);
    hide QueueOk, ThreadOk;
  }

  /** A ready or running thread becomes suspended and is in no list; the others stay as they stood. */
  lemma SuspendDoes(s: State, t: Tid)
    requires Ok(s) && t in s.threads
    ensures var r, p := Suspend(s, t), s.threads[t].prio;
            && OnlyThread(s, r, t) && p < |s.queues|
            && (s.threads[t].stat != Ready && s.threads[t].stat != Running ==> r == s)
            && (s.threads[t].stat == Running ==>
                  r.threads[t] == s.threads[t].(stat := Suspended) && r.queues == s.queues)
            && (s.threads[t].stat == Ready ==>
                  && r.threads[t] == s.threads[t].(stat := Suspended) && t !in r.queues[p]
                  && (exists i :: 0 <= i < |s.queues[p]| && s.queues[p][i] == t
                        && r.queues == s.queues[p := s.queues[p][..i] + s.queues[p][i + 1..]]))
  {
    ThreadPrio(s, t);
    var p := s.threads[t].prio;
    if s.threads[t].stat == Running {
      NotListed(s, t);
    } else if s.threads[t].stat == Ready {
      var i := PlaceOf(s, t);
      assert Suspend(s, t).queues == s.queues[p := Removed(s.queues[p], t)];
    }
    hide QueueOk, ThreadOk, Removed;
  }

  /** Where a ready thread stands, and what taking it out leaves. */
  lemma PlaceOf(s: State, t: Tid) returns (i: nat)
    requires Ok(s) && t in s.threads && s.threads[t].stat == Ready && s.threads[t].prio < |s.queues|
    ensures var queue := s.queues[s.threads[t].prio];
            i < |queue| && queue[i] == t && Removed(queue, t) == queue[..i] + queue[i + 1..] && t !in Removed(queue, t)
  {
    var queue := s.queues[s.threads[t].prio];
    assert ThreadOk(s, t) && QueueOk(s, s.threads[t].prio);
    i :| 0 <= i < |queue| && queue[i] == t;
    assert queue == queue[..i] + [t] + queue[i + 1..];
    RemovedIs(queue[..i], t, queue[i + 1..]);
  }

  /** A change of priority sets it; a ready thread moves from its place to the end of the new
      priority's list. */
  lemma ChangePriorityDoes(s: State, t: Tid, prio: nat)
    requires Ok(s) && t in s.threads && prio < |s.queues|
    ensures var r, p := ChangePriority(s, t, prio), s.threads[t].prio;
            && OnlyThread(s, r, t) && r.threads[t] == s.threads[t].(prio := prio) && p < |s.queues|
            && (s.threads[t].stat != Ready ==> r.queues == s.queues)
            && (s.threads[t].stat == Ready ==>
                  exists i :: 0 <= i < |s.queues[p]| && s.queues[p][i] == t
                    && var less := s.queues[p := s.queues[p][..i] + s.queues[p][i + 1..]];
                       r.queues == less[prio := less[prio] + [t]])
  {
    ThreadPrio(s, t);
    if s.threads[t].stat == Ready {
      assert ThreadOk(s, t);
      var i := PlaceOf(s, t);
      var p := s.threads[t].prio;
      assert Remove(s, t).queues == s.queues[p := s.queues[p][..i] + s.queues[p][i + 1..]];
      assert t != s.current by {
        assert QueueOk(s, p);
      }
    }
    hide QueueOk, ThreadOk, Removed;
  }

  /** What a switch does to the lists: the best thread leaves the head of its list, and the one that
      was running goes to the end of its own. */
  lemma ScheduleMoves(s: State)
    requires Ok(s) && Schedule(s).current != s.current
    ensures var r, best, c := Schedule(s), Highest(s.queues, 0), s.threads[s.current];
            && best < |s.queues| && s.queues[best] != [] && r.current == s.queues[best][0] && c.prio < |s.queues|
            && var less := s.queues[best := s.queues[best][1..]];
               r.queues == if c.stat == Running then less[c.prio := less[c.prio] + [s.current]] else less
  {
    hide QueueOk, ThreadOk, Removed, Highest, NoDup;
    var best := Highest(s.queues, 0);
    HeadKnown(s, best);
    ThreadPrio(s, s.current);
    HeadOut(s, best);
    var from, to := s.current, s.queues[best][0];
    if s.threads[from].stat == Running {
      RemovedAppend(s.queues[best], from, to);
    }
  }

  lemma HeadOut(s: State, best: nat)
    requires Ok(s) && best < |s.queues| && s.queues[best] != []
    ensures Removed(s.queues[best], s.queues[best][0]) == s.queues[best][1..]
  {
    assert QueueOk(s, best);
    RemovedHead(s.queues[best]);
  }

  lemma ResumeOk(s: State, t: Tid)
    requires Ok(s) && t in s.threads
    ensures Ok(Resume(s, t))
  {
    hide QueueOk, ThreadOk;
    if s.threads[t].stat == Suspended {
      NotListed(s, t);
      PutIn(s, t);
    }
  }

  lemma SuspendOk(s: State, t: Tid)
    requires Ok(s) && t in s.threads && t != s.idle
    ensures Ok(Suspend(s, t))
  {
    hide QueueOk, ThreadOk, Removed;
    TakeOut(s, t);
    ThreadPrio(s, t);
    SameThreads(s, t);
    Settle(Remove(s, t), t, s.threads[t].(stat := Suspended));
  }

  lemma DetachOk(s: State, t: Tid)
    requires Ok(s) && t in s.threads && t != s.idle
    ensures Ok(Detach(s, t))
  {
    hide QueueOk, ThreadOk, Removed;
    TakeOut(s, t);
    ThreadPrio(s, t);
    SameThreads(s, t);
    if s.threads[t].stat == Initial {
      NotListed(s, t);
    }
    Settle(Remove(s, t), t, s.threads[t].(stat := Closed));
  }

  lemma ChangePriorityOk(s: State, t: Tid, prio: nat)
    requires Ok(s) && t in s.threads && prio < |s.queues|
    ensures Ok(ChangePriority(s, t, prio))
  {
    hide QueueOk, ThreadOk, Removed;
    TakeOut(s, t);
    ThreadPrio(s, t);
    SameThreads(s, t);
    if s.threads[t].stat == Ready {
      RePrio(Remove(s, t), t, prio);
      PutIn(SetPrio(Remove(s, t), t, prio), t);
    } else {
      NotListed(s, t);
      RunningIsCurrent(s, t);
      Settle(s, t, s.threads[t].(prio := prio));
    }
  }

  lemma RunningIsCurrent(s: State, t: Tid)
    requires Ok(s) && t in s.threads
    ensures s.threads[t].stat == Running ==> t == s.current
  {
    assert ThreadOk(s, t);
  }

  lemma RePrio(s: State, t: Tid, prio: nat)
    requires OkBut(s, t) && prio < |s.queues|
    ensures OkBut(SetPrio(s, t, prio), t)
  {
    var r := SetPrio(s, t, prio);
    forall p | 0 <= p < |r.queues|
      ensures QueueOk(r, p) && t !in r.queues[p]
    {
      assert QueueOk(s, p);
    }
    forall x | x in r.threads && x != t
      ensures ThreadOk(r, x)
    {
      assert ThreadOk(s, x);
    }
  }

  lemma StartupOk(s: State, t: Tid)
    requires Ok(s) && t in s.threads && s.threads[t].stat == Initial && t != s.idle
    ensures Ok(SetStat(s, t, Suspended)) && Ok(Resume(SetStat(s, t, Suspended), t))
  {
    hide QueueOk, ThreadOk, Insert;
    NotListed(s, t);
    Settle(s, t, s.threads[t].(stat := Suspended));
    ResumeOk(SetStat(s, t, Suspended), t);
  }

  // ---------------------------------------------------------------------------------
  // Runs
  // ---------------------------------------------------------------------------------

  datatype Event =
    | ResumeIt(t: Tid) | TimeoutOf(t: Tid) | SuspendIt(t: Tid) | DetachIt(t: Tid) | Reprioritise(t: Tid, prio: nat)
    | StartIt(t: Tid) | TickNow | YieldNow | Lock | Unlock | ScheduleNow

  /** What callers must respect: known threads, never suspending or deleting the idle thread, and
      only a suspended thread times out. */
  ghost predicate Allowed(s: State, e: Event)
    requires Ok(s)
  {
    match e
    case ResumeIt(t) => t in s.threads
    case TimeoutOf(t) => t in s.threads && s.threads[t].stat == Suspended
    case SuspendIt(t) => t in s.threads && t != s.idle
    case DetachIt(t) => t in s.threads && t != s.idle
    case Reprioritise(t, prio) => t in s.threads && prio < |s.queues|
    case StartIt(t) => t in s.threads && s.threads[t].stat == Initial && t != s.idle
    case _ => true
  }

  ghost function Next(s: State, e: Event): State
    requires Ok(s) && Allowed(s, e)
  {
    match e
    case ResumeIt(t) => Resume(s, t)
    case TimeoutOf(t) =>
      ResumeOk(s, t);
      Schedule(Resume(s, t))
    case SuspendIt(t) => Suspend(s, t)
    case DetachIt(t) => Detach(s, t)
    case Reprioritise(t, prio) => ChangePriority(s, t, prio)
    case StartIt(t) => Startup(s, t)
    case TickNow => Tick(s)
    case YieldNow => Yield(s)
    case Lock => EnterCritical(s)
    case Unlock => ExitCritical(s)
    case ScheduleNow => Schedule(s)
  }

  /** These events end in a call of rt_schedule. */
  ghost predicate Reschedules(e: Event) {
    e.TimeoutOf? || e.StartIt? || e.YieldNow? || e.ScheduleNow? || e.Unlock?
  }

  lemma NextOk(s: State, e: Event)
    requires Ok(s) && Allowed(s, e)
    ensures Ok(Next(s, e))
    ensures Reschedules(e) && Next(s, e).lockNest == 0 ==> BestRuns(Next(s, e))
  {
    hide QueueOk, ThreadOk, Schedule, Resume, Suspend, Detach, ChangePriority, BestRuns, Spend, Highest;
    match e {
      case ResumeIt(t) => ResumeOk(s, t);
      case TimeoutOf(t) =>
        ResumeOk(s, t);
        ScheduleEnds(Resume(s, t));
      case SuspendIt(t) => SuspendOk(s, t);
      case DetachIt(t) => DetachOk(s, t);
      case Reprioritise(t, prio) => ChangePriorityOk(s, t, prio);
      case StartIt(t) =>
        StartupOk(s, t);
        ScheduleEnds(Resume(SetStat(s, t, Suspended), t));
      case TickNow =>
        SpendOk(s);
        ScheduleEnds(Spend(s));
      case YieldNow =>
        var c := s.threads[s.current].(remaining := s.threads[s.current].slice, yielded := true);
        TouchOk(s, s.current, c);
        ScheduleEnds(s.(threads := s.threads[s.current := c]));
      case Lock => NestOk(s, s.lockNest + 1);
      case Unlock =>
        var nest := if s.lockNest - 1 <= 0 then 0 else s.lockNest - 1;
        NestOk(s, nest);
        ScheduleEnds(s.(lockNest := nest));
      case ScheduleNow => ScheduleEnds(s);
    }
  }

  lemma ScheduleEnds(s: State)
    requires Ok(s)
    ensures Ok(Schedule(s)) && Schedule(s).lockNest == s.lockNest
    ensures s.lockNest == 0 ==> BestRuns(Schedule(s))
  {
    hide QueueOk, ThreadOk, BestRuns, Highest, Removed;
    ScheduleBest(s);
  }

  ghost predicate AllAllowed(s: State, events: seq<Event>)
    requires Ok(s)
    decreases |events|
  {
    if events == [] then true
    else
      Allowed(s, events[0]) &&
      (NextOk(s, events[0]); AllAllowed(Next(s, events[0]), events[1..]))
  }

  /** Every state of every run keeps the ready lists exact. */
  ghost function Run(s: State, events: seq<Event>): (r: State)
    requires Ok(s) && AllAllowed(s, events)
    ensures Ok(r)
    decreases |events|
  {
    if events == [] then s
    else
      NextOk(s, events[0]);
      Run(Next(s, events[0]), events[1..])
  }

  /** Main result: whenever a run ends in a call of rt_schedule with the scheduler unlocked, the
      best thread is running. */
  lemma BestAlwaysRuns(s: State, events: seq<Event>, e: Event)
    requires Ok(s) && AllAllowed(s, events) && Allowed(Run(s, events), e) && Reschedules(e)
    ensures Next(Run(s, events), e).lockNest == 0 ==> BestRuns(Next(Run(s, events), e))
  {
    hide Run, AllAllowed, Next, BestRuns, Allowed;
    NextOk(Run(s, events), e);
  }

  // ---------------------------------------------------------------------------------
  // Round robin
  // ---------------------------------------------------------------------------------

  /** The running thread and the others of its priority, in the order in which they will run. */
  function Ring(s: State): seq<Tid>
    requires s.current in s.threads && s.threads[s.current].prio < |s.queues|
  {
    [s.current] + s.queues[s.threads[s.current].prio]
  }

  /** The processor is free to rotate: unlocked, a thread runs, and nothing better is ready. */
  ghost predicate Rotates(s: State) {
    Ok(s) && s.lockNest == 0 && BestRuns(s) && s.threads[s.current].prio < |s.queues|
  }

  function Rotated(ring: seq<Tid>): seq<Tid>
    requires ring != []
  {
    ring[1..] + [ring[0]]
  }

  /** A yield moves the running thread to the back of the ring and runs the next. */
  lemma YieldRotates(s: State)
    requires Rotates(s)
    ensures Rotates(Yield(s)) && Ring(Yield(s)) == Rotated(Ring(s))
    ensures Yield(s).threads[Yield(s).current].prio == s.threads[s.current].prio
  {
    hide QueueOk, ThreadOk, NoDup;
    var c := s.threads[s.current].(remaining := s.threads[s.current].slice, yielded := true);
    TouchOk(s, s.current, c);
    var y := s.(threads := s.threads[s.current := c]);
    ScheduleEnds(y);
    ThreadPrio(Yield(s), Yield(s).current);
    BestQueue(s);
    var p, q := c.prio, s.queues[c.prio];
    if q == [] {
      assert Schedule(y) == SetYield(y, y.current, false) || Schedule(y) == y;
    } else {
      HeadKnown(y, p);
      QueueDistinct(s, p);
      RemovedAppend(q, s.current, q[0]);
      RemovedHead(q);
      SwitchThreads(y, q[0]);
      assert Schedule(y) == SwitchTo(y, q[0]);
    }
  }

  /** The last tick of a slice does what a yield does, so time slices rotate the ring too. */
  lemma SliceEndYields(s: State)
    requires Ok(s) && s.threads[s.current].remaining == 1
    ensures Tick(s) == Yield(s)
  {
    hide Schedule, QueueOk, ThreadOk;
    var c := s.threads[s.current];
    TouchOk(s, s.current, c.(remaining := c.slice, yielded := true));
    assert (c.remaining + SLICE_SPAN - 1) % SLICE_SPAN == 0;
  }

  lemma QueueDistinct(s: State, p: nat)
    requires Ok(s) && p < |s.queues|
    ensures NoDup(s.queues[p])
  {
    assert QueueOk(s, p);
  }

  /** With the best thread running, its own list is the first that can be non-empty. */
  lemma BestQueue(s: State)
    requires Ok(s) && BestRuns(s)
    ensures var p := s.threads[s.current].prio;
            && p < |s.queues| && Highest(s.queues, 0) >= p && (s.queues[p] != [] ==> Highest(s.queues, 0) == p)
  {
    hide ThreadOk, NoDup;
    ThreadPrio(s, s.current);
    var p, h := s.threads[s.current].prio, Highest(s.queues, 0);
    if h < |s.queues| {
      HeadKnown(s, h);
    }
  }

  ghost function Yields(s: State, k: nat): (r: State)
    requires Rotates(s)
    ensures Rotates(r)
    decreases k
  {
    if k == 0 then s
    else
      YieldRotates(s);
      Yields(Yield(s), k - 1)
  }

  function RotatedBy(ring: seq<Tid>, k: nat): seq<Tid>
    requires k <= |ring|
  {
    ring[k..] + ring[..k]
  }

  /** Main result: after k yields the k-th thread of the ring runs and the order is kept; after a
      full round every thread has had its turn and the first runs again. */
  lemma {:induction false} RoundRobin(s: State, k: nat)
    requires Rotates(s) && k <= |Ring(s)|
    ensures Ring(Yields(s, k)) == RotatedBy(Ring(s), k)
    ensures k < |Ring(s)| ==> Yields(s, k).current == Ring(s)[k]
    ensures k == |Ring(s)| ==> Ring(Yields(s, k)) == Ring(s)
    decreases k
  {
    hide Rotates, Yield;
    RotatesRing(s);
    RotatesRing(Yields(s, k));
    if k > 0 {
      YieldsLast(s, k - 1);
      RoundRobin(s, k - 1);
      var before := Yields(s, k - 1);
      RotatesRing(before);
      YieldRotates(before);
      RotatesRing(Yield(before));
      RotateStep(Ring(s), k - 1);
    }
  }

  lemma RotatesRing(s: State)
    requires Rotates(s)
    ensures Ok(s) && s.current in s.threads && s.threads[s.current].prio < |s.queues| && Ring(s)[0] == s.current
  {
  }

  lemma RotateStep(ring: seq<Tid>, k: nat)
    requires k < |ring|
    ensures Rotated(RotatedBy(ring, k)) == RotatedBy(ring, k + 1)
    ensures k + 1 < |ring| ==> RotatedBy(ring, k + 1)[0] == ring[k + 1]
    ensures k + 1 == |ring| ==> RotatedBy(ring, k + 1) == ring
  {
  }

  lemma {:induction false} YieldsLast(s: State, k: nat)
    requires Rotates(s)
    ensures Yields(s, k + 1) == (YieldRotates(Yields(s, k)); Yield(Yields(s, k)))
    decreases k
  {
    hide Rotates, Yield;
    YieldRotates(s);
    RotatesRing(s);
    if k > 0 {
      YieldsLast(Yield(s), k - 1);
    }
  }
}
