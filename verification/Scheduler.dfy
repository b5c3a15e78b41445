/** The scheduler in place: the array of ready lists and the bitmap that indexes them. */
module Scheduler {
  import opened SchedulerSpec
  import Spec = SchedulerSpec
  import Bits = ReadyBits

  class Scheduler {
    var threads: map<Tid, Thread>
    const queues: array<seq<Tid>>    // rt_thread_priority_table
    var group: bv32                  // rt_thread_ready_priority_group
    var current: Tid                 // rt_current_thread
    var lockNest: int                // rt_scheduler_lock_nest
    const idle: Tid

    ghost function Abstract(): State
      reads this, queues
    {
      State(threads, queues[..], current, idle, lockNest)
    }

    /** Bit p is set exactly when list p is not empty. */
    ghost predicate Indexed()
      reads this, queues
    {
      queues.Length == PRIORITIES && forall p :: 0 <= p < queues.Length ==> (Bits.Has(group, p) <==> queues[p] != [])
    }

    ghost predicate Valid()
      reads this, queues
    {
      Indexed() && Ok(Abstract())
    }

    /** rt_system_scheduler_init, and rt_system_scheduler_start with only the idle thread. */
    constructor (idle: Tid, slice: nat)
      ensures Valid() && fresh(queues) && current == idle && this.idle == idle && lockNest == 0
      ensures forall p :: 0 <= p < queues.Length ==> queues[p] == []
    {
      this.idle := idle;
      queues := new seq<Tid>[PRIORITIES](_ => []);
      threads := map[idle := Thread(Running, false, PRIORITIES - 1, slice, slice)];
      group, current, lockNest := 0, idle, 0;
      new;
      forall p | 0 <= p < PRIORITIES
        ensures !Bits.Has(group, p)
      {
        Bits.EmptyHas(p);
      }
    }

    /** rt_schedule_insert_thread. */
    method Insert(t: Tid)
      requires Indexed() && t in threads && threads[t].prio < PRIORITIES
      modifies this`threads, this`group, queues
      ensures Indexed() && Abstract() == Spec.Insert(old(Abstract()), t)
    {
      hide Bits.Has, Bits.With;
      if t == current {
        threads := threads[t := threads[t].(stat := Running)];
        return;
      }
      threads := threads[t := threads[t].(stat := Ready)];
      var p := threads[t].prio;
      BitsOf(group, p);
      queues[p] := queues[p] + [t];
      group := Bits.With(group, p);
    }

    /** rt_schedule_remove_thread. */
    method Remove(t: Tid)
      requires Indexed() && t in threads && threads[t].prio < PRIORITIES
      modifies this`group, queues
      ensures Indexed() && Abstract() == Spec.Remove(old(Abstract()), t)
    {
      hide Bits.Has, Bits.Without, Removed;
      var p := threads[t].prio;
      BitsOf(group, p);
      ghost var had := queues[p];
      queues[p] := Removed(queues[p], t);
      RemovedEmpty(had, t);
      if queues[p] == [] {
        group := Bits.Without(group, p);
      }
    }

    /** _scheduler_get_highest_priority_thread: the lowest bit of the group names the best list. */
    method HighestPriority() returns (best: nat, to: Tid)
      requires Valid() && group != 0
      ensures best < PRIORITIES && best == Highest(queues[..], 0) && queues[best] != [] && to == queues[best][0]
    {
      hide Bits.Has, Bits.Ffs, Ok;
      Bits.FfsIsLowest(group);
      best := Bits.Ffs(group) - 1;
      HighestIs(queues[..], 0, best);
      to := queues[best][0];
    }

    /** rt_schedule. */
    method Schedule()
      requires Valid()
      modifies this`threads, this`group, this`current, queues
      ensures Valid() && Abstract() == Spec.Schedule(old(Abstract()))
      ensures lockNest == 0 ==> BestRuns(Abstract())
      ensures lockNest != 0 ==> Abstract() == old(Abstract())
    {
      hide Bits.Has, QueueOk, ThreadOk, Highest, Removed, Spec.Insert, Spec.Remove, Bits.Ffs;
      ghost var s := Abstract();
      ScheduleEnds(s);
      ScheduleBest(s);
      hide BestRuns;
      if lockNest == 0 {
        GroupEmpty();
        if group != 0 {
          var needInsert := false;
          var best, to := HighestPriority();
          HeadKnown(s, best);
          var c := threads[current];
          if c.stat == Running {
            if c.prio < best {
              to := current;
            } else if c.prio == best && !c.yielded {
              to := current;
            } else {
              needInsert := true;
            }
            threads := threads[current := c.(yielded := false)];
          }
          if to != current {
            Switch(to, needInsert, s);
          } else {
            StaysUnlisted(s);
            Remove(current);
            threads := threads[current := threads[current].(stat := Running)];
            assert Abstract() == SetYield(s, current, false);
          }
        }
      }
    }

    /** The switch itself, after the choice. */
    method Switch(to: Tid, needInsert: bool, ghost s: State)
      requires Indexed() && to in threads && threads[to].prio < PRIORITIES && to != current
      requires s.current == current && current in s.threads && s.threads[current].prio < PRIORITIES && to in s.threads
      requires needInsert == (s.threads[current].stat == Running) && s.threads[to] == threads[to]
      requires Abstract() == if needInsert then SetYield(s, current, false) else s
      modifies this`threads, this`group, this`current, queues
      ensures Indexed() && Abstract() == SwitchTo(s, to)
    {
      hide Bits.Has, QueueOk, ThreadOk, Highest, Removed;
      var from := current;
      current := to;
      if needInsert {
        Insert(from);
      }
      Remove(to);
      threads := threads[to := threads[to].(stat := Running)];
    }

    lemma GroupEmpty()
      requires Indexed()
      ensures group == 0 <==> Highest(queues[..], 0) == PRIORITIES
    {
      hide Bits.Has, Bits.Ffs;
      Bits.FfsIsLowest(group);
      if group == 0 {
        forall p | 0 <= p < PRIORITIES
          ensures queues[..][p] == []
        {
          Bits.EmptyHas(p);
        }
        HighestIs(queues[..], 0, PRIORITIES);
      } else {
        HighestIs(queues[..], 0, Bits.Ffs(group) - 1);
      }
    }

    /** rt_thread_resume. */
    method Resume(t: Tid) returns (ok: bool)
      requires Valid() && t in threads
      modifies this`threads, this`group, queues
      ensures Valid() && ok == (old(threads)[t].stat == Suspended) && Abstract() == Spec.Resume(old(Abstract()), t)
      ensures !ok ==> Abstract() == old(Abstract())
      ensures ok ==> threads == old(threads)[t := old(threads)[t].(stat := if t == current then Running else Ready)]
      ensures ok && t != current ==>
                var p := threads[t].prio;
                p < queues.Length && queues[..] == old(queues[..])[p := old(queues[..])[p] + [t]]
    {
      ResumeDoes(Abstract(), t);
      hide Bits.Has, QueueOk, ThreadOk, Spec.Insert;
      ResumeOk(Abstract(), t);
      ThreadPrio(Abstract(), t);
      ok := threads[t].stat == Suspended;
      if ok {
        Insert(t);
      }
    }

    /** rt_thread_suspend. */
    method Suspend(t: Tid) returns (ok: bool)
      requires Valid() && t in threads && t != idle
      modifies this`threads, this`group, queues
      ensures Valid() && ok == (old(threads)[t].stat == Ready || old(threads)[t].stat == Running)
      ensures Abstract() == Spec.Suspend(old(Abstract()), t)
      ensures !ok ==> Abstract() == old(Abstract())
      ensures ok ==> threads == old(threads)[t := old(threads)[t].(stat := Suspended)]
      ensures ok ==> threads[t].prio < queues.Length && t !in queues[threads[t].prio]
    {
      SuspendDoes(Abstract(), t);
      if threads[t].stat == Running {
        Unlisted(Abstract(), t);
      }
      hide Bits.Has, QueueOk, ThreadOk, Spec.Remove;
      SuspendOk(Abstract(), t);
      ThreadPrio(Abstract(), t);
      ok := threads[t].stat == Ready || threads[t].stat == Running;
      if ok {
        SameThreads(Abstract(), t);
        Remove(t);
        threads := threads[t := threads[t].(stat := Suspended)];
      }
    }

    /** RT_THREAD_CTRL_CHANGE_PRIORITY. */
    method ChangePriority(t: Tid, prio: nat)
      requires Valid() && t in threads && prio < PRIORITIES
      modifies this`threads, this`group, queues
      ensures Valid() && Abstract() == Spec.ChangePriority(old(Abstract()), t, prio)
      ensures threads == old(threads)[t := old(threads)[t].(prio := prio)]
      ensures threads[t].stat == Ready ==> queues[prio] != [] && queues[prio][|queues[prio]| - 1] == t
      ensures threads[t].stat != Ready ==> queues[..] == old(queues[..])
    {
      ChangePriorityDoes(Abstract(), t, prio);
      hide Bits.Has, QueueOk, ThreadOk, Spec.Remove, Spec.Insert;
      ghost var s := Abstract();
      ChangePriorityOk(s, t, prio);
      ThreadPrio(s, t);
      SameThreads(s, t);
      if threads[t].stat == Ready {
        Remove(t);
        threads := threads[t := threads[t].(prio := prio)];
        assert Abstract() == SetPrio(Spec.Remove(s, t), t, prio);
        Insert(t);
      } else {
        threads := threads[t := threads[t].(prio := prio)];
      }
    }

    /** rt_thread_yield. */
    method Yield()
      requires Valid()
      modifies this`threads, this`group, this`current, queues
      ensures Valid() && Abstract() == Spec.Yield(old(Abstract()))
    {
      hide Bits.Has, QueueOk, ThreadOk, Spec.Schedule;
      ghost var s := Abstract();
      var c := threads[current];
      TouchOk(s, current, c.(remaining := c.slice, yielded := true));
      threads := threads[current := c.(remaining := c.slice, yielded := true)];
      assert Abstract() == s.(threads := threads);
      Schedule();
    }

    /** The time-slice part of rt_tick_increase. */
    method TickIncrease()
      requires Valid()
      modifies this`threads, this`group, this`current, queues
      ensures Valid() && Abstract() == Spec.Tick(old(Abstract()))
      ensures var c := old(threads)[old(current)];
              1 < c.remaining < SLICE_SPAN ==>
                && threads == old(threads)[old(current) := c.(remaining := c.remaining - 1)]
                && current == old(current) && queues[..] == old(queues[..])
    {
      hide Bits.Has, QueueOk, ThreadOk, Spec.Schedule;
      ghost var s := Abstract();
      SpendOk(s);
      var c := threads[current];
      var left := (c.remaining + SLICE_SPAN - 1) % SLICE_SPAN;
      threads := threads[current := c.(remaining := left)];
      if left == 0 {
        threads := threads[current := c.(remaining := c.slice, yielded := true)];
        assert Abstract() == Spend(s);
        Schedule();
      } else {
        assert Abstract() == Spend(s);
      }
    }

    /** rt_enter_critical. */
    method EnterCritical()
      requires Valid()
      modifies this`lockNest
      ensures Valid() && Abstract() == Spec.EnterCritical(old(Abstract()))
      ensures lockNest == old(lockNest) + 1
    {
      hide Bits.Has, QueueOk, ThreadOk;
      NestOk(Abstract(), lockNest + 1);
      lockNest := lockNest + 1;
    }

    /** rt_exit_critical. */
    method ExitCritical()
      requires Valid()
      modifies this`threads, this`group, this`current, this`lockNest, queues
      ensures Valid() && Abstract() == Spec.ExitCritical(old(Abstract()))
      ensures lockNest == if old(lockNest) > 1 then old(lockNest) - 1 else 0
      ensures lockNest == 0 ==> BestRuns(Abstract())
      ensures lockNest != 0 ==> current == old(current) && threads == old(threads) && queues[..] == old(queues[..])
    {
      hide Bits.Has, QueueOk, ThreadOk, Spec.Schedule;
      ghost var s := Abstract();
      lockNest := lockNest - 1;
      if lockNest <= 0 {
        lockNest := 0;
        NestOk(s, 0);
        assert Abstract() == s.(lockNest := 0);
        Schedule();
      } else {
        NestOk(s, lockNest);
      }
    }
  }

  lemma Unlisted(s: State, t: Tid)
    requires Ok(s) && t in s.threads && s.threads[t].stat == Running
    ensures s.threads[t].prio < |s.queues| && t !in s.queues[s.threads[t].prio]
  {
    ThreadPrio(s, t);
    assert QueueOk(s, s.threads[t].prio);
  }

  lemma BitsOf(group: bv32, p: nat)
    requires p < PRIORITIES
    ensures forall q :: 0 <= q < PRIORITIES ==> (Bits.Has(Bits.With(group, p), q) <==> q == p || Bits.Has(group, q))
    ensures forall q :: 0 <= q < PRIORITIES ==> (Bits.Has(Bits.Without(group, p), q) <==> q != p && Bits.Has(group, q))
  {
    hide Bits.Has, Bits.With, Bits.Without;
    forall q | 0 <= q < PRIORITIES
      ensures Bits.Has(Bits.With(group, p), q) <==> q == p || Bits.Has(group, q)
      ensures Bits.Has(Bits.Without(group, p), q) <==> q != p && Bits.Has(group, q)
    {
      Bits.BitUpdates(group, p, q);
    }
  }

  lemma RemovedEmpty(queue: seq<Tid>, t: Tid)
    ensures queue == [] ==> Removed(queue, t) == []
  {
  }

  lemma {:induction false} HighestIs(queues: seq<seq<Tid>>, p: nat, h: nat)
    requires p <= h <= |queues| && (h < |queues| ==> queues[h] != []) && forall q :: p <= q < h ==> queues[q] == []
    ensures Highest(queues, p) == h
    decreases h - p
  {
    if p < h {
      HighestIs(queues, p + 1, h);
    }
  }

  /** The running thread is in no list, so removing it changes nothing. */
  lemma StaysUnlisted(s: State)
    requires Ok(s) && s.threads[s.current].stat == Running
    ensures s.threads[s.current].prio < |s.queues|
    ensures Spec.Remove(SetYield(s, s.current, false), s.current) == SetYield(s, s.current, false)
    ensures SetStat(SetYield(s, s.current, false), s.current, Running) == SetYield(s, s.current, false)
  {
    hide QueueOk, ThreadOk, Removed;
    SetYieldOk(s, s.current, false);
    ThreadPrio(s, s.current);
    NotListed(SetYield(s, s.current, false), s.current);
  }
}
