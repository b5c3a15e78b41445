/** Hard timers (rt-thread/src/timer.c) driven by the tick (rt-thread/src/clock.c). The code
    compares 32-bit ticks modulo 2^32; a ghost clock that never wraps says what is meant. */
module Timer {
  import opened TimerRows
  import opened TimerList
  import List = TimerList

  const SKIP_LIST_MASK: nat := 3

  /** How many rows from the bottom the insertion counter selects. */
  function Height(random: nat, levels: nat): (h: nat)
    requires levels >= 1
    ensures 1 <= h <= levels
    decreases levels
  {
    if levels == 1 || random % (SKIP_LIST_MASK + 1) != 0 then 1
    else 1 + Height(random / 4, levels - 1)
  }

  /** Every row is ordered by deadline and is a selection of the row below it. */
  ghost predicate RowsOk(rows: seq<seq<Id>>, due: map<Id, int>) {
    && rows != []
    && (forall i :: 0 <= i < |rows| ==> RowOk(rows[i], due))
    && (forall i :: 0 <= i < |rows| - 1 ==> Selection(rows[i], rows[i + 1]))
  }

  function Bottom(rows: seq<seq<Id>>): seq<Id>
    requires rows != []
  {
    rows[|rows| - 1]
  }

  /** What starting t does to a row that it is, or is not, linked into. */
  ghost function Placed(row: seq<Id>, due: map<Id, int>, t: Id, linked: bool): seq<Id>
    requires t in due
  {
    if linked then LinearInsert(row, due, due[t], t) else row
  }

  ghost predicate IsPlaced(after: seq<Id>, row: seq<Id>, due: map<Id, int>, t: Id)
    requires t in due
  {
    after == row || after == Placed(row, due, t, true)
  }

  class TimerSystem {
    var tick: nat
    var rows: seq<seq<Id>>       // _timer_list, fastest row first
    var timers: map<Id, Record>
    var expired: seq<Id>         // the local list of rt_timer_check
    var randomNr: nat
    ghost var now: int
    ghost var due: map<Id, int>

    ghost predicate Valid()
      reads this
    {
      && tick == Wrap(now) && rows != []
      && RowsOk(rows, due)
      && InWindow(Bottom(rows), timers, due, now)
      && Apart(Bottom(rows), expired)
    }

    /** The plain list that the rows stand for: the bottom row. */
    ghost function Abstract(): Timers
      requires rows != []
      reads this
    {
      Timers(Bottom(rows), due, timers, expired, now)
    }

    constructor (levels: nat, timers: map<Id, Record>)
      requires levels >= 1
      ensures Valid() && rows == seq(levels, _ => []) && tick == 0 && now == 0 && expired == [] && this.timers == timers
    {
      tick, rows, expired, randomNr := 0, seq(levels, _ => []), [], 0;
      this.timers := timers;
      now, due := 0, map[];
    }

    /** _timer_remove: out of every row it is linked into, and out of the expired list. */
    method Remove(t: Id)
      requires Valid()
      modifies this`rows, this`expired
      ensures Valid() && |rows| == |old(rows)|
      ensures forall i :: 0 <= i < |rows| ==> rows[i] == Removed(old(rows)[i], t)
      ensures expired == Removed(old(expired), t)
    {
      hide RowOk, Selection, InWindow;
      expired := Removed(expired, t);
      var i := 0;
      while i < |rows|
        invariant i <= |rows| == |old(rows)| && expired == Removed(old(expired), t)
        invariant forall k :: 0 <= k < i ==> rows[k] == Removed(old(rows)[k], t)
        invariant forall k :: i <= k < |rows| ==> rows[k] == old(rows)[k]
      {
        rows := rows[i := Removed(rows[i], t)];
        i := i + 1;
      }
      RemovedRows(old(rows), rows, due, t);
      RemovedWindow(Bottom(old(rows)), timers, due, now, t);
      RemovedMembers(Bottom(old(rows)), t);
      RemovedMembers(old(expired), t);
    }

    /** One row of the descent: on from `start` over everything that is not later. */
    method ScanRow(row: seq<Id>, start: nat, timeoutTick: nat, ghost d: int) returns (pos: nat)
      requires RowOk(row, due) && InWindow(row, timers, due, now)
      requires timeoutTick == Wrap(d) && now <= d < now + HALF
      requires start <= |row| && forall i :: 0 <= i < start ==> row[i] in due && due[row[i]] <= d
      ensures Splits(row, due, d, pos)
    {
      pos := start;
      while pos < |row|
        invariant start <= pos <= |row|
        invariant forall i :: 0 <= i < pos ==> row[i] in due && due[row[i]] <= d
      {
        var t := row[pos];
        InsertionTestExact(due[t], d);
        assert timers[t].timeoutTick == Wrap(due[t]);
        if Wrap(timers[t].timeoutTick - timeoutTick) == 0 {
        } else if Wrap(timers[t].timeoutTick - timeoutTick) < HALF {
          break;
        }
        pos := pos + 1;
      }
      RestIsLater(row, due, d, pos);
    }

    /** The descent of rt_timer_start: each row is entered below the timer where the row above
        was left. The timer itself is in no row. */
    method Descend(timeoutTick: nat, ghost d: int) returns (positions: seq<nat>)
      requires RowsOk(rows, due) && InWindow(Bottom(rows), timers, due, now)
      requires timeoutTick == Wrap(d) && now <= d < now + HALF
      ensures |positions| == |rows| && forall i :: 0 <= i < |rows| ==> Splits(rows[i], due, d, positions[i])
    {
      hide RowOk, Selection, InWindow, Splits;
      positions := [];
      var lvl := 0;
      while lvl < |rows|
        invariant lvl <= |rows| && |positions| == lvl
        invariant forall i :: 0 <= i < lvl ==> Splits(rows[i], due, d, positions[i])
      {
        var start := 0;
        RowWindow(rows, timers, due, now, lvl);
        if lvl > 0 && positions[lvl - 1] > 0 {
          EnterBelow(rows, due, d, lvl, positions[lvl - 1]);
          start := IndexOf(rows[lvl], rows[lvl - 1][positions[lvl - 1] - 1]) + 1;
        }
        var pos := ScanRow(rows[lvl], start, timeoutTick, d);
        positions := positions + [pos];
        lvl := lvl + 1;
      }
    }

    /** The insertion of rt_timer_start: the bottom row always, rows above it as far as the
        counter says. */
    method Link(t: Id, positions: seq<nat>, height: nat)
      requires RowsOk(rows, due) && t in due && 1 <= height <= |rows| && |positions| == |rows|
      requires forall i :: 0 <= i < |rows| ==> t !in rows[i] && Splits(rows[i], due, due[t], positions[i])
      modifies this`rows
      ensures RowsOk(rows, due) && |rows| == |old(rows)|
      ensures forall i :: 0 <= i < |rows| ==> rows[i] == Placed(old(rows)[i], due, t, i >= |rows| - height)
    {
      hide RowOk, Selection, Splits, LinearInsert;
      ghost var d := due[t];
      var lvl := 1;
      SplitsWithin(rows, due, d, positions);
      while lvl <= height
        invariant 1 <= lvl <= height + 1 && |rows| == |old(rows)|
        invariant forall i :: 0 <= i < |rows| ==> positions[i] <= |old(rows)[i]|
        invariant forall i :: 0 <= i < |rows| - lvl + 1 ==> rows[i] == old(rows)[i]
        invariant forall i :: |rows| - lvl < i < |rows| ==> rows[i] == InsertAt(old(rows)[i], positions[i], t)
      {
        rows := rows[|rows| - lvl := InsertAt(rows[|rows| - lvl], positions[|rows| - lvl], t)];
        lvl := lvl + 1;
      }
      LinkedRows(old(rows), rows, due, d, positions, height, t);
    }

    /** The second half of rt_timer_start, for a timer that is in no list. */
    method Insert(t: Id)
      requires Valid() && t in timers && t in due && TickMatches(timers[t], due[t]) && now <= due[t] < now + HALF
      requires t !in expired && forall i :: 0 <= i < |rows| ==> t !in rows[i]
      modifies this`rows, this`randomNr
      ensures Valid() && |rows| == |old(rows)|
      ensures Bottom(rows) == LinearInsert(old(Bottom(rows)), due, due[t], t)
      ensures forall i :: 0 <= i < |rows| ==> IsPlaced(rows[i], old(rows)[i], due, t)
    {
      hide RowOk, Selection, InWindow, Splits, LinearInsert;
      var positions := Descend(timers[t].timeoutTick, due[t]);
      randomNr := (randomNr + 1) % TICK_SPAN;
      ghost var before := rows;
      Link(t, positions, Height(randomNr, |rows|));
      LinearMembers(Bottom(before), due, due[t], t);
      InsertedWindow(Bottom(before), Bottom(rows), timers, due, now, t);
    }

    /** rt_timer_start. */
    method Start(t: Id)
      requires Valid() && t in timers && timers[t].initTick < HALF
      modifies this`rows, this`expired, this`timers, this`randomNr, this`due
      ensures Valid() && |rows| == |old(rows)|
      ensures Abstract() == List.Start(old(Abstract()), t)
      ensures t in Bottom(rows) && t in due && due[t] == now + old(timers)[t].initTick
      ensures timers == old(timers)[t := timers[t]]
      ensures timers[t] == old(timers)[t].(timeoutTick := Wrap(old(tick) + old(timers)[t].initTick), activated := true)
      ensures forall x :: x in old(due) && x != t ==> x in due && due[x] == old(due)[x]
      ensures forall i :: 0 <= i < |rows| ==> IsPlaced(rows[i], Removed(old(rows)[i], t), due, t)
    {
      hide RowOk, Selection, InWindow, Splits, LinearInsert, RowsOk, Removed;
      Remove(t);
      ghost var d := now + timers[t].initTick;
      var timeoutTick := Wrap(tick + timers[t].initTick);
      WrapSum(now, timers[t].initTick);
      RemovedEverywhere(old(rows), rows, t);
      RemovedMembers(old(expired), t);
      NewDeadline(rows, timers, due, now, t, timers[t].(timeoutTick := timeoutTick, activated := false), d);
      due := due[t := d];
      timers := timers[t := timers[t].(timeoutTick := timeoutTick, activated := false)];
      Insert(t);
      ActivationKeepsWindow(Bottom(rows), timers, due, now, t, true);
      LinearMembers(Removed(old(Bottom(rows)), t), due, d, t);
      timers := timers[t := timers[t].(activated := true)];
    }

    /** rt_timer_stop. */
    method Stop(t: Id) returns (ok: bool)
      requires Valid() && t in timers
      modifies this`rows, this`expired, this`timers
      ensures Valid() && |rows| == |old(rows)| && ok == old(timers)[t].activated
      ensures Abstract() == List.Stop(old(Abstract()), t)
      ensures !timers[t].activated && due == old(due)
      ensures ok ==> (forall i :: 0 <= i < |rows| ==> t !in rows[i]) && t !in expired
      ensures forall i :: 0 <= i < |rows| ==> rows[i] == if ok then Removed(old(rows)[i], t) else old(rows)[i]
    {
      hide RowsOk, InWindow, Removed;
      if !timers[t].activated {
        return false;
      }
      Remove(t);
      RemovedEverywhere(old(rows), rows, t);
      RemovedMembers(old(expired), t);
      ActivationKeepsWindow(Bottom(rows), timers, due, now, t, false);
      timers := timers[t := timers[t].(activated := false)];
      ok := true;
    }

    /** A timeout function: any sequence of starts and stops. */
    method RunCallback(actions: seq<Action>)
      requires Valid() && Ready(timers, actions)
      modifies this`rows, this`expired, this`timers, this`randomNr, this`due
      ensures Valid() && |rows| == |old(rows)| && (forall a :: a in actions ==> a.id in old(timers))
      ensures Abstract() == RunAll(old(Abstract()), actions)
    {
      hide RowsOk, RowOk, InWindow, Apart, LinearInsert, Removed, List.Start, List.Stop, SameSetup, Good, Selection,
          Ready, RunAll;
      var k := 0;
      SameSetupRefl(timers);
      ReadyKnown(timers, actions);
      while k < |actions|
        invariant k <= |actions| && Valid() && |rows| == |old(rows)| && SameSetup(old(timers), timers)
        invariant Ready(timers, actions[k..]) && forall a :: a in actions[k..] ==> a.id in timers
        invariant RunAll(Abstract(), actions[k..]) == RunAll(old(Abstract()), actions)
      {
        ghost var before := Abstract();
        AbstractGood();
        RunFirst(before, actions[k..]);
        assert actions[k..][1..] == actions[k + 1..];
        match actions[k] {
          case StartTimer(t) =>
            Start(t);
          case StopTimer(t) =>
            var _ := Stop(t);
        }
        SameSetupTrans(old(timers), before.timers, timers);
        ReadyStays(before.timers, timers, actions[k + 1..]);
        ReadyKnown(timers, actions[k + 1..]);
        k := k + 1;
      }
      RunNone(Abstract(), actions[k..]);
    }

    lemma AbstractGood()
      requires Valid()
      ensures Good(Abstract())
    {
      hide RowOk, Selection, InWindow, Apart;
    }

    /** One iteration of rt_timer_check: t has expired. */
    method Fire(t: Id, actions: seq<Action>)
      requires Valid() && t in timers && PeriodicOk(timers) && Ready(timers, actions)
      modifies this`rows, this`expired, this`timers, this`randomNr, this`due
      ensures Valid() && |rows| == |old(rows)| && (forall a :: a in actions ==> a.id in old(timers))
      ensures Abstract() == List.Fire(old(Abstract()), t, actions)
    {
      hide RowsOk, RowOk, InWindow, Apart, LinearInsert, Removed, List.Start, RunAll, Good, SameSetup, PeriodicOk,
          Ready;
      ReadyKnown(timers, actions);
      AbstractGood();
      ExpireKeeps(Abstract(), t);
      Remove(t);
      if !timers[t].periodic {
        timers := timers[t := timers[t].(activated := false)];
      }
      expired := [t] + expired;
      assert Abstract() == Expire(old(Abstract()), t);
      GoodParts(Abstract());
      ReadyStays(old(timers), timers, actions);
      RunAllShrinks(Abstract(), actions);
      RunCallback(actions);
      SetupOf(old(timers), Expire(old(Abstract()), t).timers, timers, t);
      if expired != [] {
        ghost var called := Abstract();
        AbstractGood();
        OffGood(called, t);
        expired := Removed(expired, t);
        if timers[t].periodic && timers[t].activated {
          timers := timers[t := timers[t].(activated := false)];
          GoodParts(Abstract());
          Start(t);
        } else {
          GoodParts(Abstract());
        }
      }
    }

    /** rt_timer_check: callbacks[k] is what the k-th timer to fire does. */
    method Check(callbacks: seq<seq<Action>>) returns (fired: seq<Id>)
      requires Valid() && expired == [] && Callable(timers, callbacks)
      modifies this`rows, this`expired, this`timers, this`randomNr, this`due
      ensures Valid() && |rows| == |old(rows)| && Good(old(Abstract()))
      ensures (Abstract(), fired) == List.Check(old(Abstract()), callbacks)
    {
      hide RowsOk, RowOk, InWindow, Apart, List.Fire, List.Check, Good, SameSetup, PeriodicOk, Ready, Shrinks, DueSet;
      fired := [];
      var rest := callbacks;
      AbstractGood();
      assert [] + List.Check(Abstract(), rest).1 == List.Check(Abstract(), rest).1;
      while Bottom(rows) != []
        invariant Valid() && |rows| == |old(rows)| && expired == [] && Callable(timers, rest) && Good(Abstract())
        invariant var r := List.Check(Abstract(), rest);
                  List.Check(old(Abstract()), callbacks) == (r.0, fired + r.1)
        decreases |DueSet(Abstract())|
      {
        ghost var before := Abstract();
        HeadKnown(before);
        var t := Bottom(rows)[0];
        HeadInWindow(Bottom(rows), timers, due, now);
        ExpiryTestExact(now, due[t]);
        CheckUnfolds(before, rest);
        if Wrap(tick - timers[t].timeoutTick) < HALF {
          FireShrinks(before, rest);
          ReadyKnown(timers, First(rest));
          ghost var later := List.Check(List.Fire(before, t, First(rest)), Rest(rest)).1;
          assert fired + ([t] + later) == (fired + [t]) + later;
          var actions := First(rest);
          Fire(t, actions);
          rest := Rest(rest);
          fired := fired + [t];
        } else {
          break;
        }
      }
      CheckEnds(Abstract(), rest);
      assert fired + [] == fired;
    }

    /** The timer part of rt_tick_increase. */
    method TickIncrease(callbacks: seq<seq<Action>>) returns (fired: seq<Id>)
      requires Valid() && Current(Abstract()) && Callable(timers, callbacks)
      modifies this
      ensures Valid() && |rows| == |old(rows)| && tick == Wrap(old(tick) + 1) && now == old(now) + 1
      ensures Good(old(Abstract()).(now := old(now) + 1)) && Current(Abstract())
      ensures (Abstract(), fired) == List.Check(old(Abstract()).(now := old(now) + 1), callbacks)
      ensures Abstract() == Next(old(Abstract()), Tick(callbacks))
    {
      hide RowsOk, RowOk, InWindow, Apart, List.Check, PeriodicOk, Ready, Current;
      AdvanceKeeps(Abstract());
      CurrentIdle(Abstract());
      NextKeeps(Abstract(), Tick(callbacks));
      tick := Wrap(tick + 1);
      now := now + 1;
      WrapSum(old(now), 1);
      fired := Check(callbacks);
    }
  }

  lemma CheckUnfolds(s: Timers, callbacks: seq<seq<Action>>)
    requires Good(s) && s.expired == [] && Callable(s.timers, callbacks) && s.row != []
    ensures s.row[0] in s.due && s.row[0] in s.timers && Ready(s.timers, First(callbacks))
    ensures s.due[s.row[0]] <= s.now ==>
              var b := List.Fire(s, s.row[0], First(callbacks));
              && Good(b) && b.expired == [] && Callable(b.timers, Rest(callbacks))
              && List.Check(s, callbacks) ==
                   (List.Check(b, Rest(callbacks)).0, [s.row[0]] + List.Check(b, Rest(callbacks)).1)
  {
    hide Good, Ready, SameSetup, Shrinks, DueSet, List.Fire;
    HeadKnown(s);
    ReadyNone(s.timers);
    if s.due[s.row[0]] <= s.now {
      FireShrinks(s, callbacks);
    }
  }

  lemma ReadyNone(timers: map<Id, Record>)
    ensures Ready(timers, [])
  {
  }

  lemma CheckEnds(s: Timers, callbacks: seq<seq<Action>>)
    requires Good(s) && s.expired == [] && Callable(s.timers, callbacks)
    requires s.row == [] || (s.row[0] in s.due && s.due[s.row[0]] > s.now)
    ensures List.Check(s, callbacks) == (s, [])
  {
  }

  lemma CurrentIdle(s: Timers)
    requires Current(s)
    ensures s.expired == []
  {
  }

  lemma GoodParts(s: Timers)
    requires Good(s)
    ensures InWindow(s.row, s.timers, s.due, s.now) && Apart(s.row, s.expired)
  {
  }

  lemma HeadInWindow(row: seq<Id>, timers: map<Id, Record>, due: map<Id, int>, now: int)
    requires InWindow(row, timers, due, now) && row != []
    ensures row[0] in timers && row[0] in due && timers[row[0]].timeoutTick == Wrap(due[row[0]])
    ensures now - 1 <= due[row[0]] < now + HALF
  {
  }

  lemma ReadyKnown(timers: map<Id, Record>, actions: seq<Action>)
    requires Ready(timers, actions)
    ensures forall a :: a in actions ==> a.id in timers && (a.StartTimer? ==> timers[a.id].initTick < HALF)
  {
  }

  lemma RunNone(s: Timers, actions: seq<Action>)
    requires actions == []
    ensures RunAll(s, actions) == s
  {
  }

  lemma RunFirst(s: Timers, actions: seq<Action>)
    requires Good(s) && actions != [] && Ready(s.timers, actions)
    ensures actions[0].id in s.timers && SameSetup(s.timers, Act(s, actions[0]).timers)
    ensures actions[0].StartTimer? ==> s.timers[actions[0].id].initTick < HALF
    ensures Ready(s.timers, actions[1..])
    ensures (forall a :: a in actions ==> a.id in s.timers) && (forall a :: a in actions[1..] ==> a.id in s.timers)
    ensures Act(s, actions[0]).timers.Keys == s.timers.Keys
    ensures RunAll(s, actions) == RunAll(Act(s, actions[0]), actions[1..])
  {
    hide Good, Act;
    assert actions[0] in actions;
    assert Ready(s.timers, [actions[0]]);
    ActShrinks(s, actions[0]);
  }

  lemma SetupOf(a: map<Id, Record>, b: map<Id, Record>, c: map<Id, Record>, t: Id)
    requires SameSetup(a, b) && SameSetup(b, c) && PeriodicOk(a) && t in a
    ensures t in c && (c[t].periodic ==> c[t].initTick < HALF)
  {
  }

  function IndexOf(row: seq<Id>, t: Id): (k: nat)
    requires t in row
    ensures k < |row| && row[k] == t
  {
    if row[0] == t then 0 else IndexOf(row[1..], t) + 1
  }

  lemma WrapSum(now: int, n: int)
    ensures Wrap(Wrap(now) + n) == Wrap(now + n)
  {
  }

  lemma {:induction false} RowWindow(rows: seq<seq<Id>>, timers: map<Id, Record>, due: map<Id, int>, now: int, i: nat)
    requires RowsOk(rows, due) && InWindow(Bottom(rows), timers, due, now) && i < |rows|
    ensures InWindow(rows[i], timers, due, now)
    decreases |rows| - i
  {
    hide RowOk;
    if i < |rows| - 1 {
      RowWindow(rows, timers, due, now, i + 1);
      assert Selection(rows[i], rows[i + 1]);
      ChosenMembers(rows[i + 1], Members(rows[i]));
    }
  }

  /** Everything above the point where the row above was left is due no later either. */
  lemma EnterBelow(rows: seq<seq<Id>>, due: map<Id, int>, d: int, lvl: nat, pos: nat)
    requires RowsOk(rows, due) && 0 < lvl < |rows| && Splits(rows[lvl - 1], due, d, pos) && pos > 0
    ensures pos <= |rows[lvl - 1]| && rows[lvl - 1][pos - 1] in rows[lvl]
    ensures var k := IndexOf(rows[lvl], rows[lvl - 1][pos - 1]);
            forall i :: 0 <= i < k + 1 ==> rows[lvl][i] in due && due[rows[lvl][i]] <= d
  {
    assert Selection(rows[lvl - 1], rows[lvl - 1 + 1]);
    ChosenMembers(rows[lvl], Members(rows[lvl - 1]));
    assert rows[lvl - 1][pos - 1] in rows[lvl - 1];
  }

  lemma SplitsWithin(rows: seq<seq<Id>>, due: map<Id, int>, d: int, positions: seq<nat>)
    requires |positions| == |rows| && forall i :: 0 <= i < |rows| ==> Splits(rows[i], due, d, positions[i])
    ensures forall i :: 0 <= i < |rows| ==> positions[i] <= |rows[i]|
  {
  }

  lemma LinkedRows(rows: seq<seq<Id>>, after: seq<seq<Id>>, due: map<Id, int>, d: int, positions: seq<nat>,
                   height: nat, t: Id)
    requires RowsOk(rows, due) && |after| == |rows| == |positions| && 1 <= height <= |rows| && t in due && due[t] == d
    requires forall i :: 0 <= i < |rows| ==>
            t !in rows[i] && Splits(rows[i], due, d, positions[i]) && positions[i] <= |rows[i]|
    requires forall i :: 0 <= i < |rows| - height ==> after[i] == rows[i]
    requires forall i :: |rows| - height <= i < |rows| ==> after[i] == InsertAt(rows[i], positions[i], t)
    ensures RowsOk(after, due)
    ensures forall i :: 0 <= i < |rows| ==> after[i] == Placed(rows[i], due, t, i >= |rows| - height)
  {
    hide RowOk, Selection, Splits, LinearInsert;
    forall i | 0 <= i < |rows|
      ensures RowOk(after[i], due)
      ensures i >= |rows| - height ==> after[i] == LinearInsert(rows[i], due, d, t)
    {
      if i >= |rows| - height {
        InsertedRow(rows[i], due, d, positions[i], t);
        SplitIsLinear(rows[i], due, d, positions[i], t);
      }
    }
    forall i | 0 <= i < |rows| - 1
      ensures Selection(after[i], after[i + 1])
    {
      InsertedSelection(rows[i], rows[i + 1], due, d, positions[i], positions[i + 1], t);
    }
  }

  lemma RemovedEverywhere(rows: seq<seq<Id>>, after: seq<seq<Id>>, t: Id)
    requires |after| == |rows| && forall i :: 0 <= i < |rows| ==> after[i] == Removed(rows[i], t)
    ensures forall i :: 0 <= i < |rows| ==> t !in after[i]
  {
    forall i | 0 <= i < |rows|
      ensures t !in after[i]
    {
      RemovedMembers(rows[i], t);
    }
  }

  lemma NewDeadline(rows: seq<seq<Id>>, timers: map<Id, Record>, due: map<Id, int>, now: int, t: Id, r: Record, d: int)
    requires RowsOk(rows, due) && rows != [] && InWindow(Bottom(rows), timers, due, now)
    requires forall i :: 0 <= i < |rows| ==> t !in rows[i]
    ensures RowsOk(rows, due[t := d])
    ensures InWindow(Bottom(rows), timers[t := r], due[t := d], now)
  {
    hide Selection;
    forall i | 0 <= i < |rows|
      ensures RowOk(rows[i], due[t := d])
    {
      OtherDeadline(rows[i], due, t, d);
    }
  }

  lemma InsertedWindow(before: seq<Id>, after: seq<Id>, timers: map<Id, Record>, due: map<Id, int>, now: int, t: Id)
    requires InWindow(before, timers, due, now) && (forall x :: x in after <==> x == t || x in before)
    requires t in timers && t in due && TickMatches(timers[t], due[t]) && now - 1 <= due[t] < now + HALF
    ensures InWindow(after, timers, due, now)
  {
  }

  lemma RestIsLater(row: seq<Id>, due: map<Id, int>, d: int, pos: nat)
    requires RowOk(row, due) && pos <= |row| && (forall i :: 0 <= i < pos ==> row[i] in due && due[row[i]] <= d)
    requires pos < |row| ==> due[row[pos]] > d
    ensures Splits(row, due, d, pos)
  {
  }

  lemma RemovedRows(rows: seq<seq<Id>>, after: seq<seq<Id>>, due: map<Id, int>, t: Id)
    requires RowsOk(rows, due) && |after| == |rows| && forall i :: 0 <= i < |rows| ==> after[i] == Removed(rows[i], t)
    ensures RowsOk(after, due)
  {
    hide RowOk, Selection;
    forall i | 0 <= i < |rows|
      ensures RowOk(after[i], due)
    {
      RemovedRow(rows[i], due, t);
    }
    forall i | 0 <= i < |rows| - 1
      ensures Selection(after[i], after[i + 1])
    {
      RemovedSelection(rows[i], rows[i + 1], t);
    }
  }

  lemma RemovedWindow(row: seq<Id>, timers: map<Id, Record>, due: map<Id, int>, now: int, t: Id)
    requires InWindow(row, timers, due, now)
    ensures InWindow(Removed(row, t), timers, due, now)
  {
    RemovedMembers(row, t);
  }
}
