/** Timers as one plain list ordered by true deadline: what starting, stopping and checking
    timers (rt-thread/src/timer.c) is meant to do. The skip list in Timer.dfy refines it. */
module TimerList {
  import opened TimerRows

  datatype Record = Record(initTick: nat, timeoutTick: nat, periodic: bool, activated: bool)

  /** What a callback may do to any timer. */
  datatype Action = StartTimer(id: Id) | StopTimer(id: Id)

  datatype Timers = Timers(row: seq<Id>, due: map<Id, int>, timers: map<Id, Record>, expired: seq<Id>, now: int)

  ghost predicate TickMatches(r: Record, deadline: int) {
    r.timeoutTick == Wrap(deadline)
  }

  /** Every deadline lies in the window that 32 bits can tell apart. */
  ghost predicate InWindow(row: seq<Id>, timers: map<Id, Record>, due: map<Id, int>, now: int) {
    forall t :: t in row ==> t in timers && t in due && TickMatches(timers[t], due[t]) && now - 1 <= due[t] < now + HALF
  }

  ghost predicate Apart(row: seq<Id>, expired: seq<Id>) {
    forall t :: t in row ==> t !in expired
  }

  ghost predicate Good(s: Timers) {
    RowOk(s.row, s.due) && InWindow(s.row, s.timers, s.due, s.now) && Apart(s.row, s.expired)
  }

  // ---------------------------------------------------------------------------------
  // Operations
  // ---------------------------------------------------------------------------------

  ghost function Start(s: Timers, t: Id): Timers
    requires t in s.timers
  {
    var d := s.now + s.timers[t].initTick;
    var due := s.due[t := d];
    Timers(LinearInsert(Removed(s.row, t), due, d, t), due,
           s.timers[t := s.timers[t].(timeoutTick := Wrap(d), activated := true)], Removed(s.expired, t), s.now)
  }

  ghost function Stop(s: Timers, t: Id): Timers
    requires t in s.timers
  {
    if !s.timers[t].activated then s
    else s.(row := Removed(s.row, t), expired := Removed(s.expired, t),
            timers := s.timers[t := s.timers[t].(activated := false)])
  }

  ghost function Act(s: Timers, a: Action): Timers
    requires a.id in s.timers
  {
    match a
    case StartTimer(t) => Start(s, t)
    case StopTimer(t) => Stop(s, t)
  }

  ghost function RunAll(s: Timers, actions: seq<Action>): (r: Timers)
    requires forall a :: a in actions ==> a.id in s.timers
    ensures r.timers.Keys == s.timers.Keys && r.now == s.now
    decreases |actions|
  {
    if actions == [] then s
    else
      var next := Act(s, actions[0]);
      assert next.timers.Keys == s.timers.Keys;
      RunAll(next, actions[1..])
  }

  /** Out of the list and into the list of expired timers; a one-shot timer is no longer active. */
  ghost function Expire(s: Timers, t: Id): Timers
    requires t in s.timers
  {
    s.(row := Removed(s.row, t), expired := [t] + Removed(s.expired, t),
       timers := if s.timers[t].periodic then s.timers else s.timers[t := s.timers[t].(activated := false)])
  }

  /** After the callback: nothing more if it restarted or stopped t, else a periodic timer that
      is still active starts again. */
  ghost function Renew(s: Timers, t: Id): Timers
    requires t in s.timers
  {
    if s.expired == [] then s
    else
      var off := s.(expired := Removed(s.expired, t));
      if s.timers[t].periodic && s.timers[t].activated then Start(Deactivated(off, t), t) else off
  }

  ghost function Deactivated(s: Timers, t: Id): Timers
    requires t in s.timers
  {
    s.(timers := s.timers[t := s.timers[t].(activated := false)])
  }

  ghost function Fire(s: Timers, t: Id, actions: seq<Action>): Timers
    requires t in s.timers && forall a :: a in actions ==> a.id in s.timers
  {
    Renew(RunAll(Expire(s, t), actions), t)
  }

  // ---------------------------------------------------------------------------------
  // What callbacks must respect, and what a check consumes
  // ---------------------------------------------------------------------------------

  ghost predicate Startable(r: Record) {
    1 <= r.initTick < HALF
  }

  /** Timers that callbacks start, and timers that restart themselves, wait at least one tick. */
  ghost predicate Ready(timers: map<Id, Record>, actions: seq<Action>) {
    forall a :: a in actions ==> a.id in timers && (a.StartTimer? ==> Startable(timers[a.id]))
  }

  ghost predicate PeriodicOk(timers: map<Id, Record>) {
    forall t :: t in timers && timers[t].periodic ==> Startable(timers[t])
  }

  ghost predicate SameSetup(a: map<Id, Record>, b: map<Id, Record>) {
    a.Keys == b.Keys && forall t :: t in a ==> b[t].initTick == a[t].initTick && b[t].periodic == a[t].periodic
  }

  ghost predicate Callable(timers: map<Id, Record>, callbacks: seq<seq<Action>>) {
    PeriodicOk(timers) && forall k :: 0 <= k < |callbacks| ==> Ready(timers, callbacks[k])
  }

  ghost function DueSet(s: Timers): set<Id> {
    set t | t in s.row && t in s.due && s.due[t] <= s.now
  }

  /** b comes after a within one check: nothing became due, and what is still due kept its
      deadline and its place. */
  ghost predicate Shrinks(a: Timers, b: Timers) {
    && b.now == a.now && DueSet(b) <= DueSet(a)
    && (forall t :: t in DueSet(b) ==> b.due[t] == a.due[t])
    && (forall keep :: keep <= DueSet(b) ==> Chosen(b.row, keep) == Chosen(a.row, keep))
  }

  function First(callbacks: seq<seq<Action>>): seq<Action> {
    if callbacks == [] then [] else callbacks[0]
  }

  function Rest(callbacks: seq<seq<Action>>): seq<seq<Action>> {
    if callbacks == [] then [] else callbacks[1..]
  }

  /** rt_timer_check: callbacks[k] is what the k-th timer to fire does. */
  ghost function Check(s: Timers, callbacks: seq<seq<Action>>): (r: (Timers, seq<Id>))
    requires Good(s) && s.expired == [] && Callable(s.timers, callbacks)
    decreases |DueSet(s)|
  {
    if s.row == [] then (s, [])
    else
      HeadKnown(s);
      if s.due[s.row[0]] > s.now then (s, [])
      else
        FireShrinks(s, callbacks);
        var r := Check(Fire(s, s.row[0], First(callbacks)), Rest(callbacks));
        (r.0, [s.row[0]] + r.1)
  }

  // ---------------------------------------------------------------------------------
  // Each operation keeps the list good
  // ---------------------------------------------------------------------------------

  lemma {:induction false} SplitExists(row: seq<Id>, due: map<Id, int>, d: int) returns (k: nat)
    requires RowOk(row, due)
    ensures Splits(row, due, d, k)
  {
    if row == [] {
      k := 0;
    } else if due[row[0]] > d {
      k := 0;
    } else {
      k := SplitExists(row[1..], due, d);
      assert row == [row[0]] + row[1..];
      k := k + 1;
    }
  }

  lemma OtherDeadline(row: seq<Id>, due: map<Id, int>, t: Id, d: int)
    requires RowOk(row, due) && t !in row
    ensures RowOk(row, due[t := d])
  {
  }

  lemma LinearRow(row: seq<Id>, due: map<Id, int>, d: int, t: Id)
    requires RowOk(row, due) && t !in row && t in due && due[t] == d
    ensures RowOk(LinearInsert(row, due, d, t), due)
  {
    hide RowOk, LinearInsert;
    var k := SplitExists(row, due, d);
    InsertedRow(row, due, d, k, t);
    SplitIsLinear(row, due, d, k, t);
  }

  lemma {:induction false} LinearMembers(row: seq<Id>, due: map<Id, int>, d: int, t: Id)
    ensures forall x :: x in LinearInsert(row, due, d, t) <==> x == t || x in row
  {
    if row != [] {
      assert row == [row[0]] + row[1..];
      LinearMembers(row[1..], due, d, t);
    }
  }

  lemma StartKeeps(s: Timers, t: Id)
    requires Good(s) && t in s.timers && s.timers[t].initTick < HALF
    ensures Good(Start(s, t)) && SameSetup(s.timers, Start(s, t).timers)
  {
    hide RowOk, LinearInsert, Removed;
    var d := s.now + s.timers[t].initTick;
    var row := Removed(s.row, t);
    RemovedRow(s.row, s.due, t);
    RemovedMembers(s.row, t);
    RemovedMembers(s.expired, t);
    OtherDeadline(row, s.due, t, d);
    LinearRow(row, s.due[t := d], d, t);
    LinearMembers(row, s.due[t := d], d, t);
  }

  lemma StopKeeps(s: Timers, t: Id)
    requires Good(s) && t in s.timers
    ensures Good(Stop(s, t)) && SameSetup(s.timers, Stop(s, t).timers)
  {
    hide RowOk, Removed;
    RemovedRow(s.row, s.due, t);
    RemovedMembers(s.row, t);
    RemovedMembers(s.expired, t);
  }

  lemma {:induction false} ChosenSkips(row: seq<Id>, keep: set<Id>, t: Id)
    requires t !in keep
    ensures Chosen(Removed(row, t), keep) == Chosen(row, keep)
  {
    if row != [] {
      ChosenSkips(row[1..], keep, t);
      if row[0] != t {
        assert ([row[0]] + Removed(row[1..], t))[1..] == Removed(row[1..], t);
      }
    }
  }

  lemma {:induction false} ChosenLinear(row: seq<Id>, due: map<Id, int>, d: int, t: Id, keep: set<Id>)
    requires t !in keep
    ensures Chosen(LinearInsert(row, due, d, t), keep) == Chosen(row, keep)
  {
    if row == [] {
    } else if row[0] in due && due[row[0]] > d {
      assert ([t] + row)[1..] == row;
    } else {
      ChosenLinear(row[1..], due, d, t, keep);
      assert ([row[0]] + LinearInsert(row[1..], due, d, t))[1..] == LinearInsert(row[1..], due, d, t);
    }
  }

  lemma StartShrinks(s: Timers, t: Id)
    requires Good(s) && t in s.timers && Startable(s.timers[t])
    ensures Shrinks(s, Start(s, t)) && t !in DueSet(Start(s, t))
  {
    hide RowOk, LinearInsert, Removed, Chosen, InWindow, Apart;
    var d := s.now + s.timers[t].initTick;
    var row := Removed(s.row, t);
    RemovedMembers(s.row, t);
    LinearMembers(row, s.due[t := d], d, t);
    var b := Start(s, t);
    assert t !in DueSet(b);
    forall keep | keep <= DueSet(b)
      ensures Chosen(b.row, keep) == Chosen(s.row, keep)
    {
      ChosenLinear(row, s.due[t := d], d, t, keep);
      ChosenSkips(s.row, keep, t);
    }
  }

  lemma RemovedShrinks(s: Timers, t: Id, b: Timers)
    requires b.row == Removed(s.row, t) && b.due == s.due && b.now == s.now
    ensures Shrinks(s, b) && t !in DueSet(b)
  {
    hide Removed, Chosen;
    RemovedMembers(s.row, t);
    forall keep | keep <= DueSet(b)
      ensures Chosen(b.row, keep) == Chosen(s.row, keep)
    {
      ChosenSkips(s.row, keep, t);
    }
  }

  lemma ShrinksTrans(a: Timers, b: Timers, c: Timers)
    requires Shrinks(a, b) && Shrinks(b, c)
    ensures Shrinks(a, c) && c.now == a.now
  {
    hide Chosen, DueSet;
  }

  lemma ActShrinks(s: Timers, a: Action)
    requires Good(s) && Ready(s.timers, [a])
    ensures a.id in s.timers
    ensures Good(Act(s, a)) && SameSetup(s.timers, Act(s, a).timers) && Shrinks(s, Act(s, a))
  {
    hide Good, SameSetup, Shrinks, Start;
    assert a in [a];
    match a {
      case StartTimer(t) =>
        StartKeeps(s, t);
        StartShrinks(s, t);
      case StopTimer(t) =>
        StopKeeps(s, t);
        if s.timers[t].activated {
          RemovedShrinks(s, t, Stop(s, t));
        } else {
          ShrinksRefl(s);
        }
    }
  }

  lemma ShrinksRefl(s: Timers)
    ensures Shrinks(s, s)
  {
  }

  lemma ReadyStays(timers: map<Id, Record>, after: map<Id, Record>, actions: seq<Action>)
    requires SameSetup(timers, after) && Ready(timers, actions)
    ensures Ready(after, actions)
  {
  }

  lemma CallableStays(timers: map<Id, Record>, after: map<Id, Record>, callbacks: seq<seq<Action>>)
    requires SameSetup(timers, after) && Callable(timers, callbacks)
    ensures Callable(after, callbacks)
  {
    hide Ready;
    forall k | 0 <= k < |callbacks|
      ensures Ready(after, callbacks[k])
    {
      ReadyStays(timers, after, callbacks[k]);
    }
  }

  lemma SameSetupTrans(a: map<Id, Record>, b: map<Id, Record>, c: map<Id, Record>)
    requires SameSetup(a, b) && SameSetup(b, c)
    ensures SameSetup(a, c)
  {
  }

  lemma {:induction false} RunAllShrinks(s: Timers, actions: seq<Action>)
    requires Good(s) && Ready(s.timers, actions)
    ensures var r := RunAll(s, actions); Good(r) && SameSetup(s.timers, r.timers) && Shrinks(s, r)
    decreases |actions|
  {
    hide Good, SameSetup, Shrinks, Act;
    if actions == [] {
      SameSetupRefl(s.timers);
      ShrinksRefl(s);
    } else {
      assert actions == [actions[0]] + actions[1..];
      assert Ready(s.timers, [actions[0]]);
      ActShrinks(s, actions[0]);
      var next := Act(s, actions[0]);
      ReadyStays(s.timers, next.timers, actions[1..]);
      RunAllShrinks(next, actions[1..]);
      var r := RunAll(next, actions[1..]);
      SameSetupTrans(s.timers, next.timers, r.timers);
      ShrinksTrans(s, next, r);
    }
  }

  lemma SameSetupRefl(timers: map<Id, Record>)
    ensures SameSetup(timers, timers)
  {
  }

  lemma HeadKnown(s: Timers)
    requires Good(s) && s.row != []
    ensures s.row[0] in s.due && s.row[0] in s.timers
    ensures s.due[s.row[0]] > s.now ==> DueSet(s) == {}
  {
    var t := s.row[0];
    assert t in s.row;
    if s.due[t] > s.now {
      forall x | x in s.row
        ensures s.due[x] > s.now
      {
        var i :| 0 <= i < |s.row| && s.row[i] == x;
        if i > 0 {
          assert s.due[s.row[0]] <= s.due[s.row[i]];
        }
      }
    }
  }

  lemma ExpireKeeps(s: Timers, t: Id)
    requires Good(s) && t in s.timers
    ensures var e := Expire(s, t);
            Good(e) && SameSetup(s.timers, e.timers) && Shrinks(s, e) && t !in DueSet(e) && t !in e.row
  {
    hide RowOk, Removed, Shrinks;
    RemovedRow(s.row, s.due, t);
    RemovedMembers(s.row, t);
    RemovedMembers(s.expired, t);
    RemovedShrinks(s, t, Expire(s, t));
  }

  lemma RenewKeeps(s: Timers, t: Id)
    requires Good(s) && t in s.timers && PeriodicOk(s.timers)
    ensures var r := Renew(s, t); Good(r) && SameSetup(s.timers, r.timers) && Shrinks(s, r)
  {
    hide RowOk, Removed, Shrinks, Start, Good, SameSetup;
    RemovedMembers(s.expired, t);
    SameSetupRefl(s.timers);
    ShrinksRefl(s);
    if s.expired != [] {
      var off := s.(expired := Removed(s.expired, t));
      OffGood(s, t);
      if s.timers[t].periodic && s.timers[t].activated {
        var idle := Deactivated(off, t);
        StartKeeps(idle, t);
        StartShrinks(idle, t);
        SameRowShrinks(s, idle);
        ShrinksTrans(s, idle, Start(idle, t));
        SameSetupTrans(s.timers, idle.timers, Start(idle, t).timers);
      } else {
        SameRowShrinks(s, off);
      }
    }
  }

  lemma OffGood(s: Timers, t: Id)
    requires Good(s) && t in s.timers
    ensures var off := s.(expired := Removed(s.expired, t));
            Good(off) && Good(Deactivated(off, t)) && SameSetup(s.timers, Deactivated(off, t).timers)
  {
    hide RowOk, Removed, InWindow, Apart, SameSetup;
    ApartRemoved(s.row, s.expired, t);
    ActivationKeepsWindow(s.row, s.timers, s.due, s.now, t, false);
    ActivationKeepsSetup(s.timers, t, false);
  }

  lemma ApartRemoved(row: seq<Id>, expired: seq<Id>, t: Id)
    requires Apart(row, expired)
    ensures Apart(row, Removed(expired, t))
  {
    hide Removed;
    RemovedMembers(expired, t);
  }

  lemma ActivationKeepsSetup(timers: map<Id, Record>, t: Id, a: bool)
    requires t in timers
    ensures SameSetup(timers, timers[t := timers[t].(activated := a)])
  {
  }

  lemma ActivationKeepsWindow(row: seq<Id>, timers: map<Id, Record>, due: map<Id, int>, now: int, t: Id, a: bool)
    requires InWindow(row, timers, due, now) && t in timers
    ensures InWindow(row, timers[t := timers[t].(activated := a)], due, now)
  {
  }

  lemma SameRowShrinks(a: Timers, b: Timers)
    requires a.row == b.row && a.due == b.due && a.now == b.now
    ensures Shrinks(a, b)
  {
    hide Chosen;
  }

  /** At most the fired timer itself is on the expired list, so a check ends with that list empty. */
  lemma {:induction false} ExpiredOnly(s: Timers, actions: seq<Action>, t: Id)
    requires (forall a :: a in actions ==> a.id in s.timers) && (s.expired == [] || s.expired == [t])
    ensures var e := RunAll(s, actions).expired; e == [] || e == [t]
    decreases |actions|
  {
    hide LinearInsert;
    if actions != [] {
      RemovedSingle(t, actions[0].id);
      assert Act(s, actions[0]).timers.Keys == s.timers.Keys;
      ExpiredOnly(Act(s, actions[0]), actions[1..], t);
    }
  }

  lemma RemovedSingle(t: Id, x: Id)
    ensures Removed([t], x) == if t == x then [] else [t]
    ensures Removed([], x) == []
  {
    assert [t][1..] == [];
  }

  lemma RenewClears(s: Timers, t: Id)
    requires t in s.timers && (s.expired == [] || s.expired == [t])
    ensures Renew(s, t).expired == []
  {
    RemovedSingle(t, t);
  }

  /** One firing: the list stays good, nothing else is left expired, and the fired timer is not
      due any more. */
  lemma FireShrinks(s: Timers, callbacks: seq<seq<Action>>)
    requires Good(s) && s.expired == [] && Callable(s.timers, callbacks)
    requires s.row != [] && s.row[0] in s.due && s.row[0] in s.timers && s.due[s.row[0]] <= s.now
    ensures Ready(s.timers, First(callbacks)) && Callable(s.timers, Rest(callbacks))
    ensures var b := Fire(s, s.row[0], First(callbacks));
            && Good(b) && b.expired == [] && b.now == s.now && Callable(b.timers, Rest(callbacks)) &&
                SameSetup(s.timers, b.timers)
            && Shrinks(s, b) && s.row[0] !in DueSet(b) && |DueSet(b)| < |DueSet(s)|
  {
    hide Good, SameSetup, Shrinks, DueSet, RunAll, Renew, PeriodicOk;
    var t := s.row[0];
    var actions := First(callbacks);
    assert t in DueSet(s) by {
      DueNow(s, t);
    }
    var e := Expire(s, t);
    ExpireKeeps(s, t);
    ReadyStays(s.timers, e.timers, actions);
    RunAllShrinks(e, actions);
    var u := RunAll(e, actions);
    assert e.expired == [t];
    ExpiredOnly(e, actions, t);
    SameSetupTrans(s.timers, e.timers, u.timers);
    CallableStays(s.timers, u.timers, callbacks);
    RenewKeeps(u, t);
    RenewClears(u, t);
    var b := Renew(u, t);
    SameSetupTrans(s.timers, u.timers, b.timers);
    CallableStays(s.timers, b.timers, Rest(callbacks));
    ShrinksTrans(e, u, b);
    ShrinksTrans(s, e, b);
    Smaller(s, e, b, t);
  }

  lemma DueNow(s: Timers, t: Id)
    requires t in s.row && t in s.due && s.due[t] <= s.now
    ensures t in DueSet(s)
  {
  }

  lemma Smaller(s: Timers, e: Timers, b: Timers, t: Id)
    requires Shrinks(s, b) && Shrinks(e, b) && t in DueSet(s) && t !in DueSet(e)
    ensures t !in DueSet(b) && |DueSet(b)| < |DueSet(s)|
  {
    hide DueSet, Chosen;
    assert DueSet(b) <= DueSet(s) - {t};
    Cardinality(DueSet(b), DueSet(s) - {t});
  }

  lemma {:induction false} Cardinality(a: set<Id>, b: set<Id>)
    requires a <= b
    ensures |a| <= |b|
  {
    if a != {} {
      var x :| x in a;
      Cardinality(a - {x}, b - {x});
    }
  }

  // ---------------------------------------------------------------------------------
  // What a check does
  // ---------------------------------------------------------------------------------

  /** A check returns with nothing due; what it fires was due, and fires in list order, which is
      the order of deadlines with ties in the order of starting, each timer at most once. */
  lemma {:induction false} CheckFiresInOrder(s: Timers, callbacks: seq<seq<Action>>)
    requires Good(s) && s.expired == [] && Callable(s.timers, callbacks)
    ensures var r := Check(s, callbacks);
            && Good(r.0) && r.0.expired == [] && r.0.now == s.now && SameSetup(s.timers, r.0.timers)
            && DueSet(r.0) == {}
            && Members(r.1) <= DueSet(s) && r.1 == Chosen(s.row, Members(r.1))
    decreases |DueSet(s)|
  {
    hide Good, SameSetup, Shrinks, DueSet, Fire, Callable, Chosen;
    var r := Check(s, callbacks);
    SameSetupRefl(s.timers);
    if s.row == [] {
      NothingListed(s);
    } else {
      HeadKnown(s);
      var t := s.row[0];
      if s.due[t] > s.now {
        ChosenNone(s.row);
      } else {
        FireShrinks(s, callbacks);
        var b := Fire(s, t, First(callbacks));
        CheckFiresInOrder(b, Rest(callbacks));
        var later := Check(b, Rest(callbacks));
        assert r == (later.0, [t] + later.1);
        SameSetupTrans(s.timers, b.timers, later.0.timers);
        DueNow(s, t);
        FiredFirst(s, b, later.1);
      }
    }
  }

  lemma NothingListed(s: Timers)
    requires s.row == []
    ensures DueSet(s) == {} && Chosen(s.row, Members([])) == []
  {
  }

  lemma {:induction false} ChosenNone(row: seq<Id>)
    ensures Chosen(row, Members([])) == []
  {
    if row != [] {
      ChosenNone(row[1..]);
    }
  }

  lemma FiredFirst(s: Timers, b: Timers, later: seq<Id>)
    requires Good(s) && s.row != [] && s.row[0] in DueSet(s) && Shrinks(s, b) && s.row[0] !in DueSet(b)
    requires Members(later) <= DueSet(b) && later == Chosen(b.row, Members(later))
    ensures var f := [s.row[0]] + later; Members(f) <= DueSet(s) && f == Chosen(s.row, Members(f))
  {
    hide Chosen, DueSet;
    var t, rest, keep := s.row[0], s.row[1..], Members(later);
    var wide := Members([t] + later);
    assert wide == keep + {t};
    assert later == Chosen(s.row, keep);
    assert s.row == [t] + rest;
    assert t !in rest;
    ChosenAppend([t], rest, keep);
    ChosenAppend([t], rest, wide);
    ChosenSame(rest, keep, wide);
    ChosenOne(t, keep);
    ChosenOne(t, wide);
  }

  lemma ChosenOne(t: Id, keep: set<Id>)
    ensures Chosen([t], keep) == if t in keep then [t] else []
  {
  }

  /** The deadlines of what one check fires never decrease. */
  lemma FiredDeadlines(s: Timers, callbacks: seq<seq<Action>>)
    requires Good(s) && s.expired == [] && Callable(s.timers, callbacks)
    ensures var f := Check(s, callbacks).1; RowOk(f, s.due) && forall t :: t in f ==> s.due[t] <= s.now
  {
    hide Check, Chosen, RowOk, InWindow;
    CheckFiresInOrder(s, callbacks);
    ChosenRow(s.row, s.due, Members(Check(s, callbacks).1));
    ChosenKnown(Check(s, callbacks).1, s.due);
  }

  lemma ChosenKnown(row: seq<Id>, due: map<Id, int>)
    requires RowOk(row, due)
    ensures forall t :: t in row ==> t in due
  {
  }

  lemma {:induction false} ChosenRow(row: seq<Id>, due: map<Id, int>, keep: set<Id>)
    requires RowOk(row, due)
    ensures RowOk(Chosen(row, keep), due)
  {
    if row != [] {
      assert row == [row[0]] + row[1..];
      assert RowOk(row[1..], due);
      ChosenRow(row[1..], due, keep);
      ChosenMembers(row[1..], keep);
      if row[0] in keep {
        RowCons(row[0], row[1..], Chosen(row[1..], keep), due);
      }
    }
  }

  // ---------------------------------------------------------------------------------
  // A timer that no callback names
  // ---------------------------------------------------------------------------------

  ghost predicate Unnamed(t: Id, actions: seq<Action>) {
    forall a :: a in actions ==> a.id != t
  }

  ghost predicate UnnamedAll(t: Id, callbacks: seq<seq<Action>>) {
    forall k :: 0 <= k < |callbacks| ==> Unnamed(t, callbacks[k])
  }

  ghost predicate SameFor(a: Timers, b: Timers, t: Id) {
    && a.now == b.now
    && (t in a.row <==> t in b.row) && (t in a.expired <==> t in b.expired)
    && (t in a.due <==> t in b.due) && (t in a.due ==> a.due[t] == b.due[t])
    && (t in a.timers <==> t in b.timers) && (t in a.timers ==> a.timers[t] == b.timers[t])
  }

  lemma StartOther(s: Timers, x: Id, t: Id)
    requires x in s.timers && x != t
    ensures SameFor(s, Start(s, x), t)
  {
    hide LinearInsert, Removed;
    var d := s.now + s.timers[x].initTick;
    RemovedMembers(s.row, x);
    RemovedMembers(s.expired, x);
    LinearMembers(Removed(s.row, x), s.due[x := d], d, x);
  }

  lemma StopOther(s: Timers, x: Id, t: Id)
    requires x in s.timers && x != t
    ensures SameFor(s, Stop(s, x), t)
  {
    RemovedMembers(s.row, x);
    RemovedMembers(s.expired, x);
  }

  lemma {:induction false} RunAllOther(s: Timers, actions: seq<Action>, t: Id)
    requires (forall a :: a in actions ==> a.id in s.timers) && Unnamed(t, actions)
    ensures SameFor(s, RunAll(s, actions), t)
    decreases |actions|
  {
    hide Start, Stop;
    if actions != [] {
      var a := actions[0];
      assert a in actions;
      match a {
        case StartTimer(x) => StartOther(s, x, t);
        case StopTimer(x) => StopOther(s, x, t);
      }
      assert Act(s, a).timers.Keys == s.timers.Keys by {
        assert RunAll(s, [a]).timers.Keys == s.timers.Keys;
      }
      RunAllOther(Act(s, a), actions[1..], t);
    }
  }

  lemma FireOther(s: Timers, x: Id, actions: seq<Action>, t: Id)
    requires x in s.timers && x != t && (forall a :: a in actions ==> a.id in s.timers) && Unnamed(t, actions)
    ensures SameFor(s, Fire(s, x, actions), t)
  {
    hide Start, RunAll, Removed;
    var e := Expire(s, x);
    RemovedMembers(s.row, x);
    RemovedMembers(s.expired, x);
    RunAllOther(e, actions, t);
    var u := RunAll(e, actions);
    RemovedMembers(u.expired, x);
    if u.expired != [] && u.timers[x].periodic && u.timers[x].activated {
      StartOther(Deactivated(u.(expired := Removed(u.expired, x)), x), x, t);
    }
  }

  /** A periodic timer that was active is listed again one period on; any other is off. */
  ghost predicate Outcome(s: Timers, r: Timers, t: Id)
    requires t in s.timers && t in r.timers
  {
    if s.timers[t].periodic && s.timers[t].activated then
      t in r.row && t in r.due && r.due[t] == s.now + s.timers[t].initTick && r.timers[t].activated
    else
      t !in r.row && !r.timers[t].activated
  }

  lemma FireSelf(s: Timers, actions: seq<Action>, t: Id)
    requires t in s.timers && (forall a :: a in actions ==> a.id in s.timers) && Unnamed(t, actions)
    ensures t in Fire(s, t, actions).timers && Outcome(s, Fire(s, t, actions), t)
  {
    hide LinearInsert, RunAll, Removed;
    var e := Expire(s, t);
    RemovedMembers(s.row, t);
    RunAllOther(e, actions, t);
    var u := RunAll(e, actions);
    assert t in e.expired;
    assert t in u.expired;
    if u.timers[t].periodic && u.timers[t].activated {
      var off := Deactivated(u.(expired := Removed(u.expired, t)), t);
      var d := off.now + off.timers[t].initTick;
      LinearMembers(Removed(off.row, t), off.due[t := d], d, t);
    }
  }

  /** A timer that is not due and that no callback names is exactly as it was. */
  lemma {:induction false} CheckLeavesOthers(s: Timers, callbacks: seq<seq<Action>>, t: Id)
    requires Good(s) && s.expired == [] && Callable(s.timers, callbacks) && UnnamedAll(t, callbacks) && t !in DueSet(s)
    ensures SameFor(s, Check(s, callbacks).0, t)
    decreases |DueSet(s)|
  {
    hide Good, SameSetup, Shrinks, DueSet, Fire, Callable;
    if s.row != [] {
      HeadKnown(s);
      var x := s.row[0];
      if s.due[x] <= s.now {
        DueNow(s, x);
        FireShrinks(s, callbacks);
        UnnamedFirst(t, callbacks);
        FireOther(s, x, First(callbacks), t);
        var b := Fire(s, x, First(callbacks));
        StillNotDue(s, b, t);
        CheckLeavesOthers(b, Rest(callbacks), t);
      }
    }
  }

  lemma UnnamedFirst(t: Id, callbacks: seq<seq<Action>>)
    requires UnnamedAll(t, callbacks)
    ensures Unnamed(t, First(callbacks)) && UnnamedAll(t, Rest(callbacks))
  {
  }

  lemma StillNotDue(s: Timers, b: Timers, t: Id)
    requires SameFor(s, b, t)
    ensures t in DueSet(s) <==> t in DueSet(b)
  {
  }

  /** Every due timer that no callback names fires in this check, and is listed again exactly if
      it is periodic and active. */
  lemma {:induction false} DueTimersFire(s: Timers, callbacks: seq<seq<Action>>, t: Id)
    requires Good(s) && s.expired == [] && Callable(s.timers, callbacks) && UnnamedAll(t, callbacks) && t in DueSet(s)
    ensures var r := Check(s, callbacks); t in r.1 && t in s.timers && t in r.0.timers && Outcome(s, r.0, t)
    decreases |DueSet(s)|
  {
    hide Good, SameSetup, Shrinks, DueSet, Fire, Callable;
    DueListed(s, t);
    HeadKnown(s);
    var x := s.row[0];
    FireShrinks(s, callbacks);
    UnnamedFirst(t, callbacks);
    var b := Fire(s, x, First(callbacks));
    if x == t {
      FireSelf(s, First(callbacks), t);
      CheckLeavesOthers(b, Rest(callbacks), t);
    } else {
      FireOther(s, x, First(callbacks), t);
      StillNotDue(s, b, t);
      DueTimersFire(b, Rest(callbacks), t);
    }
  }

  lemma DueListed(s: Timers, t: Id)
    requires Good(s) && t in DueSet(s)
    ensures s.row != [] && t in s.timers && DueSet(s) != {}
  {
  }

  // ---------------------------------------------------------------------------------
  // Runs: threads start and stop timers between clock ticks, every tick is checked
  // ---------------------------------------------------------------------------------

  datatype Event = Call(action: Action) | Tick(callbacks: seq<seq<Action>>)

  ghost predicate Allowed(timers: map<Id, Record>, e: Event) {
    match e
    case Call(a) => a.id in timers && (a.StartTimer? ==> timers[a.id].initTick < HALF)
    case Tick(callbacks) => Callable(timers, callbacks)
  }

  /** Nothing listed is overdue. */
  ghost predicate Current(s: Timers) {
    Good(s) && s.expired == [] && forall t :: t in s.row ==> t in s.due && s.due[t] >= s.now
  }

  lemma AdvanceKeeps(s: Timers)
    requires Current(s)
    ensures Good(s.(now := s.now + 1))
  {
    hide RowOk;
  }

  ghost function Next(s: Timers, e: Event): Timers
    requires Current(s) && Allowed(s.timers, e)
  {
    match e
    case Call(a) => Act(s, a)
    case Tick(callbacks) =>
      AdvanceKeeps(s);
      Check(s.(now := s.now + 1), callbacks).0
  }

  lemma NextKeeps(s: Timers, e: Event)
    requires Current(s) && Allowed(s.timers, e)
    ensures Current(Next(s, e)) && SameSetup(s.timers, Next(s, e).timers)
  {
    hide RowOk, InWindow, Apart, Start, SameSetup, Check, PeriodicOk, Stop;
    match e {
      case Call(StartTimer(t)) =>
        StartKeeps(s, t);
        StartCurrent(s, t);
      case Call(StopTimer(t)) =>
        StopKeeps(s, t);
        StopCurrent(s, t);
      case Tick(callbacks) =>
        AdvanceKeeps(s);
        CheckFiresInOrder(s.(now := s.now + 1), callbacks);
        NothingDue(Next(s, e));
    }
  }

  lemma NothingDue(s: Timers)
    requires Good(s) && DueSet(s) == {} && s.expired == []
    ensures Current(s)
  {
    forall t | t in s.row
      ensures t in s.due && s.due[t] >= s.now
    {
      assert t !in DueSet(s);
    }
  }

  lemma StartCurrent(s: Timers, t: Id)
    requires Current(s) && t in s.timers
    ensures var r := Start(s, t); r.expired == [] && forall x :: x in r.row ==> x in r.due && r.due[x] >= r.now
  {
    hide LinearInsert, RowOk, InWindow;
    var d := s.now + s.timers[t].initTick;
    RemovedMembers(s.row, t);
    RemovedMembers(s.expired, t);
    LinearMembers(Removed(s.row, t), s.due[t := d], d, t);
  }

  lemma StopCurrent(s: Timers, t: Id)
    requires Current(s) && t in s.timers
    ensures var r := Stop(s, t); r.expired == [] && forall x :: x in r.row ==> x in r.due && r.due[x] >= r.now
  {
    hide RowOk, InWindow;
    RemovedMembers(s.row, t);
    RemovedMembers(s.expired, t);
  }

  ghost predicate AllAllowed(timers: map<Id, Record>, events: seq<Event>) {
    forall e :: e in events ==> Allowed(timers, e)
  }

  lemma AllowedStays(timers: map<Id, Record>, after: map<Id, Record>, events: seq<Event>)
    requires SameSetup(timers, after) && AllAllowed(timers, events)
    ensures AllAllowed(after, events)
  {
    forall e | e in events
      ensures Allowed(after, e)
    {
      if e.Tick? {
        CallableStays(timers, after, e.callbacks);
      }
    }
  }

  /** Any run keeps every listed deadline within the window and none of them behind the clock. */
  ghost function Run(s: Timers, events: seq<Event>): (r: Timers)
    requires Current(s) && AllAllowed(s.timers, events)
    ensures Current(r) && r.timers.Keys == s.timers.Keys
    decreases |events|
  {
    if events == [] then s
    else
      assert Allowed(s.timers, events[0]);
      NextKeeps(s, events[0]);
      AllowedStays(s.timers, Next(s, events[0]).timers, events[1..]);
      Run(Next(s, events[0]), events[1..])
  }

  /** After any run, the next tick fires a timer that was set for later than the current clock
      exactly when the clock reaches its deadline: not before, and (unless a callback names it) not after. */
  lemma FiresOnTime(start: Timers, events: seq<Event>, callbacks: seq<seq<Action>>, t: Id)
    requires Current(start) && AllAllowed(start.timers, events)
    requires var s := Run(start, events);
             Callable(s.timers, callbacks) && t in s.row && t in s.due && s.due[t] > s.now
    ensures var s := Run(start, events);
            var advanced := s.(now := s.now + 1);
            && Good(advanced)
            && (t in Check(advanced, callbacks).1 ==> s.due[t] == s.now + 1)
            && (s.due[t] == s.now + 1 && UnnamedAll(t, callbacks) ==> t in Check(advanced, callbacks).1)
  {
    hide Run, Good, Check, Callable, Chosen;
    var s := Run(start, events);
    AdvanceKeeps(s);
    var advanced := s.(now := s.now + 1);
    CheckFiresInOrder(advanced, callbacks);
    if s.due[t] == s.now + 1 && UnnamedAll(t, callbacks) {
      DueNow(advanced, t);
      DueTimersFire(advanced, callbacks, t);
    }
  }

  // ---------------------------------------------------------------------------------
  // A timer waits as many ticks as it was set up for
  // ---------------------------------------------------------------------------------

  /** Starting sets the deadline that many ticks ahead, for one-shot and periodic timers alike,
      and leaves every other timer as it was. */
  lemma StartSets(s: Timers, t: Id)
    requires t in s.timers
    ensures var r, k := Start(s, t), s.timers[t].initTick;
            && t in r.row && t !in r.expired && t in r.due && r.due[t] == s.now + k && r.now == s.now
            && r.timers[t] == s.timers[t].(timeoutTick := Wrap(s.now + k), activated := true)
            && forall x :: x != t ==> SameFor(s, r, x)
  {
    hide LinearInsert, Removed, SameFor;
    var d := s.now + s.timers[t].initTick;
    LinearMembers(Removed(s.row, t), s.due[t := d], d, t);
    RemovedMembers(s.expired, t);
    forall x | x != t
      ensures SameFor(s, Start(s, t), x)
    {
      StartOther(s, t, x);
    }
  }

  /** Stopping takes an active timer off, and leaves every other timer as it was. */
  lemma StopClears(s: Timers, t: Id)
    requires t in s.timers
    ensures var r := Stop(s, t);
            && !r.timers[t].activated && (s.timers[t].activated ==> t !in r.row && t !in r.expired)
            && forall x :: x != t ==> SameFor(s, r, x)
  {
    hide Removed, SameFor;
    RemovedMembers(s.row, t);
    RemovedMembers(s.expired, t);
    forall x | x != t
      ensures SameFor(s, Stop(s, t), x)
    {
      StopOther(s, t, x);
    }
  }

  lemma {:induction false} RunAllAppend(s: Timers, a: seq<Action>, b: seq<Action>)
    requires forall x :: x in a + b ==> x.id in s.timers
    ensures (forall x :: x in a ==> x.id in s.timers) && (forall x :: x in b ==> x.id in RunAll(s, a).timers)
    ensures RunAll(s, a + b) == RunAll(RunAll(s, a), b)
    decreases |a|
  {
    hide Start, Stop;
    assert forall x :: x in a + b <==> x in a || x in b;
    if a == [] {
      assert a + b == b;
    } else {
      assert (a + b)[0] == a[0] && (a + b)[1..] == a[1..] + b;
      assert Act(s, a[0]).timers.Keys == s.timers.Keys by {
        assert a[0] in a;
        assert RunAll(s, [a[0]]).timers.Keys == s.timers.Keys;
      }
      RunAllAppend(Act(s, a[0]), a[1..], b);
    }
  }

  /** The last thing a callback does to a timer decides: started, it is listed for its full wait;
      stopped, it is off. */
  lemma LastActionDecides(s: Timers, a: seq<Action>, last: Action, b: seq<Action>)
    requires (forall x :: x in a + [last] + b ==> x.id in s.timers) && Unnamed(last.id, b)
    ensures var r, t := RunAll(s, a + [last] + b), last.id;
            && t in r.timers && r.timers[t].activated == last.StartTimer?
            && (last.StartTimer? ==> t in r.row && t in r.due && r.due[t] == s.now + r.timers[t].initTick)
  {
    hide Start, Stop, RunAll;
    var t := last.id;
    RunAllAppend(s, a + [last], b);
    RunAllAppend(s, a, [last]);
    var m := RunAll(s, a);
    assert last in [last];
    RunAllOne(m, last);
    RunAllOther(Act(m, last), b, t);
    match last {
      case StartTimer(_) => StartSets(m, t);
      case StopTimer(_) => StopClears(m, t);
    }
  }

  lemma RunAllOne(s: Timers, a: Action)
    requires a.id in s.timers
    ensures RunAll(s, [a]) == Act(s, a)
  {
    hide Start, Stop;
    assert [a][1..] == [];
  }

  /** t is listed for clock d. */
  ghost predicate Armed(s: Timers, t: Id, d: int) {
    t in s.row && t in s.due && s.due[t] == d && t in s.timers && s.timers[t].activated
  }

  function Ticks(events: seq<Event>): nat {
    if events == [] then 0 else (if events[0].Tick? then 1 else 0) + Ticks(events[1..])
  }

  /** Neither a thread nor a callback starts or stops t. */
  ghost predicate NobodyNames(t: Id, events: seq<Event>) {
    forall e :: e in events ==> match e case Call(a) => a.id != t case Tick(callbacks) => UnnamedAll(t, callbacks)
  }

  lemma StepArmed(s: Timers, e: Event, t: Id, d: int)
    requires Current(s) && Allowed(s.timers, e) && Armed(s, t, d) && NobodyNames(t, [e])
    requires e.Tick? ==> s.now + 1 < d
    ensures Armed(Next(s, e), t, d) && Next(s, e).now == s.now + if e.Tick? then 1 else 0
  {
    hide RowOk, InWindow, Apart, Start, Stop, Check, Callable, UnnamedAll;
    assert e in [e];
    match e {
      case Call(StartTimer(x)) => StartOther(s, x, t);
      case Call(StopTimer(x)) => StopOther(s, x, t);
      case Tick(callbacks) =>
        AdvanceKeeps(s);
        var advanced := s.(now := s.now + 1);
        assert t !in DueSet(advanced);
        CheckLeavesOthers(advanced, callbacks, t);
    }
  }

  lemma {:induction false} StaysArmed(s: Timers, events: seq<Event>, t: Id, d: int)
    requires Current(s) && AllAllowed(s.timers, events) && Armed(s, t, d) && NobodyNames(t, events)
    requires s.now + Ticks(events) < d
    ensures Armed(Run(s, events), t, d) && Run(s, events).now == s.now + Ticks(events)
    decreases |events|
  {
    hide Current, Allowed, Armed, SameSetup, Next;
    if events != [] {
      var e, rest := events[0], events[1..];
      assert e in events && forall x :: x in rest ==> x in events;
      assert NobodyNames(t, [e]) && NobodyNames(t, rest);
      StepArmed(s, e, t, d);
      NextKeeps(s, e);
      AllowedStays(s.timers, Next(s, e).timers, rest);
      StaysArmed(Next(s, e), rest, t, d);
    }
  }

  /** A run in two parts. */
  lemma {:induction false} RunAppend(s: Timers, a: seq<Event>, b: seq<Event>)
    requires Current(s) && AllAllowed(s.timers, a + b)
    ensures AllAllowed(s.timers, a) && SameSetup(s.timers, Run(s, a).timers)
    ensures AllAllowed(Run(s, a).timers, b) && Run(s, a + b) == Run(Run(s, a), b)
    decreases |a|
  {
    hide Current, Allowed, SameSetup, Next;
    AllowedParts(s.timers, a, b);
    SameSetupRefl(s.timers);
    if a == [] {
      assert a + b == b;
    } else {
      var e, rest := a[0], a[1..];
      assert e in a + b && (a + b)[0] == e && (a + b)[1..] == rest + b;
      NextKeeps(s, e);
      var n := Next(s, e);
      AllowedParts(s.timers, [e], rest + b);
      assert a + b == [e] + (rest + b);
      AllowedStays(s.timers, n.timers, rest + b);
      RunAppend(n, rest, b);
      SameSetupTrans(s.timers, n.timers, Run(n, rest).timers);
      assert Run(s, a + b) == Run(n, rest + b);
      assert Run(s, a) == Run(n, rest);
    }
  }

  lemma AllowedParts(timers: map<Id, Record>, a: seq<Event>, b: seq<Event>)
    ensures AllAllowed(timers, a + b) <==> AllAllowed(timers, a) && AllAllowed(timers, b)
  {
    hide Allowed;
    assert forall e :: e in a + b <==> e in a || e in b;
  }

  lemma RunOne(s: Timers, e: Event)
    requires Current(s) && AllAllowed(s.timers, [e])
    ensures Allowed(s.timers, e) && Run(s, [e]) == Next(s, e)
  {
    hide Allowed, Next, Current;
    assert e in [e];
    assert Allowed(s.timers, e);
    NextKeeps(s, e);
    assert [e][1..] == [];
  }

  /** On every run: a timer, one-shot or periodic, that is started with init_tick k >= 1 and that
      nobody names afterwards fires in exactly the k-th tick after its start. */
  lemma FiresAfterInitTicks(start: Timers, before: seq<Event>, t: Id, after: seq<Event>, callbacks: seq<seq<Action>>)
    requires Current(start) && t in start.timers && Startable(start.timers[t])
    requires AllAllowed(start.timers, before + [Call(StartTimer(t))] + after + [Tick(callbacks)])
    requires NobodyNames(t, after + [Tick(callbacks)]) && Ticks(after) < start.timers[t].initTick
    ensures AllAllowed(start.timers, before + [Call(StartTimer(t))] + after)
    ensures var u := Run(start, before + [Call(StartTimer(t))] + after);
            var advanced := u.(now := u.now + 1);
            && Good(advanced) && u.expired == [] && Callable(advanced.timers, callbacks)
            && (t in Check(advanced, callbacks).1 <==> Ticks(after) + 1 == start.timers[t].initTick)
  {
    hide Run, Start, Current, NobodyNames, UnnamedAll, Check, Allowed, Startable;
    var call := [Call(StartTimer(t))];
    NamedSplit(t, after, callbacks);
    RunAppend(start, before + call + after, [Tick(callbacks)]);
    RunAppend(start, before + call, after);
    RunAppend(start, before, call);
    var s := Run(start, before);
    RunOne(s, Call(StartTimer(t)));
    StartArms(s, t);
    SameWait(start.timers, s.timers, t);
    var d := s.now + s.timers[t].initTick;
    StaysArmed(Start(s, t), after, t, d);
    var u := Run(Start(s, t), after);
    assert Tick(callbacks) in [Tick(callbacks)];
    TickAllowed(u.timers, callbacks);
    FiresWhenReached(u, callbacks, t, d);
    NothingExpired(u);
  }

  lemma NothingExpired(s: Timers)
    requires Current(s)
    ensures s.expired == []
  {
  }

  lemma TickAllowed(timers: map<Id, Record>, callbacks: seq<seq<Action>>)
    requires Allowed(timers, Tick(callbacks))
    ensures Callable(timers, callbacks)
  {
  }

  lemma StartArms(s: Timers, t: Id)
    requires Current(s) && Allowed(s.timers, Call(StartTimer(t)))
    ensures Next(s, Call(StartTimer(t))) == Start(s, t)
    ensures Armed(Start(s, t), t, s.now + s.timers[t].initTick) && Start(s, t).now == s.now
  {
    StartSets(s, t);
  }

  lemma SameWait(a: map<Id, Record>, b: map<Id, Record>, t: Id)
    requires SameSetup(a, b) && t in a
    ensures t in b && b[t].initTick == a[t].initTick
  {
  }

  lemma NamedSplit(t: Id, after: seq<Event>, callbacks: seq<seq<Action>>)
    requires NobodyNames(t, after + [Tick(callbacks)])
    ensures NobodyNames(t, after) && UnnamedAll(t, callbacks)
  {
    assert Tick(callbacks) in after + [Tick(callbacks)];
    assert forall e :: e in after ==> e in after + [Tick(callbacks)];
  }

  lemma FiresWhenReached(u: Timers, callbacks: seq<seq<Action>>, t: Id, d: int)
    requires Current(u) && Callable(u.timers, callbacks) && Armed(u, t, d) && u.now < d && UnnamedAll(t, callbacks)
    ensures var advanced := u.(now := u.now + 1);
            Good(advanced) && (t in Check(advanced, callbacks).1 <==> u.now + 1 == d)
  {
    hide Good, Check, Callable, Chosen;
    AdvanceKeeps(u);
    var advanced := u.(now := u.now + 1);
    CheckFiresInOrder(advanced, callbacks);
    if u.now + 1 == d {
      DueNow(advanced, t);
      DueTimersFire(advanced, callbacks, t);
    }
  }
}
