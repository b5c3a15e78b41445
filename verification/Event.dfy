/** The event object of rt-thread/src/ipc.c: 32 flags, and threads that wait for all or any
    of some of them, clearing what they receive if they asked to. */
module Event {
  import opened WaitList

  type Flags = bv32

  datatype Mode = And | Or

  /** What a suspended thread asked for (rt_thread.event_set and event_info). */
  datatype Want = Want(set_: Flags, mode: Mode, clear: bool)

  /** A thread resumed by a send, and the flags it received. */
  datatype Woken = Woken(tid: nat, received: Flags, clear: bool)

  datatype Evt = Evt(flags: Flags, order: Order, waiters: seq<Waiter>, want: map<nat, Want>)

  datatype RecvResult = Invalid | Received(flags: Flags) | TimedOut | ReceiverWaits

  function Both(a: Flags, b: Flags): Flags {
    a & b
  }

  function Either(a: Flags, b: Flags): Flags {
    a | b
  }

  function Without_(a: Flags, b: Flags): Flags {
    a & !b
  }

  predicate Satisfied(w: Want, flags: Flags) {
    match w.mode
    case And => Both(flags, w.set_) == w.set_
    case Or => Both(flags, w.set_) != 0
  }

  /** What a satisfied thread receives: all it waits for, or those that are set. */
  function Received_(w: Want, flags: Flags): Flags {
    match w.mode
    case And => w.set_
    case Or => Both(w.set_, flags)
  }

  function WantOf(want: map<nat, Want>, t: nat): Want {
    if t in want then want[t] else Want(0, Or, false)
  }

  /** One pass over the waiting threads, in list order. */
  datatype Pass = Pass(flags: Flags, left: seq<Waiter>, woken: seq<Woken>)

  function Scan(flags: Flags, list: seq<Waiter>, want: map<nat, Want>): Pass
    decreases list
  {
    if list == [] then Pass(flags, [], [])
    else
      var w := WantOf(want, list[0].tid);
      if Satisfied(w, flags) then
        var got := Received_(w, flags);
        var rest := Scan(if w.clear then Without_(flags, got) else flags, list[1..], want);
        rest.(woken := [Woken(list[0].tid, got, w.clear)] + rest.woken)
      else
        var rest := Scan(flags, list[1..], want);
        rest.(left := [list[0]] + rest.left)
  }

  function SendSpec(e: Evt, set_: Flags): (Evt, seq<Woken>) {
    var p := Scan(Either(e.flags, set_), e.waiters, e.want);
    (e.(flags := p.flags, waiters := p.left), p.woken)
  }

  function RecvSpec(e: Evt, w: Waiter, want: Want, timeout: int): (Evt, RecvResult) {
    if want.set_ == 0 then (e, Invalid)
    else if Satisfied(want, e.flags) then
      (if want.clear then e.(flags := Without_(e.flags, want.set_)) else e, Received(Both(e.flags, want.set_)))
    else if timeout == 0 then (e, TimedOut)
    else (e.(waiters := Insert(e.waiters, w, e.order), want := e.want[w.tid := want]), ReceiverWaits)
  }

  // ---------------------------------------------------------------------------------
  // In place
  // ---------------------------------------------------------------------------------

  class Event {
    const order: Order
    var flags: Flags
    var suspendThread: seq<Waiter>
    var want: map<nat, Want>

    ghost function Abs(): Evt
      reads this
    {
      Evt(flags, order, suspendThread, want)
    }

    constructor (order: Order)
      ensures Abs() == Evt(0, order, [], map[])
    {
      this.order, flags, suspendThread, want := order, 0, [], map[];
    }

    /** rt_event_send: walks the list once, taking satisfied threads out as it goes. */
    method Send(set_: Flags) returns (ok: bool, woken: seq<Woken>)
      modifies this
      ensures ok <==> set_ != 0
      ensures set_ == 0 ==> Abs() == old(Abs()) && woken == []
      ensures set_ != 0 ==> (Abs(), woken) == SendSpec(old(Abs()), set_)
      ensures set_ != 0 ==> flags == (old(flags) | set_) & !Cleared(woken)
      ensures |woken| + |suspendThread| == |old(suspendThread)|
    {
      hide Either, Without_, Cleared, Scan, WokenThread;
      ok, woken := Walk(set_);
      ScanAccounts(Either(old(flags), set_), old(suspendThread), old(want));
      SentFlags(old(flags), set_, Cleared(woken));
    }

    /** The body of rt_event_send. */
    method Walk(set_: Flags) returns (ok: bool, woken: seq<Woken>)
      modifies this
      ensures ok <==> set_ != 0
      ensures set_ == 0 ==> Abs() == old(Abs()) && woken == []
      ensures set_ != 0 ==> (Abs(), woken) == SendSpec(old(Abs()), set_)
    {
      hide Satisfied, Received_, Both, Either, Without_;
      woken := [];
      if set_ == 0 {
        return false, woken;
      }
      flags := Either(flags, set_);
      ghost var whole := Scan(flags, suspendThread, want);
      var n := 0;
      assert suspendThread[..0] == [] && suspendThread[0..] == suspendThread;
      while n < |suspendThread|
        invariant n <= |suspendThread| && want == old(want)
        invariant whole == Joined(woken, suspendThread[..n], Scan(flags, suspendThread[n..], want))
        decreases |suspendThread| - n
      {
        var w := WantOf(want, suspendThread[n].tid);
        ghost var rest := suspendThread[n..];
        assert rest[0] == suspendThread[n] && rest[1..] == suspendThread[n + 1..];
        if Satisfied(w, flags) {
          var got := Received_(w, flags);
          ghost var tail := Scan(if w.clear then Without_(flags, got) else flags, rest[1..], want);
          JoinWoken(woken, suspendThread[..n], Woken(suspendThread[n].tid, got, w.clear), tail);
          woken := woken + [Woken(suspendThread[n].tid, got, w.clear)];
          if w.clear {
            flags := Without_(flags, got);
          }
          ghost var front := suspendThread[..n];
          suspendThread := suspendThread[..n] + suspendThread[n + 1..];
          assert suspendThread[..n] == front && suspendThread[n..] == rest[1..];
        } else {
          JoinLeft(woken, suspendThread[..n], rest[0], Scan(flags, rest[1..], want));
          assert suspendThread[..n + 1] == suspendThread[..n] + [rest[0]];
          n := n + 1;
        }
      }
      assert suspendThread[..n] == suspendThread && suspendThread[n..] == [];
      assert suspendThread + [] == suspendThread && woken + [] == woken;
      ok := true;
    }

    /** rt_event_recv up to the point where the thread returns or sleeps. */
    method Recv(w: Waiter, want: Want, timeout: int) returns (r: RecvResult)
      modifies this
      ensures (Abs(), r) == RecvSpec(old(Abs()), w, want, timeout)
      ensures want.set_ == 0 ==> r == Invalid && Abs() == old(Abs())
      ensures var met := match want.mode
                         case And => old(flags) & want.set_ == want.set_
                         case Or => old(flags) & want.set_ != 0;
              && (want.set_ != 0 && met ==>
                    && r == Received(old(flags) & want.set_) && suspendThread == old(suspendThread)
                    && flags == if want.clear then old(flags) & !want.set_ else old(flags))
              && (want.set_ != 0 && !met && timeout == 0 ==> r == TimedOut && Abs() == old(Abs()))
              && (want.set_ != 0 && !met && timeout != 0 ==>
                    && r == ReceiverWaits && flags == old(flags) && w in suspendThread
                    && w.tid in this.want && this.want[w.tid] == want)
    {
      MetOnBits(want, flags);
      hide Satisfied, Both, Without_;
      if want.set_ == 0 {
        return Invalid;
      }
      if Satisfied(want, flags) {
        r := Received(Both(flags, want.set_));
        if want.clear {
          flags := Without_(flags, want.set_);
        }
        return;
      }
      if timeout == 0 {
        return TimedOut;
      }
      this.want := this.want[w.tid := want];
      Joins(suspendThread, w, order);
      suspendThread := Suspend(suspendThread, w, order);
      r := ReceiverWaits;
    }

    /** rt_event_control with RT_IPC_CMD_RESET. */
    method Reset()
      modifies this
      ensures Abs() == old(Abs()).(flags := 0, waiters := [])
    {
      suspendThread, flags := [], 0;
    }

    method Timeout(tid: nat)
      modifies this`suspendThread
      ensures Abs() == old(Abs()).(waiters := Without(old(suspendThread), tid))
    {
      suspendThread := Without(suspendThread, tid);
    }
  }

  lemma SentFlags(flags: Flags, set_: Flags, cleared: Flags)
    ensures Without_(Either(flags, set_), cleared) == (flags | set_) & !cleared
  {
  }

  lemma OnBits(a: Flags, b: Flags)
    ensures Both(a, b) == a & b && Without_(a, b) == a & !b
  {
  }

  /** What waiting for all and for any means on the bits. */
  lemma MetOnBits(w: Want, flags: Flags)
    ensures Satisfied(w, flags) <==>
              match w.mode case And => flags & w.set_ == w.set_ case Or => flags & w.set_ != 0
    ensures Both(flags, w.set_) == flags & w.set_ && Without_(flags, w.set_) == flags & !w.set_
  {
    OnBits(flags, w.set_);
    hide Both, Without_;
  }

  /** The flags that woken threads took with them. */
  function Cleared(woken: seq<Woken>): Flags {
    if woken == [] then 0
    else if woken[0].clear then Either(woken[0].received, Cleared(woken[1..]))
    else Cleared(woken[1..])
  }

  lemma ClearedCons(x: Woken, rest: seq<Woken>)
    ensures Cleared([x] + rest) == if x.clear then Either(x.received, Cleared(rest)) else Cleared(rest)
  {
    hide Either;
    assert ([x] + rest)[1..] == rest;
  }

  /** A pass leaves the flags that nobody took. */
  lemma {:induction false} ScanAccounts(flags: Flags, list: seq<Waiter>, want: map<nat, Want>)
    ensures var p := Scan(flags, list, want);
            p.flags == Without_(flags, Cleared(p.woken)) && |p.woken| + |p.left| == |list|
    decreases list
  {
    hide Satisfied, Received_, Without_, Either, Cleared;
    if list == [] {
      NoneWoken();
      NothingCleared(flags);
    } else {
      var w := WantOf(want, list[0].tid);
      var got := Received_(w, flags);
      var now := if Satisfied(w, flags) && w.clear then Without_(flags, got) else flags;
      ScanAccounts(now, list[1..], want);
      var rest := Scan(now, list[1..], want);
      if Satisfied(w, flags) {
        ClearedCons(Woken(list[0].tid, got, w.clear), rest.woken);
        ClearedFurther(flags, got, Cleared(rest.woken));
      }
    }
  }

  lemma NoneWoken()
    ensures Cleared([]) == 0
  {
  }

  /** Everybody on the list is left waiting or woken. */
  lemma {:induction false} ScanSplits(flags: Flags, list: seq<Waiter>, want: map<nat, Want>)
    ensures var p := Scan(flags, list, want);
            forall w :: w in list ==> w in p.left || WokenThread(p.woken, w.tid)
    decreases list
  {
    hide Satisfied, Received_, Without_, WokenThread;
    if list != [] {
      var w := WantOf(want, list[0].tid);
      assert list == [list[0]] + list[1..];
      var got := Received_(w, flags);
      var now := if Satisfied(w, flags) && w.clear then Without_(flags, got) else flags;
      ScanSplits(now, list[1..], want);
      if Satisfied(w, flags) {
        WokenCons(Woken(list[0].tid, got, w.clear), Scan(now, list[1..], want).woken);
      }
    }
  }

  ghost predicate WokenThread(woken: seq<Woken>, tid: nat) {
    exists k :: 0 <= k < |woken| && woken[k].tid == tid
  }

  lemma WokenCons(x: Woken, rest: seq<Woken>)
    ensures forall t :: WokenThread([x] + rest, t) <==> t == x.tid || WokenThread(rest, t)
  {
    forall t
      ensures WokenThread([x] + rest, t) <==> t == x.tid || WokenThread(rest, t)
    {
      var all := [x] + rest;
      if WokenThread(rest, t) {
        var k :| 0 <= k < |rest| && rest[k].tid == t;
        assert all[k + 1].tid == t;
      }
      if t == x.tid {
        assert all[0].tid == t;
      }
      if WokenThread(all, t) && t != x.tid {
        var k :| 0 <= k < |all| && all[k].tid == t;
        assert rest[k - 1].tid == t;
      }
    }
  }

  lemma NothingCleared(flags: Flags)
    ensures Without_(flags, 0) == flags
  {
  }

  lemma ClearedFurther(flags: Flags, got: Flags, more: Flags)
    ensures Without_(Without_(flags, got), more) == Without_(flags, Either(got, more))
  {
  }

  ghost function Joined(woken: seq<Woken>, left: seq<Waiter>, p: Pass): Pass {
    Pass(p.flags, left + p.left, woken + p.woken)
  }

  lemma JoinWoken(woken: seq<Woken>, left: seq<Waiter>, w: Woken, p: Pass)
    ensures Joined(woken, left, p.(woken := [w] + p.woken)) == Joined(woken + [w], left, p)
  {
    assert woken + ([w] + p.woken) == (woken + [w]) + p.woken;
  }

  lemma JoinLeft(woken: seq<Woken>, left: seq<Waiter>, w: Waiter, p: Pass)
    ensures Joined(woken, left, p.(left := [w] + p.left)) == Joined(woken, left + [w], p)
  {
    assert left + ([w] + p.left) == (left + [w]) + p.left;
  }

  // ---------------------------------------------------------------------------------
  // What a pass does
  // ---------------------------------------------------------------------------------

  /** a has no flag that b lacks. */
  ghost predicate Fewer(a: Flags, b: Flags) {
    Both(a, b) == a
  }

  lemma FewerUnsatisfied(w: Want, a: Flags, b: Flags)
    requires Fewer(a, b) && !Satisfied(w, b) && w.set_ != 0
    ensures !Satisfied(w, a)
  {
    hide Both, Fewer;
    if Satisfied(w, a) {
      match w.mode
      case And => AndMonotone(w.set_, a, b);
      case Or => OrMonotone(w.set_, a, b);
    }
  }

  lemma AndMonotone(s: Flags, a: Flags, b: Flags)
    requires Fewer(a, b) && Both(a, s) == s
    ensures Both(b, s) == s
  {
  }

  lemma OrMonotone(s: Flags, a: Flags, b: Flags)
    requires Fewer(a, b) && Both(a, s) != 0
    ensures Both(b, s) != 0
  {
  }

  lemma ClearingIsFewer(a: Flags, b: Flags)
    ensures Fewer(Without_(a, b), a) && Both(Without_(a, b), b) == 0
  {
  }

  lemma FewerItself(a: Flags)
    ensures Fewer(a, a)
  {
  }

  lemma FewerTransitive(a: Flags, b: Flags, c: Flags)
    requires Fewer(a, b) && Fewer(b, c)
    ensures Fewer(a, c)
  {
  }

  lemma FewerDisjoint(a: Flags, b: Flags, c: Flags)
    requires Fewer(a, b) && Both(b, c) == 0
    ensures Both(c, a) == 0 && Both(a, c) == 0
  {
  }

  lemma ReceivedIsSet(w: Want, flags: Flags)
    requires Satisfied(w, flags)
    ensures Fewer(Received_(w, flags), flags) && Fewer(Received_(w, flags), w.set_)
  {
  }

  ghost predicate AllWaitForSomething(list: seq<Waiter>, want: map<nat, Want>) {
    forall w :: w in list ==> WantOf(want, w.tid).set_ != 0
  }

  /** Nobody on the list is satisfied by the flags. */
  ghost predicate NoneSatisfied(list: seq<Waiter>, want: map<nat, Want>, flags: Flags) {
    forall w :: w in list ==> !Satisfied(WantOf(want, w.tid), flags)
  }

  /** Woken threads received only flags that were set; what one of them cleared went to no
      later one and is not left over. */
  ghost predicate Exclusive(flags: Flags, p: Pass) {
    && (forall i :: 0 <= i < |p.woken| ==> Fewer(p.woken[i].received, flags))
    && (forall i, j :: 0 <= i < j < |p.woken| && p.woken[i].clear ==>
            Both(p.woken[i].received, p.woken[j].received) == 0)
    && (forall i :: 0 <= i < |p.woken| && p.woken[i].clear ==> Both(p.flags, p.woken[i].received) == 0)
  }

  lemma {:induction false} ScanOnlyClears(flags: Flags, list: seq<Waiter>, want: map<nat, Want>)
    ensures Fewer(Scan(flags, list, want).flags, flags)
    decreases list
  {
    hide Satisfied, Received_, Both, Without_, Fewer;
    FewerItself(flags);
    if list != [] {
      var w := WantOf(want, list[0].tid);
      if Satisfied(w, flags) && w.clear {
        var kept := Without_(flags, Received_(w, flags));
        ClearingIsFewer(flags, Received_(w, flags));
        ScanOnlyClears(kept, list[1..], want);
        FewerTransitive(Scan(kept, list[1..], want).flags, kept, flags);
      } else {
        ScanOnlyClears(flags, list[1..], want);
      }
    }
  }

  lemma StillUnsatisfied(list: seq<Waiter>, want: map<nat, Want>, a: Flags, b: Flags)
    requires AllWaitForSomething(list, want) && NoneSatisfied(list, want, b) && Fewer(a, b)
    ensures NoneSatisfied(list, want, a)
  {
    hide Satisfied, Fewer;
    forall w | w in list
      ensures !Satisfied(WantOf(want, w.tid), a)
    {
      FewerUnsatisfied(WantOf(want, w.tid), a, b);
    }
  }

  /** Whoever is left waiting is not satisfied by the flags that are left. */
  lemma {:induction false} ScanLeavesUnsatisfied(flags: Flags, list: seq<Waiter>, want: map<nat, Want>)
    requires AllWaitForSomething(list, want)
    ensures NoneSatisfied(Scan(flags, list, want).left, want, Scan(flags, list, want).flags)
    decreases list
  {
    hide Satisfied, Received_, Both, Without_, Fewer;
    if list != [] {
      assert list == [list[0]] + list[1..] && list[0] in list;
      var w := WantOf(want, list[0].tid);
      if Satisfied(w, flags) {
        if w.clear {
          ScanLeavesUnsatisfied(Without_(flags, Received_(w, flags)), list[1..], want);
        } else {
          ScanLeavesUnsatisfied(flags, list[1..], want);
        }
      } else {
        ScanLeavesUnsatisfied(flags, list[1..], want);
        ScanOnlyClears(flags, list[1..], want);
        FewerUnsatisfied(w, Scan(flags, list[1..], want).flags, flags);
      }
    }
  }

  /** One thread in front of a fair rest. */
  lemma ExclusiveCons(flags: Flags, got: Flags, tid: nat, clear: bool, kept: Flags, rest: Pass)
    requires Fewer(got, flags) && Fewer(kept, flags) && Exclusive(kept, rest) && Fewer(rest.flags, kept)
    requires clear ==> Both(kept, got) == 0
    ensures Exclusive(flags, rest.(woken := [Woken(tid, got, clear)] + rest.woken))
  {
    hide Fewer, Both;
    forall i | 0 <= i < |rest.woken|
      ensures Fewer(rest.woken[i].received, flags)
      ensures clear ==> Both(got, rest.woken[i].received) == 0
    {
      FewerTransitive(rest.woken[i].received, kept, flags);
      if clear {
        FewerDisjoint(rest.woken[i].received, kept, got);
      }
    }
    if clear {
      FewerDisjoint(rest.flags, kept, got);
    }
  }

  /** A flag that a woken thread has cleared reaches no later thread of the same pass. */
  lemma {:induction false} ScanIsExclusive(flags: Flags, list: seq<Waiter>, want: map<nat, Want>)
    ensures Exclusive(flags, Scan(flags, list, want))
    decreases list
  {
    hide Satisfied, Received_, Both, Without_, Fewer, Exclusive;
    if list == [] {
      NobodyWoken(flags);
      return;
    }
    var w := WantOf(want, list[0].tid);
    if Satisfied(w, flags) {
      var got := Received_(w, flags);
      ReceivedIsSet(w, flags);
      if w.clear {
        var kept := Without_(flags, got);
        ClearingIsFewer(flags, got);
        ScanIsExclusive(kept, list[1..], want);
        ScanOnlyClears(kept, list[1..], want);
        ExclusiveCons(flags, got, list[0].tid, true, kept, Scan(kept, list[1..], want));
      } else {
        FewerItself(flags);
        ScanIsExclusive(flags, list[1..], want);
        ScanOnlyClears(flags, list[1..], want);
        ExclusiveCons(flags, got, list[0].tid, false, flags, Scan(flags, list[1..], want));
      }
    } else {
      var rest := Scan(flags, list[1..], want);
      ScanIsExclusive(flags, list[1..], want);
      SameWoken(flags, rest, rest.(left := [list[0]] + rest.left));
    }
  }

  lemma NobodyWoken(flags: Flags)
    ensures Exclusive(flags, Pass(flags, [], []))
  {
  }

  lemma SameWoken(flags: Flags, p: Pass, q: Pass)
    requires Exclusive(flags, p) && q.woken == p.woken && q.flags == p.flags
    ensures Exclusive(flags, q)
  {
  }

  ghost predicate Deserved(k: Woken, w: Want) {
    k.clear == w.clear && k.received != 0 && Fewer(k.received, w.set_) && (w.mode == And ==> k.received == w.set_)
  }

  /** Every woken thread was waiting, and its condition held when it was chosen: it received
      something, and all it wanted if it wanted all. */
  lemma {:induction false} ScanWakesSatisfied(flags: Flags, list: seq<Waiter>, want: map<nat, Want>, i: nat)
    requires AllWaitForSomething(list, want) && i < |Scan(flags, list, want).woken|
    ensures var k := Scan(flags, list, want).woken[i];
            k.tid in Tids(list) && Deserved(k, WantOf(want, k.tid))
    decreases list
  {
    hide Satisfied, Received_, Both, Without_, Fewer, Tids, Deserved;
    assert list == [list[0]] + list[1..] && list[0] in list;
    DistinctCons(list[0], list[1..]);
    var w := WantOf(want, list[0].tid);
    if Satisfied(w, flags) {
      if i == 0 {
        ReceivedIsDeserved(list[0].tid, w, flags);
      } else if w.clear {
        ScanWakesSatisfied(Without_(flags, Received_(w, flags)), list[1..], want, i - 1);
      } else {
        ScanWakesSatisfied(flags, list[1..], want, i - 1);
      }
    } else {
      ScanWakesSatisfied(flags, list[1..], want, i);
    }
  }

  lemma ReceivedIsDeserved(tid: nat, w: Want, flags: Flags)
    requires Satisfied(w, flags) && w.set_ != 0
    ensures Deserved(Woken(tid, Received_(w, flags), w.clear), w)
  {
    ReceivedIsSet(w, flags);
    hide Fewer;
  }

  lemma {:induction false} ScanKeepsOrder(flags: Flags, list: seq<Waiter>, want: map<nat, Want>)
    requires Distinct(list)
    ensures Distinct(Scan(flags, list, want).left) && Tids(Scan(flags, list, want).left) <= Tids(list)
    ensures forall w :: w in Scan(flags, list, want).left ==> w in list
    ensures InOrder(Scan(flags, list, want).left, list)
    decreases list
  {
    hide Satisfied, Received_, Both, Without_, Distinct, Tids, InOrder;
    if list != [] {
      assert list == [list[0]] + list[1..];
      DistinctCons(list[0], list[1..]);
      var w := WantOf(want, list[0].tid);
      var now := if Satisfied(w, flags) && w.clear then Without_(flags, Received_(w, flags)) else flags;
      ScanKeepsOrder(now, list[1..], want);
      InOrderTail(Scan(now, list[1..], want).left, list);
      if !Satisfied(w, flags) {
        DistinctCons(list[0], Scan(flags, list[1..], want).left);
      }
    } else {
      InOrderNone(list);
    }
  }

  // ---------------------------------------------------------------------------------
  // Runs
  // ---------------------------------------------------------------------------------

  datatype Step =
    | Send(set_: Flags)
    | Recv(tid: nat, prio: nat, want: Want, timeout: int)
    | Expire(tid: nat)
    | Reset

  ghost predicate Inv(e: Evt) {
    && Distinct(e.waiters)
    && AllWaitForSomething(e.waiters, e.want)
    && NoneSatisfied(e.waiters, e.want, e.flags)
  }

  ghost function Next(e: Evt, s: Step): Evt {
    match s
    case Send(set_) => if set_ == 0 then e else SendSpec(e, set_).0
    case Recv(t, prio, want, timeout) =>
      if t in Tids(e.waiters) then e else RecvSpec(e, Waiter(t, prio), want, timeout).0
    case Expire(t) => e.(waiters := Without(e.waiters, t))
    case Reset => e.(flags := 0, waiters := [])
  }

  lemma SendKeeps(e: Evt, set_: Flags)
    requires Inv(e)
    ensures Inv(SendSpec(e, set_).0)
  {
    hide Satisfied, Both, Either, Fewer, Distinct, NoneSatisfied;
    ScanLeavesUnsatisfied(Either(e.flags, set_), e.waiters, e.want);
    ScanKeepsOrder(Either(e.flags, set_), e.waiters, e.want);
  }

  lemma RecvKeeps(e: Evt, t: nat, prio: nat, want: Want, timeout: int)
    requires Inv(e) && t !in Tids(e.waiters)
    ensures Inv(RecvSpec(e, Waiter(t, prio), want, timeout).0)
  {
    hide Satisfied, Both, Without_, Distinct, Tids, Fewer, AllWaitForSomething, NoneSatisfied, Insert;
    if want.set_ == 0 {
    } else if Satisfied(want, e.flags) {
      ClearingIsFewer(e.flags, want.set_);
      StillUnsatisfied(e.waiters, e.want, Without_(e.flags, want.set_), e.flags);
    } else {
      InsertDistinct(e.waiters, Waiter(t, prio), e.order);
      SleeperJoins(e, t, prio, want);
    }
  }

  lemma SleeperJoins(e: Evt, t: nat, prio: nat, want: Want)
    requires AllWaitForSomething(e.waiters, e.want)
    requires NoneSatisfied(e.waiters, e.want, e.flags) && t !in Tids(e.waiters)
    requires want.set_ != 0 && !Satisfied(want, e.flags)
    ensures AllWaitForSomething(Insert(e.waiters, Waiter(t, prio), e.order), e.want[t := want])
    ensures NoneSatisfied(Insert(e.waiters, Waiter(t, prio), e.order), e.want[t := want], e.flags)
  {
    hide Satisfied, Tids;
    InsertMembers(e.waiters, Waiter(t, prio));
    forall w | w in e.waiters
      ensures w.tid != t
    {
      MemberTid(e.waiters, w);
    }
  }

  lemma MemberTid(list: seq<Waiter>, w: Waiter)
    requires w in list
    ensures w.tid in Tids(list)
  {
  }

  lemma NextKeeps(e: Evt, s: Step)
    requires Inv(e)
    ensures Inv(Next(e, s))
  {
    hide SendSpec, RecvSpec, Satisfied, Distinct, Tids, Without;
    match s
    case Send(set_) => SendKeeps(e, set_);
    case Recv(t, prio, want, timeout) =>
      if t !in Tids(e.waiters) {
        RecvKeeps(e, t, prio, want, timeout);
      }
    case Expire(t) => WithoutRemoves(e.waiters, t);
    case Reset => NoWaiters();
  }

  lemma NoWaiters()
    ensures Distinct([])
  {
  }

  ghost function Run(order: Order, steps: seq<Step>): (e: Evt)
    ensures Inv(e)
    decreases |steps|
  {
    if steps == [] then Evt(0, order, [], map[])
    else
      var before := Run(order, steps[..|steps| - 1]);
      NextKeeps(before, steps[|steps| - 1]);
      Next(before, steps[|steps| - 1])
  }

  /** On every run no thread is asleep whose condition the current flags meet. */
  lemma NobodySleepsSatisfied(order: Order, steps: seq<Step>, i: nat)
    requires i < |Run(order, steps).waiters|
    ensures var e := Run(order, steps);
            var w := WantOf(e.want, e.waiters[i].tid);
            w.set_ != 0 && !Satisfied(w, e.flags)
  {
    hide Run, Distinct, Satisfied;
    var e := Run(order, steps);
    assert e.waiters[i] in e.waiters;
  }
}
