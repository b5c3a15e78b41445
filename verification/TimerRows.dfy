/** What rt-thread/src/timer.c keeps in its rows: sequences of timers ordered by when they are
    due, each row a selection of the row below, and the 32-bit comparisons that stand in for
    comparing true deadlines. */
module TimerRows {

  type Id = nat

  const TICK_SPAN: int := 0x1_0000_0000
  const HALF: int := 0x7FFFFFFF  // RT_TICK_MAX / 2

  function Wrap(n: int): (r: nat)
    ensures r < TICK_SPAN
  {
    n % TICK_SPAN
  }

  /** The insertion test: t->timeout_tick - timer->timeout_tick is neither 0 nor at least half the range. */
  predicate ComesLater(t: nat, timer: nat) {
    Wrap(t - timer) != 0 && Wrap(t - timer) < HALF
  }

  /** The expiry test. */
  predicate IsDue(current: nat, timeout: nat) {
    Wrap(current - timeout) < HALF
  }

  /** Exactly when the wrapped insertion test agrees with the true deadlines. */
  lemma InsertionTestExact(a: int, b: int)
    requires -TICK_SPAN < a - b < TICK_SPAN
    ensures (ComesLater(Wrap(a), Wrap(b)) <==> a > b) <==> HALF - TICK_SPAN <= a - b < HALF
  {
    WrapDifference(a, b);
    if a >= b {
      WrapSmall(a - b);
    } else {
      WrapSmall(a - b + TICK_SPAN);
      WrapPeriodic(a - b);
    }
  }

  /** Exactly when the wrapped expiry test agrees with the true clock. */
  lemma ExpiryTestExact(now: int, deadline: int)
    requires -TICK_SPAN < now - deadline < TICK_SPAN
    ensures (IsDue(Wrap(now), Wrap(deadline)) <==> now >= deadline) <==> HALF - TICK_SPAN <= now - deadline < HALF
  {
    WrapDifference(now, deadline);
    if now >= deadline {
      WrapSmall(now - deadline);
    } else {
      WrapSmall(now - deadline + TICK_SPAN);
      WrapPeriodic(now - deadline);
    }
  }

  lemma WrapSmall(n: int)
    requires 0 <= n < TICK_SPAN
    ensures Wrap(n) == n
  {
  }

  lemma WrapPeriodic(n: int)
    ensures Wrap(n + TICK_SPAN) == Wrap(n)
  {
  }

  lemma WrapDifference(a: int, b: int)
    ensures Wrap(Wrap(a) - Wrap(b)) == Wrap(a - b)
  {
    var i, j := a / TICK_SPAN, b / TICK_SPAN;
    assert a == i * TICK_SPAN + Wrap(a) && b == j * TICK_SPAN + Wrap(b);
    assert a - b == (i - j) * TICK_SPAN + (Wrap(a) - Wrap(b));
  }

  // ---------------------------------------------------------------------------------
  // Rows
  // ---------------------------------------------------------------------------------

  ghost predicate NoDup(row: seq<Id>) {
    forall i, j :: 0 <= i < j < |row| ==> row[i] != row[j]
  }

  ghost predicate Known(row: seq<Id>, due: map<Id, int>) {
    forall t :: t in row ==> t in due
  }

  ghost predicate Ordered(row: seq<Id>, due: map<Id, int>) {
    Known(row, due) && forall i, j :: 0 <= i < j < |row| ==>
        row[i] in due && row[j] in due && due[row[i]] <= due[row[j]]
  }

  ghost predicate RowOk(row: seq<Id>, due: map<Id, int>) {
    NoDup(row) && Ordered(row, due)
  }

  /** Position k separates what is due no later than d from what is due after. */
  ghost predicate Splits(row: seq<Id>, due: map<Id, int>, d: int, k: nat) {
    && k <= |row| && Known(row, due)
    && (forall i :: 0 <= i < k ==> row[i] in due && due[row[i]] <= d)
    && (forall i :: k <= i < |row| ==> row[i] in due && due[row[i]] > d)
    && (k < |row| ==> due[row[k]] > d)
  }

  lemma SplitPointUnique(row: seq<Id>, due: map<Id, int>, d: int, j: nat, k: nat)
    requires Splits(row, due, d, j) && Splits(row, due, d, k)
    ensures j == k
  {
  }

  function InsertAt(row: seq<Id>, k: nat, t: Id): seq<Id>
    requires k <= |row|
  {
    row[..k] + [t] + row[k..]
  }

  /** The plain list: skip everything due no later than d, insert there. */
  ghost function LinearInsert(row: seq<Id>, due: map<Id, int>, d: int, t: Id): seq<Id> {
    if row == [] then [t]
    else if row[0] in due && due[row[0]] > d then [t] + row
    else [row[0]] + LinearInsert(row[1..], due, d, t)
  }

  lemma {:induction false} SplitIsLinear(row: seq<Id>, due: map<Id, int>, d: int, k: nat, t: Id)
    requires Splits(row, due, d, k)
    ensures InsertAt(row, k, t) == LinearInsert(row, due, d, t)
  {
    if row != [] && k > 0 {
      assert Splits(row[1..], due, d, k - 1);
      SplitIsLinear(row[1..], due, d, k - 1, t);
      assert InsertAt(row, k, t) == [row[0]] + InsertAt(row[1..], k - 1, t);
    }
  }

  function Removed(row: seq<Id>, t: Id): seq<Id> {
    if row == [] then []
    else if row[0] == t then Removed(row[1..], t)
    else [row[0]] + Removed(row[1..], t)
  }

  /** The timers of a row that are in `keep`, in order. */
  ghost function Chosen(row: seq<Id>, keep: set<Id>): seq<Id> {
    if row == [] then []
    else (if row[0] in keep then [row[0]] else []) + Chosen(row[1..], keep)
  }

  ghost function Members(row: seq<Id>): (r: set<Id>)
    ensures forall t :: t in r <==> t in row
  {
    set t | t in row
  }

  /** upper is a subsequence of lower. */
  ghost predicate Selection(upper: seq<Id>, lower: seq<Id>) {
    upper == Chosen(lower, Members(upper))
  }

  lemma {:induction false} RemovedMembers(row: seq<Id>, t: Id)
    ensures forall x :: x in Removed(row, t) <==> x in row && x != t
    ensures t !in row ==> Removed(row, t) == row
    ensures |Removed(row, t)| <= |row|
  {
    if row != [] {
      assert row == [row[0]] + row[1..];
      RemovedMembers(row[1..], t);
    }
  }

  lemma {:induction false} RemovedRow(row: seq<Id>, due: map<Id, int>, t: Id)
    requires RowOk(row, due)
    ensures RowOk(Removed(row, t), due)
  {
    RemovedMembers(row, t);
    if row != [] {
      assert row == [row[0]] + row[1..];
      assert RowOk(row[1..], due);
      RemovedRow(row[1..], due, t);
      RemovedMembers(row[1..], t);
      if row[0] != t {
        RowCons(row[0], row[1..], Removed(row[1..], t), due);
      }
    }
  }

  lemma RowCons(x: Id, rest: seq<Id>, less: seq<Id>, due: map<Id, int>)
    requires RowOk([x] + rest, due) && RowOk(less, due) && forall y :: y in less ==> y in rest
    ensures RowOk([x] + less, due)
  {
    var row := [x] + rest;
    assert x in row;
    forall y | y in less
      ensures y != x && y in due && due[x] <= due[y]
    {
      var j :| 0 <= j < |rest| && rest[j] == y;
      assert row[j + 1] == y && row[0] == x;
    }
  }

  lemma {:induction false} ChosenMembers(row: seq<Id>, keep: set<Id>)
    ensures forall x :: x in Chosen(row, keep) <==> x in row && x in keep
  {
    if row != [] {
      assert row == [row[0]] + row[1..];
      ChosenMembers(row[1..], keep);
    }
  }

  lemma {:induction false} ChosenAppend(a: seq<Id>, b: seq<Id>, keep: set<Id>)
    ensures Chosen(a + b, keep) == Chosen(a, keep) + Chosen(b, keep)
  {
    if a == [] {
      assert a + b == b;
    } else {
      assert (a + b)[1..] == a[1..] + b && (a + b)[0] == a[0];
      ChosenAppend(a[1..], b, keep);
      var first := if a[0] in keep then [a[0]] else [];
      assert first + (Chosen(a[1..], keep) + Chosen(b, keep)) == (first + Chosen(a[1..], keep)) + Chosen(b, keep);
    }
  }

  lemma {:induction false} ChosenSame(row: seq<Id>, keep: set<Id>, also: set<Id>)
    requires forall x :: x in row ==> (x in keep <==> x in also)
    ensures Chosen(row, keep) == Chosen(row, also)
  {
    if row != [] {
      assert row == [row[0]] + row[1..];
      ChosenSame(row[1..], keep, also);
    }
  }

  lemma {:induction false} ChosenRemoved(row: seq<Id>, keep: set<Id>, t: Id)
    ensures Chosen(Removed(row, t), keep - {t}) == Removed(Chosen(row, keep), t)
  {
    if row != [] {
      ChosenRemoved(row[1..], keep, t);
      var rest := Chosen(row[1..], keep);
      if row[0] != t {
        assert ([row[0]] + Removed(row[1..], t))[1..] == Removed(row[1..], t);
        if row[0] in keep {
          assert ([row[0]] + rest)[1..] == rest;
        } else {
          assert [] + rest == rest;
        }
      } else {
        if row[0] in keep {
          assert ([row[0]] + rest)[1..] == rest;
        } else {
          assert [] + rest == rest;
        }
      }
    }
  }

  /** Taking a timer out of both rows keeps the upper one a selection of the lower. */
  lemma RemovedSelection(upper: seq<Id>, lower: seq<Id>, t: Id)
    requires Selection(upper, lower)
    ensures Selection(Removed(upper, t), Removed(lower, t))
  {
    ChosenRemoved(lower, Members(upper), t);
    RemovedMembers(upper, t);
    assert Members(Removed(upper, t)) == Members(upper) - {t};
  }

  lemma ChosenOfInsert(lower: seq<Id>, k: nat, t: Id, keep: set<Id>)
    requires k <= |lower|
    ensures Chosen(InsertAt(lower, k, t), keep)
            == Chosen(lower[..k], keep) + (if t in keep then [t] else []) + Chosen(lower[k..], keep)
    ensures Chosen(lower, keep) == Chosen(lower[..k], keep) + Chosen(lower[k..], keep)
  {
    assert lower == lower[..k] + lower[k..];
    ChosenAppend(lower[..k], lower[k..], keep);
    ChosenAppend(lower[..k], [t], keep);
    ChosenAppend(lower[..k] + [t], lower[k..], keep);
    assert Chosen([t], keep) == if t in keep then [t] else [];
  }

  /** Inserting at the split of both rows keeps the upper one a selection of the lower. */
  lemma InsertedSelection(upper: seq<Id>, lower: seq<Id>, due: map<Id, int>, d: int, j: nat, k: nat, t: Id)
    requires Selection(upper, lower) && t !in lower && Splits(upper, due, d, j) && Splits(lower, due, d, k)
    ensures Selection(InsertAt(upper, j, t), InsertAt(lower, k, t))
    ensures Selection(upper, InsertAt(lower, k, t))
  {
    hide Chosen, Splits;
    var keep := Members(upper);
    var wide := keep + {t};
    ChosenMembers(lower, keep);
    assert t !in keep;
    InsertMembers(upper, j, t) by {
      SplitWithin(upper, due, d, j);
    }
    SplitWithin(lower, due, d, k);
    ChosenOfInsert(lower, k, t, keep);
    ChosenOfInsert(lower, k, t, wide);
    SplitPartsChosen(lower, due, d, k, keep, j);
    assert lower[..k] + lower[k..] == lower;
    ChosenSame(lower[..k], keep, wide);
    ChosenSame(lower[k..], keep, wide);
  }

  lemma SplitWithin(row: seq<Id>, due: map<Id, int>, d: int, k: nat)
    requires Splits(row, due, d, k)
    ensures k <= |row|
  {
  }

  lemma InsertMembers(row: seq<Id>, k: nat, t: Id)
    requires k <= |row|
    ensures Members(InsertAt(row, k, t)) == Members(row) + {t}
  {
    assert row == row[..k] + row[k..];
  }

  /** The split of a selection is the selection of the split. */
  lemma SplitPartsChosen(lower: seq<Id>, due: map<Id, int>, d: int, k: nat, keep: set<Id>, j: nat)
    requires Splits(lower, due, d, k) && Splits(Chosen(lower, keep), due, d, j)
    ensures Chosen(lower, keep)[..j] == Chosen(lower[..k], keep) && Chosen(lower, keep)[j..] == Chosen(lower[k..], keep)
  {
    hide Chosen;
    assert lower == lower[..k] + lower[k..];
    ChosenAppend(lower[..k], lower[k..], keep);
    ChosenMembers(lower[..k], keep);
    ChosenMembers(lower[k..], keep);
    SplitUnique(Chosen(lower[..k], keep), Chosen(lower[k..], keep), due, d, j);
  }

  lemma SplitUnique(a: seq<Id>, b: seq<Id>, due: map<Id, int>, d: int, j: nat)
    requires Splits(a + b, due, d, j)
    requires forall x :: x in a ==> x in due && due[x] <= d
    requires forall x :: x in b ==> x in due && due[x] > d
    ensures j == |a| && (a + b)[..j] == a && (a + b)[j..] == b
  {
    var row := a + b;
    forall i | 0 <= i < |row|
      ensures row[i] in due && (i < |a| <==> due[row[i]] <= d)
    {
      if i < |a| {
        assert a[i] in a;
      } else {
        assert b[i - |a|] in b;
      }
    }
    SplitPointUnique(row, due, d, j, |a|);
  }

  lemma InsertedHas(row: seq<Id>, k: nat, t: Id)
    requires k <= |row|
    ensures forall x :: x in InsertAt(row, k, t) <==> x == t || x in row
  {
    assert row == row[..k] + row[k..];
  }

  lemma InsertedRow(row: seq<Id>, due: map<Id, int>, d: int, k: nat, t: Id)
    requires RowOk(row, due) && t !in row && Splits(row, due, d, k) && t in due && due[t] == d
    ensures RowOk(InsertAt(row, k, t), due)
  {
    var all := InsertAt(row, k, t);
    InsertedHas(row, k, t);
    forall i, j | 0 <= i < j < |all|
      ensures all[i] != all[j] && all[i] in due && all[j] in due && due[all[i]] <= due[all[j]]
    {
      InsertedAt(row, k, t, i);
      InsertedAt(row, k, t, j);
    }
  }

  lemma InsertedAt(row: seq<Id>, k: nat, t: Id, i: nat)
    requires k <= |row| && i <= |row|
    ensures i < k ==> InsertAt(row, k, t)[i] == row[i] && row[i] in row
    ensures i == k ==> InsertAt(row, k, t)[i] == t
    ensures i > k ==> InsertAt(row, k, t)[i] == row[i - 1] && row[i - 1] in row
  {
  }
}
