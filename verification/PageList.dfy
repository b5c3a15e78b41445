/** The page allocator of rt-thread/src/slab.c: a list of runs of free pages, in address order,
    linked through the first page of each run. */
module PageList {

  datatype Option<+T> = None | Some(value: T)

  /** A run of free pages. */
  datatype Run = Run(start: nat, count: nat)

  /** Ascending, never empty, never touching: between two runs there is a page in use. */
  ghost predicate WellFormed(runs: seq<Run>) {
    runs == [] ||
    (runs[0].count > 0 && (runs[1..] == [] || runs[0].start + runs[0].count < runs[1].start) && WellFormed(runs[1..]))
  }

  ghost predicate Holds(runs: seq<Run>, p: nat) {
    runs != [] && (runs[0].start <= p < runs[0].start + runs[0].count || Holds(runs[1..], p))
  }

  function Total(runs: seq<Run>): nat {
    if runs == [] then 0 else runs[0].count + Total(runs[1..])
  }

  // ---------------------------------------------------------------------------------
  // Operations
  // ---------------------------------------------------------------------------------

  /** rt_page_alloc: the first run that is large enough gives up its first pages. */
  function Alloc(runs: seq<Run>, n: nat): (seq<Run>, Option<nat>) {
    if n == 0 || runs == [] then (runs, None)
    else if runs[0].count > n then ([Run(runs[0].start + n, runs[0].count - n)] + runs[1..], Some(runs[0].start))
    else if runs[0].count == n then (runs[1..], Some(runs[0].start))
    else
      var r := Alloc(runs[1..], n);
      ([runs[0]] + r.0, r.1)
  }

  /** rt_page_free. */
  function Free(runs: seq<Run>, start: nat, n: nat): seq<Run> {
    if runs == [] then [Run(start, n)]
    else if runs[0].start + runs[0].count == start then
      if runs[1..] != [] && start + n == runs[1].start then
        [Run(runs[0].start, runs[0].count + n + runs[1].count)] + runs[2..]
      else
        [Run(runs[0].start, runs[0].count + n)] + runs[1..]
    else if runs[0].start == start + n then [Run(start, n + runs[0].count)] + runs[1..]
    else if runs[0].start > start + n then [Run(start, n)] + runs
    else [runs[0]] + Free(runs[1..], start, n)
  }

  // ---------------------------------------------------------------------------------
  // The list stands for a set of pages, and only one list stands for that set
  // ---------------------------------------------------------------------------------

  lemma {:induction false} HoldsFrom(runs: seq<Run>, p: nat)
    requires WellFormed(runs) && Holds(runs, p)
    ensures runs[0].start <= p
  {
    if Holds(runs[1..], p) {
      HoldsFrom(runs[1..], p);
    }
  }

  lemma FirstPage(runs: seq<Run>)
    requires WellFormed(runs) && runs != []
    ensures Holds(runs, runs[0].start)
  {
  }

  /** The page behind the first run is in use. */
  lemma GapAfter(runs: seq<Run>)
    requires WellFormed(runs) && runs != []
    ensures !Holds(runs, runs[0].start + runs[0].count)
  {
    if Holds(runs[1..], runs[0].start + runs[0].count) {
      HoldsFrom(runs[1..], runs[0].start + runs[0].count);
    }
  }

  /** Main result: the list is canonical. However the pages came back, the same free pages give
      the same list. */
  lemma {:induction false} Canonical(a: seq<Run>, b: seq<Run>)
    requires WellFormed(a) && WellFormed(b) && forall p: nat :: Holds(a, p) <==> Holds(b, p)
    ensures a == b
    decreases |a|
  {
    if a != [] {
      FirstPage(a);
    }
    if b != [] {
      FirstPage(b);
    }
    if a != [] && b != [] {
      HoldsFrom(a, b[0].start);
      HoldsFrom(b, a[0].start);
      SameFirst(a, b);
      forall p: nat
        ensures Holds(a[1..], p) <==> Holds(b[1..], p)
      {
        RestHolds(a, p);
        RestHolds(b, p);
      }
      Canonical(a[1..], b[1..]);
      assert a == [a[0]] + a[1..] && b == [b[0]] + b[1..];
    }
  }

  lemma SameFirst(a: seq<Run>, b: seq<Run>)
    requires WellFormed(a) && WellFormed(b) && a != [] && b != [] && a[0].start == b[0].start
    requires forall p: nat :: Holds(a, p) <==> Holds(b, p)
    ensures a[0] == b[0]
  {
    GapAfter(a);
    GapAfter(b);
    assert Holds(a, b[0].start + b[0].count) <==> Holds(b, b[0].start + b[0].count);
    assert Holds(b, a[0].start + a[0].count) <==> Holds(a, a[0].start + a[0].count);
  }

  lemma RestHolds(runs: seq<Run>, p: nat)
    requires WellFormed(runs) && runs != []
    ensures Holds(runs[1..], p) <==> Holds(runs, p) && p >= runs[0].start + runs[0].count
  {
    if Holds(runs[1..], p) {
      HoldsFrom(runs[1..], p);
    }
  }

  // ---------------------------------------------------------------------------------
  // Allocation
  // ---------------------------------------------------------------------------------

  /** An allocation takes n consecutive free pages and leaves every other page as it was. */
  lemma {:induction false} AllocTakes(runs: seq<Run>, n: nat)
    requires WellFormed(runs)
    ensures var (r, a) := Alloc(runs, n);
            && WellFormed(r) && (r != [] ==> runs != [] && r[0].start >= runs[0].start)
            && (a.None? ==> r == runs)
            && (a.Some? ==> n > 0 && Total(r) + n == Total(runs)
                            && (forall p: nat :: a.value <= p < a.value + n ==> Holds(runs, p))
                            && (forall p: nat :: Holds(r, p) <==> Holds(runs, p) && !(a.value <= p < a.value + n)))
  {
    if n > 0 && runs != [] {
      if runs[0].count > n {
        TakenFront(runs, n);
      } else if runs[0].count == n {
        forall p: nat
          ensures Holds(runs[1..], p) <==> Holds(runs, p) && !(runs[0].start <= p < runs[0].start + n)
        {
          RestHolds(runs, p);
        }
      } else {
        AllocTakes(runs[1..], n);
        var (r, a) := Alloc(runs[1..], n);
        if a.Some? {
          AllocLater(runs, r, a.value, n);
        }
      }
    }
  }

  lemma TakenFront(runs: seq<Run>, n: nat)
    requires WellFormed(runs) && runs != [] && 0 < n < runs[0].count
    ensures var r := [Run(runs[0].start + n, runs[0].count - n)] + runs[1..];
            && WellFormed(r) && Total(r) + n == Total(runs)
            && forall p: nat :: Holds(r, p) <==> Holds(runs, p) && !(runs[0].start <= p < runs[0].start + n)
  {
    var r := [Run(runs[0].start + n, runs[0].count - n)] + runs[1..];
    assert r[1..] == runs[1..];
    forall p: nat
      ensures Holds(r, p) <==> Holds(runs, p) && !(runs[0].start <= p < runs[0].start + n)
    {
      RestHolds(runs, p);
    }
  }

  lemma AllocLater(runs: seq<Run>, r: seq<Run>, a: nat, n: nat)
    requires WellFormed(runs) && runs != [] && WellFormed(r) && n > 0 && Total(r) + n == Total(runs[1..])
    requires r != [] ==> runs[1..] != [] && r[0].start >= runs[1].start
    requires forall p: nat :: a <= p < a + n ==> Holds(runs[1..], p)
    requires forall p: nat :: Holds(r, p) <==> Holds(runs[1..], p) && !(a <= p < a + n)
    ensures var all := [runs[0]] + r;
            && WellFormed(all) && Total(all) + n == Total(runs)
            && (forall p: nat :: a <= p < a + n ==> Holds(runs, p))
            && forall p: nat :: Holds(all, p) <==> Holds(runs, p) && !(a <= p < a + n)
  {
    var all := [runs[0]] + r;
    assert all[1..] == r;
    assert Holds(runs[1..], a);
    HoldsFrom(runs[1..], a);
  }

  /** A request is refused exactly when no run has that many pages. */
  /** The pages come from the front of the first run that is long enough. */
  lemma {:induction false} AllocFirst(runs: seq<Run>, n: nat) returns (i: nat)
    requires Alloc(runs, n).1.Some?
    ensures i < |runs| && runs[i].count >= n && Alloc(runs, n).1 == Some(runs[i].start)
    ensures forall j :: 0 <= j < i ==> runs[j].count < n
  {
    if runs[0].count >= n {
      i := 0;
    } else {
      i := AllocFirst(runs[1..], n);
      assert runs == [runs[0]] + runs[1..];
      i := i + 1;
    }
  }

  lemma {:induction false} AllocRefuses(runs: seq<Run>, n: nat)
    ensures Alloc(runs, n).1.None? <==> n == 0 || forall i :: 0 <= i < |runs| ==> runs[i].count < n
  {
    if n > 0 && runs != [] {
      AllocRefuses(runs[1..], n);
      assert runs == [runs[0]] + runs[1..];
    }
  }

  // ---------------------------------------------------------------------------------
  // Freeing
  // ---------------------------------------------------------------------------------

  ghost predicate NoneHeld(runs: seq<Run>, start: nat, n: nat) {
    forall p: nat :: start <= p < start + n ==> !Holds(runs, p)
  }

  /** Freeing pages that are in use adds exactly those pages and keeps runs apart. */
  lemma {:induction false} FreeAdds(runs: seq<Run>, start: nat, n: nat)
    requires WellFormed(runs) && n > 0 && NoneHeld(runs, start, n)
    ensures var r := Free(runs, start, n);
            && WellFormed(r) && Total(r) == Total(runs) + n && r != []
            && r[0].start == (if runs == [] || start < runs[0].start then start else runs[0].start)
            && forall p: nat :: Holds(r, p) <==> Holds(runs, p) || start <= p < start + n
  {
    if runs == [] {
      assert [Run(start, n)][1..] == [];
    } else {
      Beside(runs, start, n);
      var end := runs[0].start + runs[0].count;
      if end == start {
        if runs[1..] != [] && start + n == runs[1].start {
          JoinBoth(runs, start, n);
        } else {
          JoinBefore(runs, start, n);
        }
      } else if runs[0].start == start + n {
        JoinAfter(runs, start, n);
      } else if runs[0].start > start + n {
        assert ([Run(start, n)] + runs)[1..] == runs;
      } else {
        NoneHeldRest(runs, start, n);
        FreeAdds(runs[1..], start, n);
        var r := Free(runs[1..], start, n);
        assert ([runs[0]] + r)[1..] == r;
      }
    }
  }

  /** Pages in use lie before or behind the first run, and before the second if they start before it. */
  lemma Beside(runs: seq<Run>, start: nat, n: nat)
    requires WellFormed(runs) && runs != [] && n > 0 && NoneHeld(runs, start, n)
    ensures start + n <= runs[0].start || runs[0].start + runs[0].count <= start
    ensures runs[1..] != [] ==> start + n <= runs[1].start || runs[1].start + runs[1].count <= start
  {
    if start < runs[0].start + runs[0].count && runs[0].start < start + n {
      var p := if start < runs[0].start then runs[0].start else start;
      assert Holds(runs, p);
    }
    if runs[1..] != [] && start < runs[1].start + runs[1].count && runs[1].start < start + n {
      var p := if start < runs[1].start then runs[1].start else start;
      assert Holds(runs[1..], p);
      assert Holds(runs, p);
    }
  }

  lemma NoneHeldRest(runs: seq<Run>, start: nat, n: nat)
    requires NoneHeld(runs, start, n) && runs != []
    ensures NoneHeld(runs[1..], start, n)
  {
    forall p: nat | start <= p < start + n
      ensures !Holds(runs[1..], p)
    {
      assert !Holds(runs, p);
    }
  }

  lemma JoinBefore(runs: seq<Run>, start: nat, n: nat)
    requires WellFormed(runs) && runs != [] && n > 0 && runs[0].start + runs[0].count == start
    requires runs[1..] != [] ==> start + n < runs[1].start
    ensures var r := [Run(runs[0].start, runs[0].count + n)] + runs[1..];
            && WellFormed(r) && Total(r) == Total(runs) + n
            && forall p: nat :: Holds(r, p) <==> Holds(runs, p) || start <= p < start + n
  {
    var r := [Run(runs[0].start, runs[0].count + n)] + runs[1..];
    assert r[1..] == runs[1..];
  }

  lemma JoinAfter(runs: seq<Run>, start: nat, n: nat)
    requires WellFormed(runs) && runs != [] && n > 0 && runs[0].start == start + n
    ensures var r := [Run(start, n + runs[0].count)] + runs[1..];
            && WellFormed(r) && Total(r) == Total(runs) + n
            && forall p: nat :: Holds(r, p) <==> Holds(runs, p) || start <= p < start + n
  {
    var r := [Run(start, n + runs[0].count)] + runs[1..];
    assert r[1..] == runs[1..];
  }

  lemma JoinBoth(runs: seq<Run>, start: nat, n: nat)
    requires WellFormed(runs) && |runs| > 1 && n > 0
    requires runs[0].start + runs[0].count == start && start + n == runs[1].start
    ensures var r := [Run(runs[0].start, runs[0].count + n + runs[1].count)] + runs[2..];
            && WellFormed(r) && Total(r) == Total(runs) + n
            && forall p: nat :: Holds(r, p) <==> Holds(runs, p) || start <= p < start + n
  {
    var r := [Run(runs[0].start, runs[0].count + n + runs[1].count)] + runs[2..];
    assert r[1..] == runs[2..] && runs[1..][1..] == runs[2..] && runs[1..][0] == runs[1];
  }

  // ---------------------------------------------------------------------------------
  // Round trip, and any order of frees
  // ---------------------------------------------------------------------------------

  /** Freeing what was just allocated restores the list. */
  lemma FreeUndoesAlloc(runs: seq<Run>, n: nat)
    requires WellFormed(runs) && Alloc(runs, n).1.Some?
    ensures Free(Alloc(runs, n).0, Alloc(runs, n).1.value, n) == runs
  {
    hide Alloc, Free, WellFormed, Holds;
    AllocTakes(runs, n);
    var (r, a) := Alloc(runs, n);
    FreeAdds(r, a.value, n);
    Canonical(Free(r, a.value, n), runs);
  }

  /** Two blocks in use can be freed in either order. */
  lemma FreesCommute(runs: seq<Run>, a: nat, m: nat, b: nat, n: nat)
    requires WellFormed(runs) && m > 0 && n > 0 && NoneHeld(runs, a, m) && NoneHeld(runs, b, n)
    requires a + m <= b || b + n <= a
    ensures Free(Free(runs, a, m), b, n) == Free(Free(runs, b, n), a, m)
  {
    hide Free, WellFormed, Holds;
    FreeAdds(runs, a, m);
    FreeAdds(runs, b, n);
    FreeAdds(Free(runs, a, m), b, n);
    FreeAdds(Free(runs, b, n), a, m);
    Canonical(Free(Free(runs, a, m), b, n), Free(Free(runs, b, n), a, m));
  }
}
