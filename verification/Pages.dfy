/** The page allocator of rt-thread/src/slab.c in place: the header of a run of free pages lies
    in its first page. */
module Pages {
  import opened PageList
  import List = PageList

  const NULL: int := -1

  function StartOf(runs: seq<Run>, i: nat): int
    requires i <= |runs|
  {
    if i < |runs| then runs[i].start else NULL
  }

  ghost predicate NodeAt(runs: seq<Run>, i: nat, next: seq<int>, count: seq<nat>)
    requires i < |runs|
  {
    && runs[i].start < |next| == |count| && runs[i].start + runs[i].count <= |next|
    && next[runs[i].start] == StartOf(runs, i + 1) && count[runs[i].start] == runs[i].count
  }

  ghost predicate Linked(runs: seq<Run>, next: seq<int>, count: seq<nat>) {
    forall i :: 0 <= i < |runs| ==> NodeAt(runs, i, next, count)
  }

  /** Run i ends below every later run. */
  lemma {:induction false} Ascending(runs: seq<Run>, i: nat, j: nat)
    requires WellFormed(runs) && i < j < |runs|
    ensures runs[i].count > 0 && runs[i].start + runs[i].count < runs[j].start
  {
    if i > 0 {
      Ascending(runs[1..], i - 1, j - 1);
    } else if j > 1 {
      Ascending(runs[1..], 0, j - 1);
    }
  }

  lemma {:induction false} CountPositive(runs: seq<Run>, i: nat)
    requires WellFormed(runs) && i < |runs|
    ensures runs[i].count > 0 && Holds(runs, runs[i].start)
  {
    if i > 0 {
      CountPositive(runs[1..], i - 1);
    }
  }

  lemma Distinct(runs: seq<Run>, i: nat, p: nat)
    requires WellFormed(runs) && i < |runs| && runs[i].start <= p < runs[i].start + runs[i].count
    ensures forall k :: 0 <= k < |runs| && k != i ==> runs[k].start != p
  {
    hide WellFormed;
    forall k | 0 <= k < |runs| && k != i
      ensures runs[k].start != p
    {
      if k < i {
        Ascending(runs, k, i);
      } else {
        Ascending(runs, i, k);
      }
    }
  }

  lemma FreeDistinct(runs: seq<Run>, p: nat)
    requires WellFormed(runs) && !Holds(runs, p)
    ensures forall k :: 0 <= k < |runs| ==> runs[k].start != p
  {
    hide WellFormed, Holds;
    forall k | 0 <= k < |runs|
      ensures runs[k].start != p
    {
      CountPositive(runs, k);
    }
  }

  /** Replaces runs i to j - 1 by mid, of at most one run. */
  function Spliced(runs: seq<Run>, i: nat, j: nat, mid: seq<Run>): seq<Run>
    requires i <= j <= |runs|
  {
    runs[..i] + mid + runs[j..]
  }

  /** What the writes must leave for the list to stay linked. */
  ghost predicate Rewritten(runs: seq<Run>, i: nat, j: nat, mid: seq<Run>,
                            next0: seq<int>, count0: seq<nat>, next1: seq<int>, count1: seq<nat>)
    requires i <= j <= |runs| && |mid| <= 1
  {
    && |next1| == |next0| == |count0| == |count1|
    && (forall k :: 0 <= k < |runs| && !(i <= k < j) ==>
            runs[k].start < |next0| && count1[runs[k].start] == count0[runs[k].start])
    && (forall k :: 0 <= k < |runs| && !(i <= k < j) && k != i - 1 ==>
            runs[k].start < |next0| && next1[runs[k].start] == next0[runs[k].start])
    && (i > 0 ==> next1[runs[i - 1].start] == if mid == [] then StartOf(runs, j) else mid[0].start)
    && (mid != [] ==> mid[0].start + mid[0].count <= |next1| && mid[0].start < |next1|
                      && next1[mid[0].start] == StartOf(runs, j) && count1[mid[0].start] == mid[0].count)
  }

  lemma SplicedLinked(runs: seq<Run>, i: nat, j: nat, mid: seq<Run>,
                      next0: seq<int>, count0: seq<nat>, next1: seq<int>, count1: seq<nat>)
    requires i <= j <= |runs| && |mid| <= 1 && Linked(runs, next0, count0)
    requires Rewritten(runs, i, j, mid, next0, count0, next1, count1)
    ensures Linked(Spliced(runs, i, j, mid), next1, count1)
  {
    var r := Spliced(runs, i, j, mid);
    forall k | 0 <= k < |r|
      ensures NodeAt(r, k, next1, count1)
    {
      if k < i {
        assert NodeAt(runs, k, next0, count0);
      } else if k >= i + |mid| {
        assert NodeAt(runs, k - i - |mid| + j, next0, count0);
      }
    }
  }

  class Pages {
    const next: array<int>      // rt_page_head.next
    const count: array<nat>     // rt_page_head.page
    var head: int               // rt_page_list
    ghost var runs: seq<Run>

    ghost predicate Valid()
      reads this, next, count
    {
      && next.Length == count.Length && WellFormed(runs) && head == StartOf(runs, 0)
      && Linked(runs, next[..], count[..])
    }

    /** rt_page_init. */
    constructor (npages: nat)
      requires npages > 0
      ensures Valid() && fresh(next) && fresh(count) && next.Length == npages && runs == [Run(0, npages)]
    {
      next, count := new int[npages], new nat[npages];
      head := 0;
      runs := [Run(0, npages)];
      new;
      next[0], count[0] := NULL, npages;
    }

    /** Stores through the pointer to a link: the head, or the next field of node prev. */
    method SetLink(prev: int, to: int)
      requires prev == NULL || 0 <= prev < next.Length
      modifies this`head, next
      ensures prev == NULL ==> head == to && next[..] == old(next[..])
      ensures prev != NULL ==> head == old(head) && next[..] == old(next[..])[prev := to]
    {
      if prev == NULL {
        head := to;
      } else {
        next[prev] := to;
      }
    }

    /** Where the loops stand: b is run i, reached through prev. */
    ghost predicate At(prev: int, b: int, i: nat)
      reads this, next, count
    {
      Valid() && i <= |runs| && b == StartOf(runs, i) && prev == (if i == 0 then NULL else runs[i - 1].start)
    }

    /** Run b gives up its first n pages. */
    method Shorten(prev: int, b: nat, n: nat, ghost i: nat)
      requires At(prev, b, i) && i < |runs| && 0 < n < runs[i].count
      requires WellFormed(Spliced(runs, i, i + 1, [Run(b + n, runs[i].count - n)]))
      modifies this, next, count
      ensures Valid() && runs == Spliced(old(runs), i, i + 1, [Run(b + n, old(runs)[i].count - n)])
    {
      hide WellFormed, Linked, Holds;
      ghost var was, n0, c0 := runs, next[..], count[..];
      ghost var mid := [Run(b + n, was[i].count - n)];
      NodeReads(was, i, n0, c0);
      PrevReads(was, i, n0, c0);
      Distinct(was, i, b + n);
      next[b + n] := next[b];
      count[b + n] := count[b] - n;
      SetLink(prev, b + n);
      assert Rewritten(was, i, i + 1, mid, n0, c0, next[..], count[..]);
      SplicedLinked(was, i, i + 1, mid, n0, c0, next[..], count[..]);
      runs := Spliced(was, i, i + 1, mid);
    }

    /** Run b leaves the list. */
    method Unlink(prev: int, b: nat, ghost i: nat)
      requires At(prev, b, i) && i < |runs| && WellFormed(Spliced(runs, i, i + 1, []))
      modifies this, next
      ensures Valid() && runs == Spliced(old(runs), i, i + 1, [])
    {
      hide WellFormed, Linked, Holds;
      ghost var was, n0, c0 := runs, next[..], count[..];
      NodeReads(was, i, n0, c0);
      PrevReads(was, i, n0, c0);
      SetLink(prev, next[b]);
      assert Rewritten(was, i, i + 1, [], n0, c0, next[..], count[..]);
      SplicedLinked(was, i, i + 1, [], n0, c0, next[..], count[..]);
      runs := Spliced(was, i, i + 1, []);
    }

    /** rt_page_alloc. */
    method Alloc(npages: nat) returns (page: Option<nat>)
      requires Valid()
      modifies this, next, count
      ensures Valid() && (runs, page) == List.Alloc(old(runs), npages)
    {
      hide WellFormed, Linked, Holds, List.Alloc, Spliced, AllocFrom, Total;
      AllocStart(runs, npages);
      AllocTakes(runs, npages);
      if npages == 0 {
        return None;
      }
      var prev, b := NULL, head;
      ghost var i: nat := 0;
      while b != NULL
        invariant At(prev, b, i) && unchanged(this) && unchanged(next) && unchanged(count)
        invariant AllocFrom(runs, i, npages)
        decreases |runs| - i
      {
        NodeReads(runs, i, next[..], count[..]);
        AllocAt(runs, i, npages);
        if count[b] > npages {
          Shorten(prev, b, npages, i);
          return Some(b);
        }
        if count[b] == npages {
          Unlink(prev, b, i);
          return Some(b);
        }
        prev := b;
        b := next[b];
        i := i + 1;
      }
      AllocEnds(runs, npages);
      page := None;
    }

    /** Run i takes in n pages behind it and, if they touch, the next run. */
    method Extend(b: nat, n: nat, ghost i: nat)
      requires Valid() && i < |runs| && b == runs[i].start && n > 0 && b + runs[i].count + n <= next.Length
      requires Absorbs(runs, i, n) ==>
              WellFormed(Spliced(runs, i, i + 2, [Run(b, runs[i].count + n + runs[i + 1].count)]))
      requires !Absorbs(runs, i, n) ==> WellFormed(Spliced(runs, i, i + 1, [Run(b, runs[i].count + n)]))
      modifies this, next, count
      ensures Valid()
      ensures runs == if Absorbs(old(runs), i, n) then
                        Spliced(old(runs), i, i + 2, [Run(b, old(runs)[i].count + n + old(runs)[i + 1].count)])
                      else Spliced(old(runs), i, i + 1, [Run(b, old(runs)[i].count + n)])
    {
      hide WellFormed, Linked, Holds;
      ghost var was, n0, c0 := runs, next[..], count[..];
      NodeReads(was, i, n0, c0);
      PrevReads(was, i, n0, c0);
      PrevReads(was, i + 1, n0, c0);
      count[b] := count[b] + n;
      if b + count[b] == next[b] {
        ghost var mid := [Run(b, was[i].count + n + was[i + 1].count)];
        count[b] := count[b] + count[next[b]];
        next[b] := next[next[b]];
        assert Rewritten(was, i, i + 2, mid, n0, c0, next[..], count[..]);
        SplicedLinked(was, i, i + 2, mid, n0, c0, next[..], count[..]);
        runs := Spliced(was, i, i + 2, mid);
      } else {
        ghost var mid := [Run(b, was[i].count + n)];
        assert Rewritten(was, i, i + 1, mid, n0, c0, next[..], count[..]);
        SplicedLinked(was, i, i + 1, mid, n0, c0, next[..], count[..]);
        runs := Spliced(was, i, i + 1, mid);
      }
    }

    /** Puts a run at page n in front of run i, taking run i in when take is set. */
    method Put(prev: int, b: int, n: nat, pages: nat, take: bool, ghost i: nat)
      requires At(prev, b, i) && n + pages <= next.Length && pages > 0 && !Holds(runs, n) && (take ==> i < |runs|)
      requires take ==> n + pages + runs[i].count <= next.Length
      requires WellFormed(Spliced(runs, i, if take then i + 1 else i,
                                  [Run(n, if take then pages + runs[i].count else pages)]))
      modifies this, next, count
      ensures Valid()
      ensures runs == Spliced(old(runs), i, if take then i + 1 else i,
                              [Run(n, if take then pages + old(runs)[i].count else pages)])
    {
      hide WellFormed, Linked, Holds;
      ghost var was, n0, c0 := runs, next[..], count[..];
      ghost var j := if take then i + 1 else i;
      ghost var mid := [Run(n, if take then pages + was[i].count else pages)];
      if take {
        NodeReads(was, i, n0, c0);
      }
      PrevReads(was, i, n0, c0);
      FreeDistinct(was, n);
      count[n] := if take then count[b] + pages else pages;
      next[n] := if take then next[b] else b;
      SetLink(prev, n);
      assert Rewritten(was, i, j, mid, n0, c0, next[..], count[..]);
      SplicedLinked(was, i, j, mid, n0, c0, next[..], count[..]);
      runs := Spliced(was, i, j, mid);
    }

    /** rt_page_free. */
    method Free(n: nat, npages: nat)
      requires Valid() && npages > 0 && n + npages <= next.Length && NoneHeld(runs, n, npages)
      modifies this, next, count
      ensures Valid() && runs == List.Free(old(runs), n, npages)
    {
      hide WellFormed, Linked, Holds, List.Free, Spliced, FreeFrom, Total;
      FreeStart(runs, n, npages);
      FreeAdds(runs, n, npages);
      assert !Holds(runs, n);
      var prev, b := NULL, head;
      ghost var i: nat := 0;
      while b != NULL
        invariant At(prev, b, i) && unchanged(this) && unchanged(next) && unchanged(count)
        invariant FreeFrom(runs, i, n, npages)
        decreases |runs| - i
      {
        NodeReads(runs, i, next[..], count[..]);
        FreeAt(runs, i, n, npages);
        if b + count[b] == n {
          Extend(b, npages, i);
          return;
        }
        if b == n + npages {
          Put(prev, b, n, npages, true, i);
          return;
        }
        if b > n + npages {
          break;
        }
        prev := b;
        b := next[b];
        i := i + 1;
      }
      FreeEnds(runs, i, n, npages);
      Put(prev, b, n, npages, false, i);
    }
  }

  /** With n more pages, run i reaches the next run. */
  predicate Absorbs(runs: seq<Run>, i: nat, n: nat)
    requires i < |runs|
  {
    i + 1 < |runs| && runs[i].start + runs[i].count + n == runs[i + 1].start
  }

  lemma AllocStart(runs: seq<Run>, n: nat)
    ensures AllocFrom(runs, 0, n) && (n == 0 ==> List.Alloc(runs, n) == (runs, None))
  {
    assert runs[0..] == runs;
    var r := List.Alloc(runs, n);
    assert [] + r.0 == r.0;
  }

  /** The place for the pages is not before run i. */
  ghost predicate FreeFrom(runs: seq<Run>, i: nat, start: nat, n: nat)
    requires i <= |runs|
  {
    List.Free(runs, start, n) == runs[..i] + List.Free(runs[i..], start, n)
  }

  lemma FreeStart(runs: seq<Run>, start: nat, n: nat)
    ensures FreeFrom(runs, 0, start, n)
  {
    assert runs[0..] == runs;
    assert [] + List.Free(runs, start, n) == List.Free(runs, start, n);
  }

  lemma FreeAt(runs: seq<Run>, i: nat, start: nat, n: nat)
    requires i < |runs| && FreeFrom(runs, i, start, n)
    ensures var b := runs[i];
            && (b.start + b.count == start ==>
                  List.Free(runs, start, n) ==
                    if Absorbs(runs, i, n) then Spliced(runs, i, i + 2, [Run(b.start, b.count + n + runs[i + 1].count)])
                    else Spliced(runs, i, i + 1, [Run(b.start, b.count + n)]))
            && (b.start + b.count != start && b.start == start + n ==>
                  List.Free(runs, start, n) == Spliced(runs, i, i + 1, [Run(start, n + b.count)]))
            && (b.start + b.count != start && b.start < start + n ==> FreeFrom(runs, i + 1, start, n))
  {
    var rest := runs[i..];
    var b := runs[i];
    assert rest[0] == b && rest[1..] == runs[i + 1..] && (i + 1 < |runs| ==> rest[2..] == runs[i + 2..]);
    if b.start + b.count == start {
      if Absorbs(runs, i, n) {
        var m := [Run(b.start, b.count + n + runs[i + 1].count)];
        assert runs[..i] + (m + runs[i + 2..]) == runs[..i] + m + runs[i + 2..];
      } else {
        var m := [Run(b.start, b.count + n)];
        assert runs[..i] + (m + runs[i + 1..]) == runs[..i] + m + runs[i + 1..];
      }
    } else if b.start == start + n {
      var m := [Run(start, n + b.count)];
      assert runs[..i] + (m + runs[i + 1..]) == runs[..i] + m + runs[i + 1..];
    } else if b.start < start + n {
      var r := List.Free(runs[i + 1..], start, n);
      assert runs[..i] + ([b] + r) == runs[..i + 1] + r;
    }
  }

  lemma FreeEnds(runs: seq<Run>, i: nat, start: nat, n: nat)
    requires i <= |runs| && FreeFrom(runs, i, start, n)
    requires i < |runs| ==> runs[i].start > start + n && runs[i].start + runs[i].count != start
    ensures List.Free(runs, start, n) == Spliced(runs, i, i, [Run(start, n)])
  {
    var m := [Run(start, n)];
    if i < |runs| {
      assert runs[i..][0] == runs[i];
      assert runs[..i] + (m + runs[i..]) == runs[..i] + m + runs[i..];
    } else {
      assert runs[i..] == [];
      assert runs[..i] + m == runs[..i] + m + runs[i..];
    }
  }

  lemma NodeReads(runs: seq<Run>, i: nat, next: seq<int>, count: seq<nat>)
    requires WellFormed(runs) && Linked(runs, next, count) && i < |runs|
    ensures NodeAt(runs, i, next, count) && runs[i].count > 0
    ensures i + 1 < |runs| ==> NodeAt(runs, i + 1, next, count) && runs[i + 1].count > 0
  {
    CountPositive(runs, i);
    if i + 1 < |runs| {
      CountPositive(runs, i + 1);
    }
  }

  /** The node before i, and that all starts differ. */
  lemma PrevReads(runs: seq<Run>, i: nat, next: seq<int>, count: seq<nat>)
    requires WellFormed(runs) && Linked(runs, next, count) && i <= |runs|
    ensures i > 0 ==> NodeAt(runs, i - 1, next, count)
    ensures i > 0 ==> forall k :: 0 <= k < |runs| && k != i - 1 ==> runs[k].start != runs[i - 1].start
    ensures forall k :: 0 <= k < |runs| ==> runs[k].start < |next| == |count|
  {
    if i > 0 {
      CountPositive(runs, i - 1);
      Distinct(runs, i - 1, runs[i - 1].start);
    }
    forall k | 0 <= k < |runs|
      ensures runs[k].start < |next| == |count|
    {
      assert NodeAt(runs, k, next, count);
    }
  }

  /** Nothing before run i is large enough. */
  ghost predicate AllocFrom(runs: seq<Run>, i: nat, n: nat)
    requires i <= |runs|
  {
    var r := List.Alloc(runs[i..], n);
    List.Alloc(runs, n) == (runs[..i] + r.0, r.1)
  }

  lemma AllocEnds(runs: seq<Run>, n: nat)
    requires AllocFrom(runs, |runs|, n)
    ensures List.Alloc(runs, n) == (runs, None)
  {
    assert runs[|runs|..] == [] && runs[..|runs|] + [] == runs;
    assert List.Alloc([], n) == ([], None);
  }

  lemma AllocAt(runs: seq<Run>, i: nat, n: nat)
    requires i < |runs| && AllocFrom(runs, i, n) && n > 0
    ensures runs[i].count > n ==>
              List.Alloc(runs, n) == (Spliced(runs, i, i + 1, [Run(runs[i].start + n, runs[i].count - n)]),
                                      Some(runs[i].start))
    ensures runs[i].count == n ==> List.Alloc(runs, n) == (Spliced(runs, i, i + 1, []), Some(runs[i].start))
    ensures runs[i].count < n ==> AllocFrom(runs, i + 1, n)
  {
    var rest := runs[i..];
    assert rest[1..] == runs[i + 1..] && rest[0] == runs[i];
    if runs[i].count > n {
      var m := [Run(runs[i].start + n, runs[i].count - n)];
      assert runs[..i] + (m + runs[i + 1..]) == runs[..i] + m + runs[i + 1..];
    } else if runs[i].count == n {
      assert runs[..i] + runs[i + 1..] == runs[..i] + [] + runs[i + 1..];
    } else {
      var r := List.Alloc(runs[i + 1..], n);
      assert runs[..i] + ([runs[i]] + r.0) == runs[..i + 1] + r.0;
    }
  }
}
