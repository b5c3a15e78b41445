/** The small-memory heap of rt-thread/src/mem.c in place: headers and payloads share one
    memory, and the list is what the headers in that memory say. */
module SmallHeap {
  import opened BlockList
  import opened SmallHeapSpec
  import List = BlockList
  import Spec = SmallHeapSpec

  const HEAP_MAGIC: nat := 0x1ea0

  // Where the fields of a header lie.
  const MAGIC: nat := 0
  const USED: nat := 2
  const NEXT: nat := 4
  const PREV: nat := 8

  // ---------------------------------------------------------------------------------
  // Memory: the cell at an offset holds the field or the payload byte that starts there
  // ---------------------------------------------------------------------------------

  function Prev(h: Heap, i: nat): nat
    requires i < |h.blocks|
  {
    if i == 0 then 0 else h.blocks[i - 1].off
  }

  ghost predicate HeaderAt(cells: seq<nat>, off: nat, used: bool, next: nat, prev: nat) {
    && off + HEADER <= |cells| && cells[off + MAGIC] == HEAP_MAGIC && cells[off + USED] == (if used then 1 else 0)
    && cells[off + NEXT] == next && cells[off + PREV] == prev
  }

  ghost predicate BlockHeader(cells: seq<nat>, h: Heap, i: nat)
    requires i < |h.blocks|
  {
    HeaderAt(cells, h.blocks[i].off, h.blocks[i].used, Next(h, i), Prev(h, i))
  }

  /** heap_end links to itself; its prev is not maintained. */
  ghost predicate EndHeader(cells: seq<nat>, end: nat) {
    |cells| == end + HEADER && cells[end + MAGIC] == HEAP_MAGIC && cells[end + USED] == 1 && cells[end + NEXT] == end
  }

  ghost predicate HeadersOk(cells: seq<nat>, h: Heap) {
    h.header == HEADER && EndHeader(cells, h.end) && forall i :: 0 <= i < |h.blocks| ==> BlockHeader(cells, h, i)
  }

  ghost predicate Outside(live: map<nat, nat>, k: int) {
    forall p :: p in live ==> !(p <= k < live[p])
  }

  /** No byte of a live payload differs. */
  ghost predicate Untouched(before: seq<nat>, after: seq<nat>, live: map<nat, nat>) {
    |before| == |after| && forall k :: 0 <= k < |before| && after[k] != before[k] ==> Outside(live, k)
  }

  lemma UntouchedTrans(a: seq<nat>, b: seq<nat>, c: seq<nat>, live: map<nat, nat>)
    requires Untouched(a, b, live) && Untouched(b, c, live)
    ensures Untouched(a, c, live)
  {
    hide Outside;
    forall k | 0 <= k < |a| && c[k] != a[k]
      ensures Outside(live, k)
    {
      assert b[k] != a[k] || c[k] != b[k];
    }
  }

  lemma UntouchedLess(a: seq<nat>, b: seq<nat>, live: map<nat, nat>, less: map<nat, nat>)
    requires Untouched(a, b, live) && forall p :: p in less ==> p in live && less[p] <= live[p]
    ensures Untouched(a, b, less)
  {
    forall k | 0 <= k < |a| && b[k] != a[k]
      ensures Outside(less, k)
    {
      assert Outside(live, k);
    }
  }

  lemma UntouchedChain(a: seq<nat>, b: seq<nat>, c: seq<nat>, d: seq<nat>,
                       live: map<nat, nat>, less: map<nat, nat>, end: map<nat, nat>)
    requires Untouched(a, b, live) && Untouched(b, c, less) && Untouched(c, d, end)
    requires forall p :: p in less ==> p in live && less[p] == live[p] && p in end && less[p] == end[p]
    ensures Untouched(a, d, less)
  {
    hide Untouched;
    UntouchedLess(a, b, live, less);
    UntouchedLess(c, d, end, less);
    UntouchedTrans(a, b, c, less);
    UntouchedTrans(a, c, d, less);
  }

  lemma UntouchedRefl(a: seq<nat>, live: map<nat, nat>)
    ensures Untouched(a, a, live)
  {
  }

  lemma WriteUntouched(cells: seq<nat>, k: nat, v: nat, live: map<nat, nat>)
    requires k < |cells| && Outside(live, k)
    ensures Untouched(cells, cells[k := v], live)
  {
  }

  /** A header, and everything in a free block, is outside every live payload. */
  lemma HeaderOutside(h: Heap, i: nat, k: int)
    requires h.header == HEADER
    requires Tiles(h) && i < |h.blocks| && h.blocks[i].off <= k
    requires k < h.blocks[i].off + HEADER || (!h.blocks[i].used && k < Next(h, i))
    ensures Outside(Payloads(h), k)
  {
    hide Tiles, PayloadsOf;
    forall p | p in Payloads(h)
      ensures !(p <= k < Payloads(h)[p])
    {
      var j := IndexOf(h, p);
      if i < j {
        Ascending(h, i, j);
      } else if j < i {
        Ascending(h, j, i);
      }
    }
  }

  lemma EndOutside(h: Heap, k: int)
    requires Tiles(h) && k >= h.end
    ensures Outside(Payloads(h), k)
  {
    hide Tiles, PayloadsOf;
    forall p | p in Payloads(h)
      ensures !(p <= k < Payloads(h)[p])
    {
      BelowEnd(h, IndexOf(h, p));
    }
  }

  // ---------------------------------------------------------------------------------
  // Writing headers
  // ---------------------------------------------------------------------------------

  lemma SetUsedHeaders(cells: seq<nat>, h: Heap, i: nat, used: bool)
    requires Tiles(h) && HeadersOk(cells, h) && i < |h.blocks|
    ensures h.blocks[i].off + HEADER <= |cells|
    ensures var after := cells[h.blocks[i].off + USED := if used then 1 else 0];
            HeadersOk(after, SetUsed(h, i, used)) && Untouched(cells, after, Payloads(h))
  {
    hide Tiles, PayloadsOf, Outside;
    var r := SetUsed(h, i, used);
    var k := h.blocks[i].off + USED;
    assert BlockHeader(cells, h, i);
    var after := cells[k := if used then 1 else 0];
    BelowEnd(h, i);
    forall j | 0 <= j < |r.blocks|
      ensures BlockHeader(after, r, j)
    {
      assert BlockHeader(cells, h, j);
      Distinct(h, i, j);
    }
    HeaderOutside(h, i, k);
    WriteUntouched(cells, k, after[k], Payloads(h));
  }

  lemma Distinct(h: Heap, i: nat, j: nat)
    requires h.header == HEADER
    requires Tiles(h) && i < |h.blocks| && j < |h.blocks|
    ensures i != j ==>
            h.blocks[i].off + HEADER + WORD <= h.blocks[j].off || h.blocks[j].off + HEADER + WORD <= h.blocks[i].off
  {
    if i < j {
      Ascending(h, i, j);
    } else if j < i {
      Ascending(h, j, i);
    }
  }

  function WriteHeader(cells: seq<nat>, off: nat, next: nat, prev: nat): seq<nat>
    requires off + HEADER <= |cells|
  {
    cells[off + MAGIC := HEAP_MAGIC][off + USED := 0][off + NEXT := next][off + PREV := prev]
  }

  /** The writes that split block i at offset off. */
  function SplitCells(cells: seq<nat>, h: Heap, i: nat, off: nat): seq<nat>
    requires i < |h.blocks| && off + HEADER <= |cells|
    requires h.blocks[i].off + HEADER <= |cells| && Next(h, i) + HEADER <= |cells|
  {
    var c := WriteHeader(cells, off, Next(h, i), h.blocks[i].off)[h.blocks[i].off + NEXT := off];
    if Next(h, i) != h.end then c[Next(h, i) + PREV := off] else c
  }

  lemma SplitHeaders(cells: seq<nat>, h: Heap, i: nat, off: nat)
    requires Tiles(h) && HeadersOk(cells, h) && i < |h.blocks| && off % WORD == 0
    requires h.blocks[i].off + HEADER + WORD <= off && off + HEADER + WORD <= Next(h, i)
    ensures h.blocks[i].off + HEADER <= |cells| && Next(h, i) + HEADER <= |cells|
    ensures HeadersOk(SplitCells(cells, h, i, off), InsertAfter(h, i, Block(off, false)))
  {
    hide Tiles, PayloadsOf, Outside, BlockHeader, SplitCells;
    var r := InsertAfter(h, i, Block(off, false));
    BelowEnd(h, i);
    SplitEnd(cells, h, i, off);
    forall j | 0 <= j < |r.blocks|
      ensures BlockHeader(SplitCells(cells, h, i, off), r, j)
    {
      if j <= i + 1 {
        SplitLow(cells, h, i, off, j);
      } else {
        SplitHigh(cells, h, i, off, j);
      }
    }
  }

  lemma SplitEnd(cells: seq<nat>, h: Heap, i: nat, off: nat)
    requires h.header == HEADER
    requires i < |h.blocks| && EndHeader(cells, h.end) && Next(h, i) <= h.end
    requires h.blocks[i].off + HEADER <= off && off + HEADER <= Next(h, i)
    requires i + 1 < |h.blocks| ==> Tiles(h)
    ensures EndHeader(SplitCells(cells, h, i, off), h.end)
  {
    hide Tiles;
    if i + 1 < |h.blocks| {
      BelowEnd(h, i + 1);
    }
  }

  lemma SplitLow(cells: seq<nat>, h: Heap, i: nat, off: nat, j: nat)
    requires Tiles(h) && HeadersOk(cells, h) && i < |h.blocks| && j <= i + 1
    requires h.blocks[i].off + HEADER + WORD <= off && off + HEADER + WORD <= Next(h, i) <= h.end
    ensures BlockHeader(SplitCells(cells, h, i, off), InsertAfter(h, i, Block(off, false)), j)
  {
    hide Tiles;
    if j < i {
      Ascending(h, j, i);
      assert BlockHeader(cells, h, j);
    } else if j == i {
      assert BlockHeader(cells, h, i);
    }
  }

  lemma SplitHigh(cells: seq<nat>, h: Heap, i: nat, off: nat, j: nat)
    requires Tiles(h) && HeadersOk(cells, h) && i + 1 < j <= |h.blocks|
    requires h.blocks[i].off + HEADER + WORD <= off && off + HEADER + WORD <= Next(h, i) <= h.end
    ensures BlockHeader(SplitCells(cells, h, i, off), InsertAfter(h, i, Block(off, false)), j)
  {
    hide Tiles;
    assert BlockHeader(cells, h, j - 1);
    BelowEnd(h, j - 1);
    if j > i + 2 {
      Ascending(h, i + 1, j - 1);
    }
  }

  lemma SplitUntouched(cells: seq<nat>, h: Heap, i: nat, off: nat)
    requires h.header == HEADER
    requires Tiles(h) && i < |h.blocks| && off % WORD == 0 && |cells| == h.end + HEADER
    requires h.blocks[i].off + HEADER + WORD <= off && off + HEADER + WORD <= Next(h, i) <= h.end
    ensures Untouched(cells, SplitCells(cells, h, i, off), Payloads(InsertAfter(h, i, Block(off, false))))
  {
    hide Tiles, PayloadsOf, Outside;
    var r := InsertAfter(h, i, Block(off, false));
    InsertTiles(h, i, Block(off, false));
    var after := SplitCells(cells, h, i, off);
    forall k | 0 <= k < |cells| && after[k] != cells[k]
      ensures Outside(Payloads(r), k)
    {
      if h.blocks[i].off <= k < h.blocks[i].off + HEADER {
        HeaderOutside(r, i, k);
      } else if off <= k < off + HEADER {
        HeaderOutside(r, i + 1, k);
      } else {
        HeaderOutside(r, i + 2, k);
      }
    }
  }

  /** The writes that merge block k into the one before. */
  function MergeCells(cells: seq<nat>, h: Heap, k: nat): seq<nat>
    requires 0 < k < |h.blocks| && h.blocks[k - 1].off + HEADER <= |cells| && Next(h, k) + HEADER <= |cells|
  {
    cells[h.blocks[k - 1].off + NEXT := Next(h, k)][Next(h, k) + PREV := h.blocks[k - 1].off]
  }

  lemma MergeHeaders(cells: seq<nat>, h: Heap, k: nat)
    requires Tiles(h) && HeadersOk(cells, h) && 0 < k < |h.blocks|
    ensures h.blocks[k - 1].off + HEADER <= |cells| && Next(h, k) + HEADER <= |cells|
    ensures HeadersOk(MergeCells(cells, h, k), Without(h, k))
  {
    hide Tiles, PayloadsOf, Outside, BlockHeader, MergeCells;
    var r := Without(h, k);
    BelowEnd(h, k - 1);
    BelowEnd(h, k);
    MergeEnd(cells, h, k);
    forall j | 0 <= j < |r.blocks|
      ensures BlockHeader(MergeCells(cells, h, k), r, j)
    {
      MergeHeaderAt(cells, h, k, j);
    }
  }

  lemma MergeEnd(cells: seq<nat>, h: Heap, k: nat)
    requires h.header == HEADER
    requires Tiles(h) && EndHeader(cells, h.end) && 0 < k < |h.blocks|
    requires h.blocks[k - 1].off + HEADER <= h.blocks[k].off && h.blocks[k].off + HEADER <= Next(h, k) <= h.end
    ensures EndHeader(MergeCells(cells, h, k), h.end)
  {
    hide Tiles;
    if k + 1 < |h.blocks| {
      BelowEnd(h, k + 1);
    }
  }

  lemma MergeHeaderAt(cells: seq<nat>, h: Heap, k: nat, j: nat)
    requires Tiles(h) && HeadersOk(cells, h) && 0 < k < |h.blocks| && j < |h.blocks| - 1
    requires h.blocks[k - 1].off + HEADER + WORD <= h.blocks[k].off
    requires h.blocks[k].off + HEADER + WORD <= Next(h, k) <= h.end
    ensures BlockHeader(MergeCells(cells, h, k), Without(h, k), j)
  {
    hide Tiles;
    if j < k {
      assert BlockHeader(cells, h, j);
      if j < k - 1 {
        Ascending(h, j, k - 1);
      }
    } else {
      assert BlockHeader(cells, h, j + 1);
      BelowEnd(h, j + 1);
      if j > k {
        Ascending(h, k + 1, j + 1);
      }
    }
  }

  lemma MergeUntouched(cells: seq<nat>, h: Heap, k: nat)
    requires h.header == HEADER
    requires Tiles(h) && 0 < k < |h.blocks| && |cells| == h.end + HEADER
    requires h.blocks[k - 1].off + HEADER <= Next(h, k) <= h.end
    ensures Untouched(cells, MergeCells(cells, h, k), Payloads(Without(h, k)))
  {
    hide Tiles, PayloadsOf, Outside;
    var r := Without(h, k);
    WithoutTiles(h, k);
    var after := MergeCells(cells, h, k);
    forall j | 0 <= j < |cells| && after[j] != cells[j]
      ensures Outside(Payloads(r), j)
    {
      if h.blocks[k - 1].off <= j < h.blocks[k - 1].off + HEADER {
        HeaderOutside(r, k - 1, j);
      } else if Next(h, k) < h.end {
        HeaderOutside(r, k, j);
      } else {
        EndOutside(r, j);
      }
    }
  }

  lemma HeaderOf(cells: seq<nat>, h: Heap, i: nat)
    requires Tiles(h) && HeadersOk(cells, h) && i < |h.blocks|
    ensures h.blocks[i].off + HEADER + WORD <= Next(h, i) <= h.end && h.end + HEADER == |cells|
    ensures BlockHeader(cells, h, i)
    ensures i + 1 < |h.blocks| ==> BlockHeader(cells, h, i + 1)
    ensures i > 0 ==> BlockHeader(cells, h, i - 1)
    ensures cells[h.end + USED] == 1 && cells[h.end + NEXT] == h.end
    ensures i == 0 ==> h.blocks[0].off == 0
    ensures i > 0 ==> h.blocks[i - 1].off + HEADER + WORD <= h.blocks[i].off
  {
    BelowEnd(h, i);
    if i > 0 {
      Ascending(h, i - 1, i);
    }
  }

  /** plug_holes moves lfree from a header that it drops to the block that takes its bytes. */
  function Redirected(h: Heap, i: nat, low: nat): nat
    requires i < |h.blocks|
  {
    var forward := if i + 1 < |h.blocks| && !h.blocks[i + 1].used && low == h.blocks[i + 1].off then h.blocks[i].off
        else low;
    if i > 0 && !h.blocks[i - 1].used && forward == h.blocks[i].off then h.blocks[i - 1].off else forward
  }

  /** That never happens when lfree is exact: the lowest free block is not dropped. */
  lemma NothingToRedirect(h: Heap, i: nat)
    requires Tiles(h) && i < |h.blocks| && !h.blocks[i].used
    ensures var low := LowestFree(h.blocks, h.end);
            var r := MergeBackward(MergeForward(h, i), i);
            Redirected(h, i, low) == low && LowestFree(r.blocks, r.end) == low && r.end == h.end
  {
    hide Tiles, LowestFree, UsedSum;
    var low := LowestFree(h.blocks, h.end);
    LowestFreeIsLeast(h, low);
    if i + 1 < |h.blocks| {
      Ascending(h, i, i + 1);
      if !h.blocks[i + 1].used {
        MergeSum(h, i + 1);
      }
    }
    var f := MergeForward(h, i);
    if i > 0 {
      Ascending(h, i - 1, i);
      if !f.blocks[i - 1].used {
        MergeSum(f, i);
      }
    }
  }

  /** Where block i starts; past the last block, heap_end. */
  function Start(h: Heap, i: nat): nat
    requires i <= |h.blocks|
  {
    if i < |h.blocks| then h.blocks[i].off else h.end
  }

  /** The loop bound of rt_malloc ends the scan only where nothing fits any more. */
  lemma NoneFits(h: Heap, i: nat, size: nat)
    requires h.header == HEADER
    requires Tiles(h) && i <= |h.blocks| && Start(h, i) >= h.end - HEADER - size
    ensures forall j :: i <= j < |h.blocks| ==> !Fits(h, j, size)
  {
    hide Tiles;
    forall j | i <= j < |h.blocks|
      ensures !Fits(h, j, size)
    {
      if i < j {
        Ascending(h, i, j);
      }
    }
  }

  lemma SplitFreePayloads(h: Heap, i: nat, off: nat)
    requires h.header == HEADER
    requires Tiles(h) && i < |h.blocks| && !h.blocks[i].used && off % WORD == 0
    requires h.blocks[i].off + HEADER + WORD <= off && off + HEADER + WORD <= Next(h, i)
    ensures Payloads(InsertAfter(h, i, Block(off, false))) == Payloads(h)
  {
    hide PayloadsOf, Tiles;
    var b := Block(off, false);
    var r := InsertAfter(h, i, b);
    InsertTiles(h, i, b);
    var before, after := PayloadsAround(h, i);
    var before', after' := PayloadsAround(r, i);
    assert r.blocks[..i] == h.blocks[..i] && r.blocks[i + 1..] == [b] + h.blocks[i + 1..];
    FreeFirst(b, h.blocks[i + 1..], h.end, h.header);
  }

  /** What following the next offsets from the start of block j, or from the sentinel, reads. */
  ghost predicate Chained(cells: seq<nat>, h: Heap, j: nat)
    requires j <= |h.blocks|
  {
    && Start(h, j) + HEADER <= |cells| && Start(h, j) <= h.end && (Start(h, j) == h.end <==> j == |h.blocks|)
    && (j < |h.blocks| ==> cells[Start(h, j) + NEXT] == Start(h, j + 1) > Start(h, j))
    && (j < |h.blocks| ==> (cells[Start(h, j) + USED] == 0 <==> !h.blocks[j].used))
  }

  lemma ChainAt(cells: seq<nat>, h: Heap, j: nat)
    requires Tiles(h) && HeadersOk(cells, h) && j <= |h.blocks|
    ensures Chained(cells, h, j)
  {
    assert h.blocks != [];
    hide Tiles, HeadersOk;
    HeaderOf(cells, h, if j < |h.blocks| then j else 0);
  }

  lemma SameUsed(h: Heap, r: Heap, i: nat)
    requires i <= |h.blocks| && i <= |r.blocks| && r.blocks[..i] == h.blocks[..i]
    requires forall k :: 0 <= k < i ==> h.blocks[k].used
    ensures forall k :: 0 <= k < i ==> r.blocks[k].used
  {
    forall k | 0 <= k < i
      ensures r.blocks[k].used
    {
      assert r.blocks[..i][k] == h.blocks[..i][k];
    }
  }

  lemma TakePrefix(h: Heap, i: nat, size: nat)
    requires i < |h.blocks|
    ensures var r := Take(h, i, size);
            i < |r.blocks| && r.blocks[i].off == h.blocks[i].off && r.blocks[..i] == h.blocks[..i] && r.end == h.end
  {
  }

  function Least(a: int, b: int): int {
    if a < b then a else b
  }

  /** The first n bytes at q are the n bytes that were at p. */
  ghost predicate Carried(before: seq<nat>, p: nat, after: seq<nat>, q: nat, n: int) {
    n >= 0 && p + n <= |before| && q + n <= |after| && after[q..q + n] == before[p..p + n]
  }

  /** The specification of the moving branch. */
  ghost predicate Moved(h: Heap, p: nat, size: nat, r: Heap, q: Option<nat>)
    requires Good(h) && p in Payloads(h) && size < SIZE_SPAN
  {
    MallocKeepsLive(h, size, p);
    var m := Spec.Malloc(h, size);
    q == m.1 && r == if q.None? then m.0 else List.Free(m.0, IndexOf(m.0, p))
  }

  lemma MoveBounds(m: Heap, p: nat, q: nat)
    requires Tiles(m) && p in Payloads(m) && q in Payloads(m) && p != q
    ensures Payloads(m)[p] <= q || Payloads(m)[q] <= p
    ensures p < Payloads(m)[p] <= m.end && q < Payloads(m)[q] <= m.end
  {
    LivePayloadsDisjoint(m, p, q);
    LivePayloadsDisjoint(m, q, p);
  }

  /** Writing into live payload q leaves the headers and every other payload alone. */
  lemma CopyOutside(before: seq<nat>, after: seq<nat>, m: Heap, q: nat, n: nat, less: map<nat, nat>)
    requires Tiles(m) && HeadersOk(before, m) && |after| == |before|
    requires q in Payloads(m) && q + n <= Payloads(m)[q]
    requires forall k :: 0 <= k < |before| && after[k] != before[k] ==> q <= k < q + n
    requires forall p :: p in less ==> p in Payloads(m) && p != q && less[p] == Payloads(m)[p]
    ensures HeadersOk(after, m) && Untouched(before, after, less)
  {
    hide Tiles, PayloadsOf;
    forall k | 0 <= k < |before| && after[k] != before[k]
      ensures Outside(less, k)
    {
      forall p | p in less
        ensures !(p <= k < less[p])
      {
        MoveBounds(m, p, q);
      }
    }
    WriteInside(before, after, m, q, n);
  }

  lemma WriteInside(before: seq<nat>, after: seq<nat>, m: Heap, q: nat, n: nat)
    requires Tiles(m) && HeadersOk(before, m) && |after| == |before|
    requires q in Payloads(m) && q + n <= Payloads(m)[q]
    requires forall k :: 0 <= k < |before| && after[k] != before[k] ==> q <= k < q + n
    ensures HeadersOk(after, m)
  {
    hide Tiles, PayloadsOf;
    forall k | m.end <= k < m.end + HEADER
      ensures after[k] == before[k]
    {
      EndOutside(m, k);
    }
    forall i | 0 <= i < |m.blocks|
      ensures BlockHeader(after, m, i)
    {
      assert BlockHeader(before, m, i);
      forall k | m.blocks[i].off <= k < m.blocks[i].off + HEADER
        ensures after[k] == before[k]
      {
        HeaderOutside(m, i, k);
      }
    }
  }

  lemma CarriedOver(before: seq<nat>, granted: seq<nat>, copied: seq<nat>, after: seq<nat>,
                    live: map<nat, nat>, end: map<nat, nat>, p: nat, q: nat, n: nat)
    requires Untouched(before, granted, live) && Carried(granted, p, copied, q, n) && Untouched(copied, after, end)
    requires p in live && p + n <= live[p] && q in end && q + n <= end[q]
    ensures Carried(before, p, after, q, n)
  {
    UntouchedSlice(before, granted, live, p, n);
    UntouchedSlice(copied, after, end, q, n);
  }

  lemma UntouchedSlice(before: seq<nat>, after: seq<nat>, live: map<nat, nat>, p: nat, n: nat)
    requires Untouched(before, after, live) && p in live && p + n <= live[p] && p + n <= |before|
    ensures after[p..p + n] == before[p..p + n]
  {
    forall k | p <= k < p + n
      ensures after[k] == before[k]
    {
      assert !Outside(live, k);
    }
  }

  lemma CarriedSelf(cells: seq<nat>, p: nat, n: nat)
    requires p + n <= |cells|
    ensures Carried(cells, p, cells, p, n)
  {
  }

  lemma CarriedShrunk(before: seq<nat>, after: seq<nat>, live: map<nat, nat>, p: nat, n: nat)
    requires Untouched(before, after, live) && p in live && p + n == live[p] && p + n <= |before|
    ensures Carried(before, p, after, p, n)
  {
    UntouchedSlice(before, after, live, p, n);
  }

  lemma ReallocTooLarge(h: Heap, p: nat, newSize: nat)
    requires h.header == HEADER
    requires Good(h) && p in Payloads(h) && newSize < SIZE_SPAN && Align(newSize) + HEADER > h.end
    ensures Realloc(h, p, newSize) == (h, None)
  {
  }

  lemma BackwardNothing(h: Heap, i: nat)
    requires 0 < i < |h.blocks| && h.blocks[i - 1].used
    ensures MergeBackward(MergeForward(h, i), i) == MergeForward(h, i)
  {
  }

  lemma SumPositive(h: Heap, i: nat)
    requires Tiles(h) && i < |h.blocks|
    ensures Next(h, i) - h.blocks[i].off > 0
  {
    BelowEnd(h, i);
  }

  lemma UsedBelowLowest(h: Heap, i: nat)
    requires Tiles(h) && i < |h.blocks| && h.blocks[i].off == LowestFree(h.blocks, h.end)
    ensures forall k :: 0 <= k < i ==> h.blocks[k].used
  {
    hide Tiles, LowestFree;
    LowestFreeIsLeast(h, h.blocks[i].off);
    forall k | 0 <= k < i
      ensures h.blocks[k].used
    {
      Ascending(h, k, i);
    }
  }

  lemma ForwardKeeps(h: Heap, i: nat)
    requires i < |h.blocks|
    ensures var r := MergeForward(h, i); i < |r.blocks| && r.blocks[i] == h.blocks[i] && r.end == h.end
    ensures i > 0 ==> MergeForward(h, i).blocks[i - 1] == h.blocks[i - 1]
  {
  }

  class SmallHeap {
    const heap: array<nat>
    const memSizeAligned: nat
    var lfree: nat
    var usedMem: int
    var maxMem: int
    ghost var blocks: seq<Block>

    ghost function H(): Heap
      reads this
    {
      Heap(blocks, memSizeAligned + HEADER, HEADER)
    }

    ghost predicate Shape()
      reads this, heap
    {
      memSizeAligned + HEADER < SIZE_SPAN && memSizeAligned >= MIN_SIZE && Tiles(H()) && HeadersOk(heap[..], H())
    }

    ghost predicate Valid()
      reads this, heap
    {
      && Shape() && Coalesced(H())
      && lfree == LowestFree(blocks, memSizeAligned + HEADER)
      && usedMem == UsedSum(blocks, memSizeAligned + HEADER) && usedMem <= maxMem
    }

    /** rt_system_heap_init, for a region that is large enough. */
    constructor (begin: nat, end: nat)
      requires begin + WORD <= SIZE_SPAN && end < SIZE_SPAN
      requires (begin + WORD - 1) / WORD * WORD + 2 * HEADER + MIN_SIZE <= end / WORD * WORD
      ensures Valid() && fresh(heap) && blocks == [Block(0, false)] && lfree == 0 && usedMem == 0 && maxMem == 0
      ensures memSizeAligned == end / WORD * WORD - (begin + WORD - 1) / WORD * WORD - 2 * HEADER
    {
      var size := end / WORD * WORD - (begin + WORD - 1) / WORD * WORD - 2 * HEADER;
      memSizeAligned := size;
      heap := new nat[size + 2 * HEADER];
      lfree, usedMem, maxMem := 0, 0, 0;
      blocks := [Block(0, false)];
      new;
      heap[MAGIC], heap[USED], heap[NEXT], heap[PREV] := HEAP_MAGIC, 0, size + HEADER, 0;
      heap[size + HEADER + MAGIC], heap[size + HEADER + USED] := HEAP_MAGIC, 1;
      heap[size + HEADER + NEXT], heap[size + HEADER + PREV] := size + HEADER, size + HEADER;
    }

    /** Merges the free block at mem with its free neighbours. */
    method PlugHoles(mem: nat, ghost i: nat)
      requires Shape() && i < |blocks| && blocks[i] == Block(mem, false)
      modifies this`lfree, this`blocks, heap
      ensures Shape() && H() == MergeBackward(MergeForward(old(H()), i), i)
      ensures lfree == Redirected(old(H()), i, old(lfree))
      ensures Untouched(old(heap[..]), heap[..], Payloads(H()))
    {
      hide Tiles, PayloadsOf, Outside, HeadersOk, LowestFree, UsedSum, Untouched, Without, MergeCells;
      HeaderOf(heap[..], H(), i);
      var nmem := heap[mem + NEXT];
      if mem != nmem && heap[nmem + USED] == 0 && nmem != memSizeAligned + HEADER {
        if lfree == nmem {
          lfree := mem;
        }
        Unlink(mem, nmem, i + 1);
      } else {
        UntouchedRefl(heap[..], Payloads(H()));
      }
      ghost var middle := heap[..];
      ForwardKeeps(old(H()), i);
      assert H() == MergeForward(old(H()), i);
      HeaderOf(middle, H(), i);
      var pmem := heap[mem + PREV];
      if pmem != mem && heap[pmem + USED] == 0 {
        if lfree == mem {
          lfree := pmem;
        }
        Unlink(pmem, mem, i);
        UntouchedTrans(old(heap[..]), middle, heap[..], Payloads(H()));
      }
    }

    /** Drops the header of free block k from the chain: the block before, also free, takes its bytes. */
    method Unlink(front: nat, back: nat, ghost k: nat)
      requires Shape() && 0 < k < |blocks| && blocks[k - 1] == Block(front, false) && blocks[k] == Block(back, false)
      modifies this`blocks, heap
      ensures Shape() && H() == Without(old(H()), k) && Payloads(H()) == Payloads(old(H()))
      ensures Untouched(old(heap[..]), heap[..], Payloads(H()))
    {
      hide Tiles, PayloadsOf, Outside, HeadersOk, LowestFree, UsedSum, Untouched;
      ghost var h, before := H(), heap[..];
      HeaderOf(before, h, k);
      MergeSum(h, k);
      MergePayloads(h, k);
      MergeHeaders(before, h, k);
      MergeUntouched(before, h, k);
      heap[front + NEXT] := heap[back + NEXT];
      heap[heap[back + NEXT] + PREV] := front;
      assert heap[..] == MergeCells(before, h, k);
      blocks := Without(h, k).blocks;
    }

    /** The header that rt_malloc and rt_realloc create in the middle of block ptr. */
    method Split(ptr: nat, ptr2: nat, ghost i: nat)
      requires Shape() && i < |blocks| && blocks[i].off == ptr && ptr2 % WORD == 0
      requires ptr + HEADER + WORD <= ptr2 && ptr2 + HEADER + WORD <= Next(H(), i)
      modifies this`blocks, heap
      ensures Shape() && H() == InsertAfter(old(H()), i, Block(ptr2, false))
      ensures Untouched(old(heap[..]), heap[..], Payloads(H()))
    {
      hide Tiles, PayloadsOf, Outside, HeadersOk, Untouched;
      ghost var h, before := H(), heap[..];
      HeaderOf(before, h, i);
      SplitHeaders(before, h, i, ptr2);
      SplitUntouched(before, h, i, ptr2);
      InsertTiles(h, i, Block(ptr2, false));
      heap[ptr2 + MAGIC] := HEAP_MAGIC;
      heap[ptr2 + USED] := 0;
      heap[ptr2 + NEXT] := heap[ptr + NEXT];
      heap[ptr2 + PREV] := ptr;
      heap[ptr + NEXT] := ptr2;
      if heap[ptr2 + NEXT] != memSizeAligned + HEADER {
        heap[heap[ptr2 + NEXT] + PREV] := ptr2;
      }
      assert heap[..] == SplitCells(before, h, i, ptr2);
      blocks := InsertAfter(h, i, Block(ptr2, false)).blocks;
    }

    method Mark(ptr: nat, used: bool, ghost i: nat)
      requires Shape() && i < |blocks| && blocks[i].off == ptr
      modifies this`blocks, heap
      ensures Shape() && H() == SetUsed(old(H()), i, used)
      ensures Untouched(old(heap[..]), heap[..], Payloads(old(H())))
    {
      hide Tiles, PayloadsOf, Outside, HeadersOk, Untouched;
      ghost var h, before := H(), heap[..];
      HeaderOf(before, h, i);
      SetUsedHeaders(before, h, i, used);
      SetUsedTiles(h, i, used);
      heap[ptr + USED] := if used then 1 else 0;
      assert heap[..] == before[ptr + USED := if used then 1 else 0];
      blocks := SetUsed(h, i, used).blocks;
    }

    /** Takes size bytes from free block ptr. */
    method Grab(ptr: nat, size: nat, ghost i: nat)
      requires Shape() && Coalesced(H()) && i < |blocks| && blocks[i].off == ptr && Fits(H(), i, size)
      requires size % WORD == 0 && size >= MIN_SIZE
      requires usedMem == UsedSum(blocks, memSizeAligned + HEADER) <= maxMem
      modifies this`blocks, this`usedMem, this`maxMem, heap
      ensures Shape() && H() == Take(old(H()), i, size)
      ensures usedMem == UsedSum(blocks, memSizeAligned + HEADER)
      ensures maxMem == Most(old(maxMem), usedMem)
      ensures Untouched(old(heap[..]), heap[..], Payloads(old(H())))
    {
      hide Tiles, PayloadsOf, Outside, HeadersOk, Untouched, UsedSum;
      ghost var h, before := H(), heap[..];
      HeaderOf(before, h, i);
      TakeChanges(h, i, size);
      if heap[ptr + NEXT] - (ptr + HEADER) >= size + HEADER + MIN_SIZE {
        OffsetAligned(h, i, size);
        SplitFreePayloads(h, i, ptr + HEADER + size);
        Split(ptr, ptr + HEADER + size, i);
        ghost var middle := heap[..];
        assert Payloads(H()) == Payloads(h);
        Mark(ptr, true, i);
        UntouchedTrans(before, middle, heap[..], Payloads(h));
        assert H().blocks == Take(h, i, size).blocks;
        usedMem := usedMem + (size + HEADER);
      } else {
        Mark(ptr, true, i);
        HeaderOf(heap[..], H(), i);
        usedMem := usedMem + (heap[ptr + NEXT] - ptr);
      }
      if maxMem < usedMem {
        maxMem := usedMem;
      }
    }

    /** Takes the block and moves lfree on if it pointed there. */
    method Claim(ptr: nat, size: nat, ghost i: nat)
      requires Valid() && i < |blocks| && blocks[i].off == ptr && Fits(H(), i, size)
      requires size % WORD == 0 && size >= MIN_SIZE
      modifies this, heap
      ensures Valid() && H() == Take(old(H()), i, size)
      ensures maxMem == Most(old(maxMem), usedMem)
      ensures Untouched(old(heap[..]), heap[..], Payloads(old(H())))
    {
      hide Tiles, PayloadsOf, Outside, HeadersOk, Untouched, UsedSum, LowestFree, Coalesced, Take;
      ghost var h := H();
      if ptr != lfree {
        LowestAfterTake(h, i, size);
      }
      TakeChanges(h, i, size);
      TakePrefix(h, i, size);
      Grab(ptr, size, i);
      if ptr == lfree {
        SkipUsed(i, h);
      }
    }

    /** rt_malloc: the scan starts at lfree, yet finds what a scan from offset 0 finds. */
    method Malloc(size: nat) returns (p: Option<nat>)
      requires Valid() && size < SIZE_SPAN
      modifies this, heap
      ensures Valid() && (H(), p) == Spec.Malloc(old(H()), size)
      ensures maxMem == Most(old(maxMem), usedMem)
      ensures Untouched(old(heap[..]), heap[..], Payloads(old(H())))
    {
      hide Tiles, PayloadsOf, Outside, HeadersOk, Untouched, UsedSum, LowestFree, FirstFit, Coalesced, Take;
      UntouchedRefl(heap[..], Payloads(H()));
      if size == 0 {
        return None;
      }
      var aligned := Align(size);
      if aligned > memSizeAligned {
        return None;
      }
      var want := if aligned < MIN_SIZE then MIN_SIZE else aligned;
      var ptr := lfree;
      ghost var h := H();
      ghost var i: nat := FirstFree(blocks);
      LowestFreeIs(blocks, memSizeAligned + HEADER, i);
      while ptr < memSizeAligned - want
        invariant unchanged(this) && heap[..] == old(heap[..]) && h == H() && Valid()
        invariant i <= |blocks| && ptr == Start(h, i)
        invariant forall j :: 0 <= j < i ==> !Fits(h, j, want)
        decreases memSizeAligned + HEADER - ptr
      {
        HeaderOf(heap[..], h, i);
        if heap[ptr + USED] == 0 && heap[ptr + NEXT] - (ptr + HEADER) >= want {
          FirstFitIs(h, want, 0, i);
          Claim(ptr, want, i);
          return Some(ptr + HEADER);
        }
        ptr := heap[ptr + NEXT];
        i := i + 1;
      }
      NoneFits(h, i, want);
      FirstFitIs(h, want, 0, |h.blocks|);
      p := None;
    }

    /** Moves lfree on to the next free block or to heap_end. */
    method SkipUsed(ghost i: nat, ghost h: Heap)
      requires Shape() && i < |blocks| && i < |h.blocks| && blocks[i].off == lfree
      requires h.blocks[i].off == LowestFree(h.blocks, h.end) && Tiles(h) && blocks[..i] == h.blocks[..i]
      modifies this`lfree
      ensures lfree == LowestFree(blocks, memSizeAligned + HEADER)
    {
      hide Tiles, PayloadsOf, Outside, HeadersOk, Untouched, UsedSum, LowestFree;
      UsedBelowLowest(h, i);
      SameUsed(h, H(), i);
      SkipFrom(i);
    }

    /** The loop of rt_malloc that moves lfree on, from block i. */
    method SkipFrom(ghost i: nat)
      requires Shape() && i < |blocks| && blocks[i].off == lfree && forall k :: 0 <= k < i ==> blocks[k].used
      modifies this`lfree
      ensures lfree == LowestFree(blocks, memSizeAligned + HEADER)
    {
      hide Tiles, PayloadsOf, Outside, HeadersOk, Untouched, UsedSum, LowestFree, BlockHeader;
      ghost var j: nat := i;
      ChainAt(heap[..], H(), j);
      while heap[lfree + USED] != 0 && lfree != memSizeAligned + HEADER
        invariant j <= |blocks| && lfree == Start(H(), j) && Chained(heap[..], H(), j)
        invariant forall k :: 0 <= k < j ==> blocks[k].used
        decreases memSizeAligned + HEADER - lfree
      {
        lfree := heap[lfree + NEXT];
        j := j + 1;
        ChainAt(heap[..], H(), j);
      }
      LowestFreeIs(blocks, memSizeAligned + HEADER, j);
    }

    /** What rt_free and rt_realloc accept: NULL, a pointer outside the heap, or a live payload. */
    ghost predicate Acceptable(rmem: Option<int>)
      reads this
    {
      rmem.Some? ==> Illegal(rmem.value) || rmem.value in Payloads(H())
    }

    predicate Illegal(rmem: int) {
      rmem < 0 || rmem >= memSizeAligned + HEADER
    }

    /** rt_free. */
    method Free(rmem: Option<int>)
      requires Valid() && Acceptable(rmem)
      modifies this, heap
      ensures Valid() && maxMem == old(maxMem)
      ensures rmem.None? || Illegal(rmem.value) ==> H() == old(H()) && heap[..] == old(heap[..])
      ensures rmem.Some? && !Illegal(rmem.value) ==>
                H() == List.Free(old(H()), IndexOf(old(H()), rmem.value)) &&
                    Untouched(old(heap[..]), heap[..], Payloads(H()))
    {
      hide Tiles, PayloadsOf, Outside, HeadersOk, Untouched, UsedSum, LowestFree, Coalesced, MergeForward,
          MergeBackward, Redirected;
      if rmem.None? || Illegal(rmem.value) {
        return;
      }
      var mem := rmem.value - HEADER;
      ghost var h, before := H(), heap[..];
      ghost var i := IndexOf(h, rmem.value);
      HeaderOf(before, h, i);
      FreeChanges(h, i);
      SetUsedPayloads(h, i, false);
      LowestAfterFree(h, i);
      Mark(mem, false, i);
      ghost var marked := heap[..];
      HeaderOf(marked, H(), i);
      if mem < lfree {
        lfree := mem;
      }
      usedMem := usedMem - (heap[mem + NEXT] - mem);
      NothingToRedirect(H(), i);
      PlugHoles(mem, i);
      SumPositive(h, i);
      UntouchedLess(before, marked, Payloads(h), Payloads(H()));
      UntouchedTrans(before, marked, heap[..], Payloads(H()));
    }

    /** The branch of rt_realloc that splits the block in place. */
    method ShrinkTo(ptr: nat, size: nat, ghost i: nat)
      requires Valid() && i < |blocks| && blocks[i] == Block(ptr, true) && size % WORD == 0 && size > 0
      requires size + HEADER + MIN_SIZE < Room(H(), i)
      modifies this, heap
      ensures Valid() && maxMem == old(maxMem) && H() == Shrink(old(H()), i, size)
      ensures Untouched(old(heap[..]), heap[..], Payloads(H()))
    {
      hide Tiles, PayloadsOf, Outside, HeadersOk, Untouched, UsedSum, LowestFree, Coalesced, MergeForward, Redirected;
      ghost var h, before := H(), heap[..];
      HeaderOf(before, h, i);
      ShrinkChanges(h, i, size);
      var ptr2 := ptr + HEADER + size;
      OffsetAligned(h, i, size);
      SplitPayloads(h, i, ptr2);
      LowestAfterInsert(h, i, ptr2);
      usedMem := usedMem - (heap[ptr + NEXT] - ptr - HEADER - size);
      Split(ptr, ptr2, i);
      ghost var split := heap[..];
      if ptr2 < lfree {
        lfree := ptr2;
      }
      NothingToRedirect(H(), i + 1);
      BackwardNothing(H(), i + 1);
      PlugHoles(ptr2, i + 1);
      UntouchedTrans(before, split, heap[..], Payloads(H()));
    }

    /** rt_memcpy of n bytes between two payloads. */
    method Copy(from: nat, to: nat, n: nat)
      requires from + n <= heap.Length && to + n <= heap.Length && (from + n <= to || to + n <= from)
      modifies heap
      ensures forall j :: 0 <= j < heap.Length && !(to <= j < to + n) ==> heap[j] == old(heap[j])
      ensures forall j :: to <= j < to + n ==> heap[j] == old(heap[from + (j - to)])
    {
      var k := 0;
      while k < n
        invariant k <= n
        invariant forall j :: 0 <= j < heap.Length && !(to <= j < to + k) ==> heap[j] == old(heap[j])
        invariant forall j :: to <= j < to + k ==> heap[j] == old(heap[from + (j - to)])
      {
        heap[to + k] := heap[from + k];
        k := k + 1;
      }
    }

    /** The last branch of rt_realloc: allocate, copy what fits, free. */
    method Move(rmem: nat, size: nat, ghost i: nat) returns (p: Option<nat>)
      requires Valid() && i < |blocks| && blocks[i].used && rmem == blocks[i].off + HEADER && rmem in Payloads(H())
      requires Payloads(H())[rmem] == Next(H(), i)
      requires 0 < size < SIZE_SPAN && Align(size) == size
      modifies this, heap
      ensures Valid() && Moved(old(H()), rmem, size, H(), p)
      ensures maxMem == Most(old(maxMem), UsedSum(Spec.Malloc(old(H()), size).0.blocks, memSizeAligned + HEADER))
      ensures p.None? ==> Untouched(old(heap[..]), heap[..], Payloads(old(H())))
      ensures p.Some? ==> Untouched(old(heap[..]), heap[..], Payloads(old(H())) - {rmem})
      ensures p.Some? ==> Carried(old(heap[..]), rmem, heap[..], p.value, Least(Room(old(H()), i), size))
    {
      hide Tiles, PayloadsOf, Outside, HeadersOk, Untouched, UsedSum, LowestFree, Coalesced, FirstFit, Take,
           MergeForward, MergeBackward, Spec.Malloc, Carried, List.Free;
      ghost var h, before := H(), heap[..];
      HeaderOf(before, h, i);
      MallocKeepsLive(h, size, rmem);
      MallocGrants(h, size);
      var oldSize := heap[rmem - HEADER + NEXT] - rmem;
      p := Malloc(size);
      if p.Some? {
        CopyAndFree(rmem, p.value, Least(oldSize, size), before, h);
      }
    }

    method CopyAndFree(from: nat, to: nat, n: nat, ghost before: seq<nat>, ghost h: Heap)
      requires Valid() && from in Payloads(H()) && to in Payloads(H()) && from != to
      requires from + n <= Payloads(H())[from] && to + n <= Payloads(H())[to]
      requires from in Payloads(h) && Payloads(H()) == Payloads(h)[to := Payloads(H())[to]] && to !in Payloads(h)
      requires Untouched(before, heap[..], Payloads(h))
      modifies this, heap
      ensures Valid() && maxMem == old(maxMem) && H() == List.Free(old(H()), IndexOf(old(H()), from))
      ensures Untouched(before, heap[..], Payloads(h) - {from}) && Carried(before, from, heap[..], to, n)
    {
      hide Tiles, PayloadsOf, Outside, HeadersOk, Untouched, UsedSum, LowestFree, Coalesced, Carried, List.Free;
      ghost var m, granted := H(), heap[..];
      ghost var less := Payloads(h) - {from};
      CopyPayload(from, to, n, less);
      ghost var copied := heap[..];
      FreeChanges(m, IndexOf(m, from));
      MoveBounds(m, from, to);
      assert !Illegal(from);
      Free(Some(from));
      CarriedOver(before, granted, copied, heap[..], Payloads(h), Payloads(H()), from, to, n);
      UntouchedChain(before, granted, copied, heap[..], Payloads(h), less, Payloads(H()));
    }

    method CopyPayload(from: nat, to: nat, n: nat, ghost less: map<nat, nat>)
      requires Valid() && from in Payloads(H()) && to in Payloads(H()) && from != to
      requires from + n <= Payloads(H())[from] && to + n <= Payloads(H())[to]
      requires forall p :: p in less ==> p in Payloads(H()) && p != to && less[p] == Payloads(H())[p]
      modifies heap
      ensures Valid() && Untouched(old(heap[..]), heap[..], less) && Carried(old(heap[..]), from, heap[..], to, n)
    {
      hide Tiles, PayloadsOf, Outside, Untouched, UsedSum, LowestFree, Coalesced, BlockHeader;
      MoveBounds(H(), from, to);
      assert heap.Length == H().end + HEADER;
      ghost var before := heap[..];
      Copy(from, to, n);
      assert heap[..][to..to + n] == before[from..from + n];
      CopyOutside(before, heap[..], H(), to, n, less);
    }

    /** rt_realloc of a live payload: it keeps the bytes that still fit, keeps every other payload,
        and when it returns NULL without freeing it changes no payload at all. */
    method ReallocLive(rmem: nat, newSize: nat) returns (p: Option<nat>)
      requires Valid() && rmem in Payloads(H()) && newSize < SIZE_SPAN && Align(newSize) != 0
      modifies this, heap
      ensures Valid() && (H(), p) == Realloc(old(H()), rmem, newSize)
      ensures maxMem == Most(old(maxMem), UsedSum(Busiest(old(H()), rmem, newSize).blocks, memSizeAligned + HEADER))
      ensures p.None? ==> Untouched(old(heap[..]), heap[..], Payloads(old(H())))
      ensures p.Some? ==> Untouched(old(heap[..]), heap[..], Payloads(old(H())) - {rmem})
      ensures p.Some? ==> Carried(old(heap[..]), rmem, heap[..], p.value,
                                  Least(Payloads(old(H()))[rmem] - rmem, Align(newSize)))
    {
      hide Tiles, PayloadsOf, Outside, HeadersOk, Untouched, UsedSum, LowestFree, Coalesced, Spec.Malloc, Carried,
          List.Free, Shrink;
      ghost var h, before := H(), heap[..];
      UntouchedRefl(before, Payloads(h));
      UntouchedLess(before, before, Payloads(h), Payloads(h) - {rmem});
      var size := Align(newSize);
      if size > memSizeAligned {
        return None;
      }
      ghost var i := IndexOf(h, rmem);
      HeaderOf(before, h, i);
      assert !Illegal(rmem);
      var ptr := rmem - HEADER;
      var room := heap[ptr + NEXT] - ptr - HEADER;
      if room == size {
        CarriedSelf(before, rmem, size);
        return Some(rmem);
      }
      if size + HEADER + MIN_SIZE < room {
        ShrinkChanges(h, i, size);
        assert blocks[i] == Block(ptr, true);
        ShrinkTo(ptr, size, i);
        CarriedShrunk(before, heap[..], Payloads(H()), rmem, size);
        UntouchedLess(before, heap[..], Payloads(H()), Payloads(h) - {rmem});
        return Some(rmem);
      }
      p := Move(rmem, size, i);
    }

    /** rt_realloc. */
    method ReallocAny(rmem: Option<int>, newSize: nat) returns (p: Option<int>)
      requires Valid() && Acceptable(rmem) && newSize < SIZE_SPAN
      modifies this, heap
      ensures Valid()
      ensures Align(newSize) > memSizeAligned ==> p == None && H() == old(H()) && heap[..] == old(heap[..])
      ensures Align(newSize) == 0 ==> p == None
      ensures Align(newSize) == 0 && (rmem.None? || Illegal(rmem.value)) ==> H() == old(H())
      ensures Align(newSize) == 0 && rmem.Some? && !Illegal(rmem.value) ==>
                H() == List.Free(old(H()), IndexOf(old(H()), rmem.value))
      ensures 0 < Align(newSize) && rmem.None? ==> (H(), p) == Spec.Malloc(old(H()), Align(newSize))
      ensures 0 < Align(newSize) <= memSizeAligned && rmem.Some? && Illegal(rmem.value) ==> p == rmem && H() == old(H())
      ensures 0 < Align(newSize) && rmem.Some? && !Illegal(rmem.value) ==>
                (H(), p) == Realloc(old(H()), rmem.value, newSize)
      ensures maxMem == if rmem.None? then Most(old(maxMem), usedMem)
                        else if Illegal(rmem.value) then old(maxMem)
                        else Most(old(maxMem),
                                  UsedSum(Busiest(old(H()), rmem.value, newSize).blocks, memSizeAligned + HEADER))
      ensures rmem.None? ==> Untouched(old(heap[..]), heap[..], Payloads(old(H())))
      ensures rmem.Some? && Illegal(rmem.value) ==> heap[..] == old(heap[..])
      ensures rmem.Some? && !Illegal(rmem.value) ==>
                && (p.None? && Align(newSize) > 0 ==> Untouched(old(heap[..]), heap[..], Payloads(old(H()))))
                && Untouched(old(heap[..]), heap[..], Payloads(old(H())) - {rmem.value})
                && (p.Some? ==>
                      p.value >= 0 && Carried(old(heap[..]), rmem.value, heap[..], p.value,
                                              Least(Payloads(old(H()))[rmem.value] - rmem.value, Align(newSize))))
    {
      hide Tiles, PayloadsOf, Outside, HeadersOk, Untouched, UsedSum, LowestFree, Coalesced, List.Free, FirstFit,
          Take, Realloc;
      var size := Align(newSize);
      AlignIdempotent(newSize);
      ghost var before, live := heap[..], Payloads(H());
      UntouchedRefl(before, live);
      if size > memSizeAligned {
        if rmem.Some? && !Illegal(rmem.value) {
          ReallocTooLarge(H(), rmem.value, newSize);
          UntouchedLess(before, before, live, live - {rmem.value});
        }
        return None;
      } else if size == 0 {
        if rmem.Some? && !Illegal(rmem.value) {
          FreeChanges(H(), IndexOf(H(), rmem.value));
        }
        Free(rmem);
        return None;
      }
      if rmem.None? {
        p := Malloc(size);
      } else if Illegal(rmem.value) {
        p := rmem;
      } else {
        p := ReallocLive(rmem.value, newSize);
        if p.None? {
          UntouchedLess(before, heap[..], live, live - {rmem.value});
        }
      }
    }

    /** The program writes a byte of a payload that it owns. */
    method Store(k: nat, v: nat, ghost p: nat)
      requires Valid() && p in Payloads(H()) && p <= k < Payloads(H())[p]
      modifies heap
      ensures Valid() && k < heap.Length && heap[..] == old(heap[..])[k := v]
      ensures Untouched(old(heap[..]), heap[..], Payloads(H()) - {p})
    {
      hide Tiles, PayloadsOf, Outside, HeadersOk, Untouched, UsedSum, LowestFree, Coalesced;
      ghost var before := heap[..];
      HeaderOf(before, H(), IndexOf(H(), p));
      heap[k] := v;
      assert heap[..] == before[k := v];
      CopyOutside(before, heap[..], H(), p, k + 1 - p, Payloads(H()) - {p});
    }
  }
}
