/** The block list of the small-memory heap (rt-thread/src/mem.c): what allocating, freeing and
    shrinking do to it, and what every run of those operations keeps. */
module SmallHeapSpec {
  import opened BlockList

  const HEADER: nat := 12        // SIZEOF_STRUCT_MEM
  const SIZE_SPAN: nat := 0x1_0000_0000

  datatype Option<+T> = None | Some(value: T)

  /** RT_ALIGN on a 32-bit size, which wraps. */
  function Align(n: nat): (r: nat)
    requires n < SIZE_SPAN
    ensures r % WORD == 0 && r < SIZE_SPAN
    ensures n <= SIZE_SPAN - WORD <==> r >= n
    ensures n <= SIZE_SPAN - WORD ==> r < n + WORD && (r == 0 <==> n == 0)
    ensures n > SIZE_SPAN - WORD ==> r == 0
  {
    (n + WORD - 1) % SIZE_SPAN / WORD * WORD
  }

  /** The scan of rt_malloc accepts block i. */
  predicate Fits(h: Heap, i: nat, size: nat)
    requires i < |h.blocks|
  {
    !h.blocks[i].used && Room(h, i) >= size && h.blocks[i].off < h.end - h.header - size
  }

  /** First fit by a full scan from block i. */
  function FirstFit(h: Heap, size: nat, i: nat): (k: nat)
    requires i <= |h.blocks|
    ensures i <= k <= |h.blocks|
    ensures k < |h.blocks| ==> Fits(h, k, size)
    ensures forall j :: i <= j < k ==> !Fits(h, j, size)
    decreases |h.blocks| - i
  {
    if i == |h.blocks| || Fits(h, i, size) then i else FirstFit(h, size, i + 1)
  }

  function BlockSize(aligned: nat): nat {
    if aligned < MIN_SIZE then MIN_SIZE else aligned
  }

  /** rt_malloc: the payload offset, or nothing. */
  function Malloc(h: Heap, size: nat): (Heap, Option<nat>)
    requires size < SIZE_SPAN
  {
    if size == 0 || Align(size) + h.header > h.end then (h, None)
    else
      var i := FirstFit(h, BlockSize(Align(size)), 0);
      if i == |h.blocks| then (h, None) else (Take(h, i, BlockSize(Align(size))), Some(h.blocks[i].off + h.header))
  }

  /** rt_malloc refuses exactly when nothing was asked for, when more was asked for than the heap
      holds, or when every free block is too small, except that it also refuses an exact fit in a
      block that reaches the end of the heap. */
  lemma MallocRefuses(h: Heap, size: nat)
    requires Good(h) && size < SIZE_SPAN
    ensures Malloc(h, size).1.None? <==>
              || size == 0 || Align(size) + h.header > h.end
              || forall i :: 0 <= i < |h.blocks| && !h.blocks[i].used ==>
                   Room(h, i) < BlockSize(Align(size)) || (Room(h, i) == BlockSize(Align(size)) && Next(h, i) == h.end)
  {
    hide Align;
    var want := BlockSize(Align(size));
    forall i | 0 <= i < |h.blocks| && !h.blocks[i].used
      ensures Fits(h, i, want) <==> !(Room(h, i) < want || (Room(h, i) == want && Next(h, i) == h.end))
    {
      BelowEnd(h, i);
    }
  }

  /** A granted request is one new live payload, disjoint from the others by LivePayloadsDisjoint,
      and it holds what was asked for exactly when rounding the request up does not wrap. */
  lemma MallocGrants(h: Heap, size: nat)
    requires Good(h) && size < SIZE_SPAN && h.end < SIZE_SPAN
    ensures var (r, p) := Malloc(h, size);
            && Good(r) && r.end == h.end
            && (p.None? ==> r == h)
            && (p.Some? ==> p.value !in Payloads(h) && p.value in Payloads(r)
                            && Payloads(r) == Payloads(h)[p.value := Payloads(r)[p.value]]
                            && (Payloads(r)[p.value] - p.value >= size <==> size <= SIZE_SPAN - WORD))
  {
    hide UsedSum, LowestFree, PayloadsOf, Tiles, Align, FirstFit;
    var (r, p) := Malloc(h, size);
    if p.Some? {
      var want := BlockSize(Align(size));
      var i := FirstFit(h, want, 0);
      TakeChanges(h, i, want);
      BelowEnd(r, i);
      assert h.end % WORD == 0 by {
        EndAligned(h);
      }
    }
  }

  /** Which block a granted request comes from, and how much of it: the first one that the scan
      accepts, cut to the size if the rest is worth a block. */
  lemma GrantedExtent(h: Heap, size: nat) returns (i: nat)
    requires Good(h) && size < SIZE_SPAN && Malloc(h, size).1.Some?
    ensures var (r, p) := Malloc(h, size);
            var want := if Align(size) < 12 then 12 else Align(size);
            && i < |h.blocks| && !h.blocks[i].used && p.value == h.blocks[i].off + h.header && Room(h, i) >= want
            && (forall j :: 0 <= j < i && !h.blocks[j].used ==> Room(h, j) < want)
            && p.value in Payloads(r)
            && Payloads(r)[p.value] == if Room(h, i) >= want + h.header + 12 then p.value + want else Next(h, i)
  {
    hide UsedSum, LowestFree, PayloadsOf, Tiles, Align;
    var want := BlockSize(Align(size));
    i := FirstFit(h, want, 0);
    forall j | 0 <= j < i && !h.blocks[j].used
      ensures Room(h, j) < want
    {
      Ascending(h, j, i);
      BelowEnd(h, i);
      BelowEnd(h, j);
      BelowNext(h, j, i);
      assert !Fits(h, j, want) && h.blocks[i].off < h.end;
      assert Next(h, j) == h.blocks[j].off + h.header + Room(h, j);
    }
    TakeChanges(h, i, want);
    hide FirstFit, Coalesced;
  }

  /** A block that is not the last one ends before the end. */
  lemma BelowNext(h: Heap, j: nat, i: nat)
    requires Tiles(h) && j < i < |h.blocks|
    ensures Next(h, j) <= h.blocks[i].off
  {
    hide Tiles;
    if j + 1 < i {
      Ascending(h, j + 1, i);
    }
  }

  lemma MallocKeepsLive(h: Heap, size: nat, p: nat)
    requires Good(h) && size < SIZE_SPAN && p in Payloads(h)
    ensures p in Payloads(Malloc(h, size).0) && Good(Malloc(h, size).0)
  {
    hide UsedSum, LowestFree, PayloadsOf, Tiles, Align, FirstFit;
    if Malloc(h, size).1.Some? {
      TakeChanges(h, FirstFit(h, BlockSize(Align(size)), 0), BlockSize(Align(size)));
    }
  }

  /** rt_realloc of the live payload p. */
  ghost function Realloc(h: Heap, p: nat, newSize: nat): (Heap, Option<nat>)
    requires Good(h) && p in Payloads(h) && newSize < SIZE_SPAN
  {
    var size := Align(newSize);
    var i := IndexOf(h, p);
    if size + h.header > h.end then (h, None)
    else if size == 0 then (Free(h, i), None)
    else if Room(h, i) == size then (h, Some(p))
    else if size + h.header + MIN_SIZE < Room(h, i) then (Shrink(h, i, size), Some(p))
    else
      var r := Malloc(h, size);
      MallocKeepsLive(h, size, p);
      if r.1.None? then r else (Free(r.0, IndexOf(r.0, p)), r.1)
  }

  /** The heap at the moment of its greatest use during rt_realloc: after the allocation, if there
      is one, and before the old block is freed. */
  ghost function Busiest(h: Heap, p: nat, newSize: nat): Heap
    requires Good(h) && p in Payloads(h) && newSize < SIZE_SPAN
  {
    var size := Align(newSize);
    var room := Room(h, IndexOf(h, p));
    if size + h.header > h.end || size == 0 || room == size || size + h.header + MIN_SIZE < room then h
        else Malloc(h, size).0
  }

  function Most(a: int, b: int): int {
    if a < b then b else a
  }

  /** What rt_realloc does to the live payloads: nothing is lost when it returns NULL, unless the
      rounded size is 0, which frees the block; otherwise p becomes the answer, no smaller than
      the size asked for, and every other payload stays. */
  lemma ReallocChanges(h: Heap, p: nat, newSize: nat)
    requires Good(h) && p in Payloads(h) && newSize < SIZE_SPAN
    ensures var (r, q) := Realloc(h, p, newSize);
            && Good(r) && r.end == h.end
            && (q.None? ==> r == h || (Align(newSize) == 0 && Payloads(r) == Payloads(h) - {p}))
            && (q.Some? ==> q.value in Payloads(r) && Payloads(r)[q.value] - q.value >= Align(newSize)
                            && Payloads(r) == (Payloads(h) - {p})[q.value := Payloads(r)[q.value]]
                            && (q.value != p ==> q.value !in Payloads(h)))
  {
    hide UsedSum, LowestFree, PayloadsOf, Tiles, Align, FirstFit, Free, Shrink, Coalesced, Take;
    var size := Align(newSize);
    var i := IndexOf(h, p);
    var (r, q) := Realloc(h, p, newSize);
    if size + h.header > h.end {
    } else if size == 0 {
      FreeChanges(h, i);
      FreeEnd(h, i);
    } else if Room(h, i) == size {
    } else if size + h.header + MIN_SIZE < Room(h, i) {
      ShrinkChanges(h, i, size);
      ShrinkEnd(h, i, size);
    } else {
      ReallocMoves(h, p, size);
    }
  }

  /** For a non-zero size, a NULL answer leaves the old block live exactly when rounding the size
      up does not wrap to 0. */
  lemma ReallocNullKeepsBlock(h: Heap, p: nat, newSize: nat)
    requires Good(h) && p in Payloads(h) && 0 < newSize < SIZE_SPAN && Realloc(h, p, newSize).1.None?
    ensures p in Payloads(Realloc(h, p, newSize).0) <==> newSize <= SIZE_SPAN - WORD
  {
    hide UsedSum, LowestFree, PayloadsOf, Tiles, Align, FirstFit, Free, Shrink, Coalesced, Malloc;
    ReallocChanges(h, p, newSize);
    if Align(newSize) == 0 {
      BelowEnd(h, IndexOf(h, p));
      FreeChanges(h, IndexOf(h, p));
    }
  }

  /** rt_realloc to a size that does not round to 0 answers NULL exactly when more is asked for than
      the heap holds, or when the block neither fits exactly nor leaves room to split off, and every
      free block is too small or an exact fit at the end of the heap; it stays in place exactly when
      it fits or can be split. */
  lemma ReallocRefuses(h: Heap, p: nat, newSize: nat)
    requires Good(h) && p in Payloads(h) && newSize < SIZE_SPAN && Align(newSize) > 0
    ensures var size, room := Align(newSize), Payloads(h)[p] - p;
            var want := if size < 12 then 12 else size;
            var move := room != size && size + h.header + 12 >= room;
            && (Realloc(h, p, newSize).1.None? <==>
                  || size + h.header > h.end
                  || (move && forall i :: 0 <= i < |h.blocks| && !h.blocks[i].used ==>
                                Room(h, i) < want || (Room(h, i) == want && Next(h, i) == h.end)))
            && (Realloc(h, p, newSize).1 == Some(p) <==> size + h.header <= h.end && !move)
  {
    AlignIdempotent(newSize);
    MallocRefuses(h, Align(newSize));
    if Malloc(h, Align(newSize)).1.Some? {
      ReallocMoves(h, p, Align(newSize));
    }
    hide Align, FirstFit, Take, Free, PayloadsOf, Tiles, Coalesced, Shrink;
  }

  /** A block resized in place has exactly the rounded size afterwards. */
  lemma ResizedExtent(h: Heap, p: nat, newSize: nat)
    requires Good(h) && p in Payloads(h) && newSize < SIZE_SPAN && Realloc(h, p, newSize).1 == Some(p)
    ensures var r := Realloc(h, p, newSize).0; p in Payloads(r) && Payloads(r)[p] == p + Align(newSize)
  {
    hide Align, FirstFit, Take, Free, PayloadsOf, Tiles, Coalesced, Shrink, Malloc;
    var size, i := Align(newSize), IndexOf(h, p);
    if size + h.header <= h.end && size > 0 {
      AlignIdempotent(newSize);
      if Room(h, i) == size {
      } else if size + h.header + MIN_SIZE < Room(h, i) {
        ShrinkChanges(h, i, size);
      } else {
        ReallocMoves(h, p, size);
      }
    }
  }

  lemma AlignIdempotent(n: nat)
    requires n < SIZE_SPAN
    ensures Align(Align(n)) == Align(n)
  {
  }

  lemma ReallocMoves(h: Heap, p: nat, size: nat)
    requires Good(h) && p in Payloads(h) && 0 < size < SIZE_SPAN && Align(size) == size
    ensures var (m, q) := Malloc(h, size);
            && Good(m) && m.end == h.end && (q.None? ==> m == h) && p in Payloads(m)
            && (q.Some? ==>
                 var r := Free(m, IndexOf(m, p));
                 && Good(r) && r.end == h.end && q.value != p && q.value !in Payloads(h) && q.value in Payloads(r)
                 && Payloads(r)[q.value] - q.value >= size
                 && Payloads(r) == (Payloads(h) - {p})[q.value := Payloads(r)[q.value]])
  {
    hide UsedSum, LowestFree, PayloadsOf, Tiles, Align, FirstFit, Free, Coalesced;
    var (m, q) := Malloc(h, size);
    if q.Some? {
      var i := FirstFit(h, BlockSize(size), 0);
      TakeChanges(h, i, BlockSize(size));
      FreeChanges(m, IndexOf(m, p));
      FreeEnd(m, IndexOf(m, p));
    }
  }

  // ---------------------------------------------------------------------------------
  // Runs
  // ---------------------------------------------------------------------------------

  /** Calls by the program; a pointer it passes is live or the call is not made. */
  datatype Call = Allocate(size: nat) | Release(p: nat) | Resize(p: nat, size: nat)

  ghost function Step(h: Heap, c: Call): Heap
    requires Good(h)
  {
    match c
    case Allocate(size) => if size < SIZE_SPAN then Malloc(h, size).0 else h
    case Release(p) => if p in Payloads(h) then Free(h, IndexOf(h, p)) else h
    case Resize(p, size) => if p in Payloads(h) && size < SIZE_SPAN then Realloc(h, p, size).0 else h
  }

  ghost predicate Names(c: Call, p: nat) {
    match c
    case Allocate(_) => false
    case Release(q) => p == q
    case Resize(q, _) => p == q
  }

  /** A call keeps the heap good, and every live payload that it does not name stays where it is. */
  lemma StepKeeps(h: Heap, c: Call)
    requires Good(h) && h.end < SIZE_SPAN
    ensures Good(Step(h, c)) && Step(h, c).end == h.end
    ensures forall p :: p in Payloads(h) && !Names(c, p) ==>
            p in Payloads(Step(h, c)) && Payloads(Step(h, c))[p] == Payloads(h)[p]
  {
    hide Good, PayloadsOf, Free, Malloc, Realloc;
    match c {
      case Allocate(size) =>
        if size < SIZE_SPAN {
          MallocGrants(h, size);
        }
      case Release(p) =>
        if p in Payloads(h) {
          FreeChanges(h, IndexOf(h, p));
          FreeEnd(h, IndexOf(h, p));
        }
      case Resize(p, size) =>
        if p in Payloads(h) && size < SIZE_SPAN {
          ReallocChanges(h, p, size);
        }
    }
  }

  /** Any run keeps the blocks tiled and coalesced. */
  ghost function Run(h: Heap, calls: seq<Call>): (r: Heap)
    requires Good(h) && h.end < SIZE_SPAN
    ensures Good(r) && r.end == h.end
    decreases |calls|
  {
    if calls == [] then h
    else
      StepKeeps(h, calls[0]);
      Run(Step(h, calls[0]), calls[1..])
  }

  /** A payload stays live, at the same place and with the same extent, over any run that neither
      releases nor resizes it. */
  lemma {:induction false} LivePayloadStays(h: Heap, calls: seq<Call>, p: nat)
    requires Good(h) && h.end < SIZE_SPAN && p in Payloads(h) && forall c :: c in calls ==> !Names(c, p)
    ensures p in Payloads(Run(h, calls)) && Payloads(Run(h, calls))[p] == Payloads(h)[p]
    decreases |calls|
  {
    hide Good, PayloadsOf, Step, Names;
    if calls != [] {
      assert calls[0] in calls;
      StepKeeps(h, calls[0]);
      LivePayloadStays(Step(h, calls[0]), calls[1..], p);
    }
  }

  lemma {:induction false} FirstFitIs(h: Heap, size: nat, from: nat, k: nat)
    requires from <= k <= |h.blocks| && (k < |h.blocks| ==> Fits(h, k, size))
    requires forall j :: from <= j < k ==> !Fits(h, j, size)
    ensures FirstFit(h, size, from) == k
    decreases k - from
  {
    if from < k {
      FirstFitIs(h, size, from + 1, k);
    }
  }

  // ---------------------------------------------------------------------------------
  // The failing requests occur
  // ---------------------------------------------------------------------------------

  /** In a new heap of 100 free bytes a request for 100 bytes is refused. */
  lemma WholeHeapRefused()
    ensures var h := Heap([Block(0, false)], 112, HEADER);
            Good(h) && Room(h, 0) == 100 && Malloc(h, 100).1.None?
  {
  }

  /** In a new heap a request for 2^32 - 1 bytes is granted, with 12 bytes. */
  lemma MallocWraps()
    ensures var h := Heap([Block(0, false)], 112, HEADER);
            var (r, p) := Malloc(h, 0xFFFF_FFFF);
            Good(h) && p == Some(HEADER) && p.value in Payloads(r) && Payloads(r)[p.value] == p.value + 12
  {
    var h := Heap([Block(0, false)], 112, HEADER);
    assert Take(h, 0, 12).blocks == [Block(0, true), Block(24, false)];
  }

  /** Resizing the only payload to 2^32 - 1 bytes answers NULL and frees it. */
  lemma ReallocWraps()
    ensures var h := Heap([Block(0, true)], 112, HEADER);
            Good(h) && HEADER in Payloads(h) &&
                Realloc(h, HEADER, 0xFFFF_FFFF) == (Heap([Block(0, false)], 112, HEADER), None)
  {
    var h := Heap([Block(0, true)], 112, HEADER);
    PayloadOfBlock(h, 0);
    assert IndexOf(h, HEADER) == 0;
    assert Free(h, 0).blocks == [Block(0, false)];
  }
}
