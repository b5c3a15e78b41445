/** The block list and the free list of a memheap (rt-thread/src/memheap.c). */
module MemHeapSpec {
  import opened BlockList
  import opened SmallHeapSpec

  const ITEM_SIZE: nat := 24     // RT_MEMHEAP_SIZE

  /** The blocks, and the offsets of the free ones in free-list order. */
  datatype Pool = Pool(h: Heap, free: seq<nat>)

  /** Payload bytes of all free blocks: what available_size counts. */
  function FreeSum(blocks: seq<Block>, end: nat, hd: nat): int {
    if blocks == [] then 0
    else (if blocks[0].used then 0 else FirstOff(blocks[1..], end) - blocks[0].off - hd) + FreeSum(blocks[1..], end, hd)
  }

  function Available(h: Heap): int {
    FreeSum(h.blocks, h.end, h.header)
  }

  ghost predicate IsFree(h: Heap, off: nat) {
    exists i :: 0 <= i < |h.blocks| && h.blocks[i] == Block(off, false)
  }

  ghost predicate NoDup(s: seq<nat>) {
    forall i, j :: 0 <= i < j < |s| ==> s[i] != s[j]
  }

  /** Exactly the free blocks are on the free list, each once. */
  ghost predicate FreeExact(p: Pool) {
    NoDup(p.free) && forall off :: off in p.free <==> IsFree(p.h, off)
  }

  /** Every live payload has the minimum of a request. */
  ghost predicate Roomy(h: Heap) {
    forall q :: q in Payloads(h) ==> Payloads(h)[q] - q >= MIN_SIZE
  }

  ghost predicate GoodPool(p: Pool) {
    Good(p.h) && FreeExact(p) && Roomy(p.h) && p.h.header == ITEM_SIZE && p.h.end + ITEM_SIZE < SIZE_SPAN
  }

  // ---------------------------------------------------------------------------------
  // Operations
  // ---------------------------------------------------------------------------------

  /** The block that starts at off; none of them if it is the length of the list. */
  function BlockAt(blocks: seq<Block>, off: nat): (i: nat)
    ensures i <= |blocks| && (i < |blocks| ==> blocks[i].off == off)
    ensures forall k :: 0 <= k < i ==> blocks[k].off != off
  {
    if blocks == [] || blocks[0].off == off then 0 else BlockAt(blocks[1..], off) + 1
  }

  function RoomAt(h: Heap, off: nat): int {
    var i := BlockAt(h.blocks, off);
    if i < |h.blocks| then Room(h, i) else 0
  }

  /** The first entry of the free list that is large enough. */
  function FirstListed(h: Heap, free: seq<nat>, size: nat): (k: nat)
    ensures k <= |free| && (k < |free| ==> RoomAt(h, free[k]) >= size)
    ensures forall j :: 0 <= j < k ==> RoomAt(h, free[j]) < size
  {
    if free == [] || RoomAt(h, free[0]) >= size then 0 else FirstListed(h, free[1..], size) + 1
  }

  function Dropped(free: seq<nat>, off: nat): seq<nat> {
    if free == [] then []
    else if free[0] == off then free[1..]
    else [free[0]] + Dropped(free[1..], off)
  }

  /** RT_ALIGN and the minimum. */
  function Rounded(size: nat): (r: nat)
    requires size < SIZE_SPAN
    ensures r % WORD == 0 && r >= MIN_SIZE && r < SIZE_SPAN
    ensures size <= SIZE_SPAN - WORD ==> r >= size
    ensures size > SIZE_SPAN - WORD ==> r == MIN_SIZE
    ensures r + MIN_SIZE >= SIZE_SPAN <==> SIZE_SPAN - MIN_SIZE - WORD < size <= SIZE_SPAN - WORD
  {
    if Align(size) < MIN_SIZE then MIN_SIZE else Align(size)
  }

  /** Take size bytes from free block i: the rest, if any, goes to the head of the free list. */
  function TakeFrom(p: Pool, i: nat, size: nat): Pool
    requires i < |p.h.blocks|
  {
    var off := p.h.blocks[i].off;
    var rest := Dropped(p.free, off);
    Pool(Take(p.h, i, size),
         if Room(p.h, i) >= size + p.h.header + MIN_SIZE then [off + p.h.header + size] + rest else rest)
  }

  /** rt_memheap_alloc of an already rounded size. */
  function Alloc(p: Pool, size: nat): (Pool, Option<nat>) {
    if size >= Available(p.h) then (p, None)
    else
      var k := FirstListed(p.h, p.free, size);
      if k == |p.free| then (p, None)
      else
        var i := BlockAt(p.h.blocks, p.free[k]);
        if i == |p.h.blocks| then (p, None) else (TakeFrom(p, i, size), Some(p.free[k] + p.h.header))
  }

  predicate FreeBefore(h: Heap, i: nat) {
    0 < i <= |h.blocks| && !h.blocks[i - 1].used
  }

  predicate FreeAfter(h: Heap, i: nat) {
    i + 1 < |h.blocks| && !h.blocks[i + 1].used
  }

  /** rt_memheap_free of block i. */
  function FreeItem(p: Pool, i: nat): Pool
    requires i < |p.h.blocks|
  {
    var rest := if FreeAfter(p.h, i) then Dropped(p.free, p.h.blocks[i + 1].off) else p.free;
    Pool(Free(p.h, i), if FreeBefore(p.h, i) then rest else [p.h.blocks[i].off] + rest)
  }

  /** rt_memheap_realloc, growing used block i over the free block behind it. The address of the
      new item is a 32-bit sum. */
  function Grow(p: Pool, i: nat, size: nat): Pool
    requires i + 1 < |p.h.blocks|
  {
    var off := (p.h.blocks[i].off + p.h.header + size) % SIZE_SPAN;
    Pool(InsertAfter(Without(p.h, i + 1), i, Block(off, false)), [off] + Dropped(p.free, p.h.blocks[i + 1].off))
  }

  /** rt_memheap_realloc, cutting used block i down to size bytes. */
  function Cut(p: Pool, i: nat, size: nat): Pool
    requires i < |p.h.blocks|
  {
    var rest := if FreeAfter(p.h, i) then Dropped(p.free, p.h.blocks[i + 1].off) else p.free;
    Pool(Shrink(p.h, i, size), [p.h.blocks[i].off + p.h.header + size] + rest)
  }

  /** The test for growing in place, whose right-hand side is a 32-bit sum. */
  predicate CanGrow(h: Heap, i: nat, size: nat)
    requires i < |h.blocks|
  {
    FreeAfter(h, i) && Room(h, i + 1) + Room(h, i) > (size + MIN_SIZE) % SIZE_SPAN
  }

  // ---------------------------------------------------------------------------------
  // The free list as a sequence
  // ---------------------------------------------------------------------------------

  lemma {:induction false} DroppedMembers(free: seq<nat>, off: nat)
    requires NoDup(free)
    ensures NoDup(Dropped(free, off)) && forall x :: x in Dropped(free, off) <==> x in free && x != off
    ensures off !in free ==> Dropped(free, off) == free
  {
    if free != [] {
      assert free == [free[0]] + free[1..];
      DroppedMembers(free[1..], off);
      if free[0] != off {
        NoDupCons(free[0], Dropped(free[1..], off));
      }
    }
  }

  lemma NoDupCons(x: nat, s: seq<nat>)
    requires NoDup(s) && x !in s
    ensures NoDup([x] + s)
  {
  }

  lemma {:induction false} DroppedAt(free: seq<nat>, k: nat)
    requires NoDup(free) && k < |free|
    ensures Dropped(free, free[k]) == free[..k] + free[k + 1..]
  {
    if k > 0 {
      DroppedAt(free[1..], k - 1);
      assert free[..k] + free[k + 1..] == [free[0]] + (free[1..][..k - 1] + free[1..][k..]);
    }
  }

  lemma BlockAtIs(h: Heap, i: nat)
    requires Tiles(h) && i < |h.blocks|
    ensures BlockAt(h.blocks, h.blocks[i].off) == i
  {
    var k := BlockAt(h.blocks, h.blocks[i].off);
    if k < i {
      Ascending(h, k, i);
    }
  }

  /** Offsets are unique, so a free block is found by its offset. */
  lemma FreeAt(h: Heap, off: nat)
    requires Tiles(h) && IsFree(h, off)
    ensures var i := BlockAt(h.blocks, off);
            i < |h.blocks| && h.blocks[i] == Block(off, false) && RoomAt(h, off) == Room(h, i)
  {
    var i :| 0 <= i < |h.blocks| && h.blocks[i] == Block(off, false);
    BlockAtIs(h, i);
  }

  // ---------------------------------------------------------------------------------
  // Free bytes
  // ---------------------------------------------------------------------------------

  lemma {:induction false} FreeSumAppend(a: seq<Block>, b: seq<Block>, end: nat, hd: nat)
    ensures FreeSum(a + b, end, hd) == FreeSum(a, FirstOff(b, end), hd) + FreeSum(b, end, hd)
  {
    if a == [] {
      assert a + b == b;
    } else {
      assert (a + b)[1..] == a[1..] + b;
      FreeSumAppend(a[1..], b, end, hd);
    }
  }

  lemma FreeSumMiddle(a: seq<Block>, x: seq<Block>, y: seq<Block>, c: seq<Block>, end: nat, hd: nat)
    requires x != [] && y != [] && x[0].off == y[0].off
    ensures FreeSum(a + x + c, end, hd) - FreeSum(a + y + c, end, hd)
            == FreeSum(x, FirstOff(c, end), hd) - FreeSum(y, FirstOff(c, end), hd)
  {
    hide FreeSum;
    assert a + x + c == a + (x + c) && a + y + c == a + (y + c);
    FreeSumAppend(a, x + c, end, hd);
    FreeSumAppend(a, y + c, end, hd);
    FreeSumAppend(x, c, end, hd);
    FreeSumAppend(y, c, end, hd);
  }

  lemma FreeSumOne(b: Block, end: nat, hd: nat)
    ensures FreeSum([b], end, hd) == if b.used then 0 else end - b.off - hd
  {
  }

  lemma FreeSumTwo(a: Block, b: Block, end: nat, hd: nat)
    ensures FreeSum([a, b], end, hd) ==
            (if a.used then 0 else b.off - a.off - hd) + (if b.used then 0 else end - b.off - hd)
  {
    assert [a, b][1..] == [b];
    FreeSumOne(b, end, hd);
  }

  lemma SetUsedAvailable(h: Heap, i: nat, used: bool)
    requires i < |h.blocks| && h.blocks[i].used != used
    ensures Available(SetUsed(h, i, used)) == Available(h) + (if used then -Room(h, i) else Room(h, i))
  {
    hide FreeSum;
    var r := SetUsed(h, i, used);
    var a, c := h.blocks[..i], h.blocks[i + 1..];
    assert h.blocks == a + [h.blocks[i]] + c && r.blocks == a + [r.blocks[i]] + c;
    FreeSumMiddle(a, [h.blocks[i]], [r.blocks[i]], c, h.end, h.header);
    FreeSumOne(h.blocks[i], Next(h, i), h.header);
    FreeSumOne(r.blocks[i], Next(h, i), h.header);
  }

  lemma InsertAvailable(h: Heap, i: nat, off: nat)
    requires i < |h.blocks|
    ensures Available(InsertAfter(h, i, Block(off, false))) ==
            Available(h) + if h.blocks[i].used then Next(h, i) - off - h.header else -(h.header as int)
  {
    hide FreeSum;
    var b := Block(off, false);
    var r := InsertAfter(h, i, b);
    var a, c := h.blocks[..i], h.blocks[i + 1..];
    assert h.blocks == a + [h.blocks[i]] + c && r.blocks == a + [h.blocks[i], b] + c;
    FreeSumMiddle(a, [h.blocks[i]], [h.blocks[i], b], c, h.end, h.header);
    FreeSumOne(h.blocks[i], Next(h, i), h.header);
    FreeSumTwo(h.blocks[i], b, Next(h, i), h.header);
  }

  lemma WithoutAvailable(h: Heap, k: nat)
    requires 0 < k < |h.blocks| && !h.blocks[k].used
    ensures Available(Without(h, k)) == Available(h) + if h.blocks[k - 1].used then -Room(h, k) else h.header
  {
    hide FreeSum;
    var r := Without(h, k);
    var x, y := h.blocks[k - 1], h.blocks[k];
    var a, c := h.blocks[..k - 1], h.blocks[k + 1..];
    assert h.blocks == a + [x, y] + c && r.blocks == a + [x] + c;
    FreeSumMiddle(a, [x, y], [x], c, h.end, h.header);
    FreeSumOne(x, Next(h, k), h.header);
    FreeSumTwo(x, y, Next(h, k), h.header);
  }

  /** No free block has more room than all of them, and two of them have no more together. */
  lemma RoomWithinAvailable(h: Heap, i: nat)
    requires Tiles(h) && i < |h.blocks| && !h.blocks[i].used
    ensures Room(h, i) <= Available(h)
    ensures Room(h, i) == Available(h) <==> forall j :: 0 <= j < |h.blocks| && !h.blocks[j].used ==> j == i
  {
    hide FreeSum, Tiles;
    var u := SetUsed(h, i, true);
    SetUsedAvailable(h, i, true);
    SetUsedTiles(h, i, true);
    AvailablePositive(u);
    forall j | 0 <= j < |h.blocks|
      ensures j != i ==> u.blocks[j] == h.blocks[j]
    {
    }
    assert u.blocks[i].used;
  }

  lemma {:induction false} FreeSumSign(blocks: seq<Block>, end: nat, hd: nat)
    requires Stretch(blocks, end, hd)
    ensures FreeSum(blocks, end, hd) >= 0
    ensures FreeSum(blocks, end, hd) == 0 <==> forall j :: 0 <= j < |blocks| ==> blocks[j].used
  {
    if blocks != [] {
      StretchRest(blocks, end, hd);
      FreeSumSign(blocks[1..], end, hd);
      assert Following(blocks, end, 0) == FirstOff(blocks[1..], end);
      assert blocks == [blocks[0]] + blocks[1..];
    }
  }

  lemma AvailablePositive(h: Heap)
    requires Tiles(h)
    ensures Available(h) >= 0 && (Available(h) == 0 <==> forall j :: 0 <= j < |h.blocks| ==> h.blocks[j].used)
  {
    StretchOf(h, 0);
    assert h.blocks[0..] == h.blocks;
    FreeSumSign(h.blocks, h.end, h.header);
  }

  // ---------------------------------------------------------------------------------
  // Which blocks are free after each primitive change
  // ---------------------------------------------------------------------------------

  lemma SetUsedFrees(h: Heap, i: nat, used: bool, off: nat)
    requires Tiles(h) && i < |h.blocks|
    ensures IsFree(SetUsed(h, i, used), off) <==> if off == h.blocks[i].off then !used else IsFree(h, off)
  {
    hide Tiles;
    var r := SetUsed(h, i, used);
    SetUsedTiles(h, i, used);
    if off != h.blocks[i].off {
      SameElsewhere(h, r, i, off);
    }
    BlockAtIs(h, i);
    BlockAtIs(r, i);
    if IsFree(r, off) {
      FreeAt(r, off);
    }
    assert r.blocks[i] == Block(h.blocks[i].off, used);
  }

  lemma SameElsewhere(h: Heap, r: Heap, i: nat, off: nat)
    requires |r.blocks| == |h.blocks| && i < |h.blocks| && h.blocks[i].off == r.blocks[i].off != off
    requires forall k :: 0 <= k < |h.blocks| && k != i ==> r.blocks[k] == h.blocks[k]
    ensures IsFree(r, off) <==> IsFree(h, off)
  {
    if IsFree(h, off) {
      var k :| 0 <= k < |h.blocks| && h.blocks[k] == Block(off, false);
      assert r.blocks[k] == Block(off, false);
    }
    if IsFree(r, off) {
      var k :| 0 <= k < |r.blocks| && r.blocks[k] == Block(off, false);
      assert h.blocks[k] == Block(off, false);
    }
  }

  lemma InsertFrees(h: Heap, i: nat, off: nat, x: nat)
    requires i < |h.blocks|
    ensures IsFree(InsertAfter(h, i, Block(off, false)), x) <==> x == off || IsFree(h, x)
  {
    var r := InsertAfter(h, i, Block(off, false));
    assert r.blocks[i + 1] == Block(off, false);
    if IsFree(h, x) {
      var k :| 0 <= k < |h.blocks| && h.blocks[k] == Block(x, false);
      assert r.blocks[if k <= i then k else k + 1] == Block(x, false);
    }
    if IsFree(r, x) && x != off {
      var k :| 0 <= k < |r.blocks| && r.blocks[k] == Block(x, false);
      assert h.blocks[if k <= i then k else k - 1] == Block(x, false);
    }
  }

  lemma WithoutFrees(h: Heap, k: nat, x: nat)
    requires Tiles(h) && k < |h.blocks|
    ensures IsFree(Without(h, k), x) <==> x != h.blocks[k].off && IsFree(h, x)
  {
    hide Tiles;
    var r := Without(h, k);
    if IsFree(h, x) && x != h.blocks[k].off {
      var j :| 0 <= j < |h.blocks| && h.blocks[j] == Block(x, false);
      assert r.blocks[if j < k then j else j - 1] == Block(x, false);
    }
    if IsFree(r, x) {
      var j :| 0 <= j < |r.blocks| && r.blocks[j] == Block(x, false);
      assert h.blocks[if j < k then j else j + 1] == Block(x, false);
      if j < k {
        Ascending(h, j, k);
      } else {
        Ascending(h, k, j + 1);
      }
    }
  }

  // ---------------------------------------------------------------------------------
  // What each operation does
  // ---------------------------------------------------------------------------------

  /** Allocating keeps both lists exact, adds one payload, and takes from the free bytes what the
      code subtracts. */
  lemma TakeFromChanges(p: Pool, i: nat, size: nat)
    requires GoodPool(p) && i < |p.h.blocks| && !p.h.blocks[i].used
    requires Room(p.h, i) >= size && size % WORD == 0 && size >= MIN_SIZE
    ensures var r := TakeFrom(p, i, size);
            var q := p.h.blocks[i].off + p.h.header;
            && GoodPool(r) && i < |r.h.blocks| && q + size <= Next(r.h, i) && q !in Payloads(p.h)
            && Payloads(r.h) == Payloads(p.h)[q := Next(r.h, i)]
            && Available(r.h) == Available(p.h) -
                 (if Room(p.h, i) >= size + p.h.header + MIN_SIZE then size + p.h.header else Room(p.h, i))
  {
    hide UsedSum, LowestFree, PayloadsOf, Tiles, FreeSum, Coalesced, NoDup, IsFree, Dropped;
    var h, off := p.h, p.h.blocks[i].off;
    TakeChanges(h, i, size);
    SetUsedAvailable(h, i, true);
    DroppedMembers(p.free, off);
    var u := SetUsed(h, i, true);
    SetUsedTiles(h, i, true);
    forall x: nat
      ensures IsFree(u, x) <==> x != off && IsFree(h, x)
    {
      SetUsedFrees(h, i, true, x);
    }
    if Room(h, i) >= size + h.header + MIN_SIZE {
      var rest := off + h.header + size;
      InsertAvailable(u, i, rest);
      forall x: nat
        ensures IsFree(Take(h, i, size), x) <==> x == rest || IsFree(u, x)
      {
        InsertFrees(u, i, rest, x);
      }
      NotABlock(h, i, rest);
      NoDupCons(rest, Dropped(p.free, off));
    }
  }

  /** An offset strictly inside block i is not the offset of any block. */
  lemma NotABlock(h: Heap, i: nat, off: nat)
    requires Tiles(h) && i < |h.blocks| && h.blocks[i].off < off < Next(h, i)
    ensures !IsFree(h, off)
  {
    hide Tiles;
    if IsFree(h, off) {
      var k :| 0 <= k < |h.blocks| && h.blocks[k] == Block(off, false);
      if k < i {
        Ascending(h, k, i);
      } else if k > i {
        Ascending(h, i, k);
      }
    }
  }

  /** rt_memheap_alloc keeps the pool good and grants a payload of at least the size, disjoint
      from the others by LivePayloadsDisjoint. */
  lemma AllocChanges(p: Pool, size: nat)
    requires GoodPool(p) && size % WORD == 0 && size >= MIN_SIZE
    ensures var (r, q) := Alloc(p, size);
            && GoodPool(r) && r.h.end == p.h.end && r.h.header == p.h.header
            && (q.None? ==> r == p)
            && (q.Some? ==>
                  q.value !in Payloads(p.h) && q.value in Payloads(r.h) && Payloads(r.h)[q.value] - q.value >= size
                            && Payloads(r.h) == Payloads(p.h)[q.value := Payloads(r.h)[q.value]])
  {
    hide UsedSum, LowestFree, PayloadsOf, Tiles, FreeSum, Coalesced, NoDup, IsFree, Dropped, BlockAt, FirstListed,
        GoodPool;
    var (r, q) := Alloc(p, size);
    if q.Some? {
      FoundBlock(p, size);
      TakeFromChanges(p, BlockAt(p.h.blocks, p.free[FirstListed(p.h, p.free, size)]), size);
    }
  }

  /** All but the k-th entry. */
  function CutOut(free: seq<nat>, k: nat): seq<nat>
    requires k < |free|
  {
    free[..k] + free[k + 1..]
  }

  /** Which item a granted request comes from, and how much of it: the first one on the free list that
      is large enough, cut to the size if the rest is worth an item, which then heads the list. */
  lemma GrantedExtent(p: Pool, size: nat) returns (k: nat, i: nat)
    requires GoodPool(p) && size % WORD == 0 && size >= MIN_SIZE && Alloc(p, size).1.Some?
    ensures k < |p.free| && i < |p.h.blocks| && p.h.blocks[i] == Block(p.free[k], false) && Room(p.h, i) >= size
    ensures forall j :: 0 <= j < k ==> RoomAt(p.h, p.free[j]) < size
    ensures var (r, q) := Alloc(p, size);
            && q.value == p.free[k] + 24 && q.value in Payloads(r.h)
            && Payloads(r.h)[q.value] == if Room(p.h, i) >= size + 36 then p.free[k] + 24 + size else Next(p.h, i)
    ensures var r := Alloc(p, size).0;
            && (Room(p.h, i) >= size + 36 ==> r.free == [p.free[k] + 24 + size] + CutOut(p.free, k))
            && (Room(p.h, i) < size + 36 ==> r.free == CutOut(p.free, k))
  {
    assert p.h.header == ITEM_SIZE && NoDup(p.free);
    hide PayloadsOf, GoodPool, Dropped, BlockAt, FirstListed, RoomAt, TakeFrom, Take, NoDup, FreeSum, CutOut;
    FoundBlock(p, size);
    k := FirstListed(p.h, p.free, size);
    i := BlockAt(p.h.blocks, p.free[k]);
    assert Alloc(p, size) == (TakeFrom(p, i, size), Some(p.free[k] + p.h.header));
    hide Alloc;
    TakeFromChanges(p, i, size);
    TakeNext(p.h, i, size);
    TakeList(p, i, size, k);
  }

  lemma TakeNext(h: Heap, i: nat, size: nat)
    requires i < |h.blocks|
    ensures var r := Take(h, i, size);
            && i < |r.blocks|
            && (Room(h, i) >= size + h.header + MIN_SIZE ==> Next(r, i) == h.blocks[i].off + h.header + size)
            && (Room(h, i) < size + h.header + MIN_SIZE ==> Next(r, i) == Next(h, i))
  {
  }

  lemma TakeList(p: Pool, i: nat, size: nat, k: nat)
    requires NoDup(p.free) && i < |p.h.blocks| && k < |p.free| && p.free[k] == p.h.blocks[i].off && p.h.header == 24
    ensures TakeFrom(p, i, size).h == Take(p.h, i, size)
    ensures Room(p.h, i) >= size + 36 ==>
              TakeFrom(p, i, size).free == [p.free[k] + 24 + size] + CutOut(p.free, k)
    ensures Room(p.h, i) < size + 36 ==>
              TakeFrom(p, i, size).free == CutOut(p.free, k)
  {
    DroppedAt(p.free, k);
    hide Dropped, Take;
  }

  /** A freed item heads the free list unless the item before it was free; the others keep their
      order, without the item behind it if that was free. */
  lemma ReleasedOrder(p: Pool, i: nat)
    requires GoodPool(p) && i < |p.h.blocks| && p.h.blocks[i].used
    ensures var before := i > 0 && !p.h.blocks[i - 1].used;
            var after := i + 1 < |p.h.blocks| && !p.h.blocks[i + 1].used;
            var head := if before then [] else [p.h.blocks[i].off];
            && (!after ==> FreeItem(p, i).free == head + p.free)
            && (after ==> exists k :: 0 <= k < |p.free| && p.free[k] == p.h.blocks[i + 1].off
                            && FreeItem(p, i).free == head + CutOut(p.free, k))
  {
    if FreeAfter(p.h, i) {
      ListedRoom(p, i + 1);
      var k: nat :| k < |p.free| && p.free[k] == p.h.blocks[i + 1].off;
      DroppedAt(p.free, k);
    }
    hide Tiles, Coalesced, NoDup, IsFree, Dropped, Free, GoodPool;
  }

  /** rt_memheap_alloc of any 32-bit size: what is granted holds the size asked for exactly when
      rounding it up does not wrap. */
  lemma AllocGrants(p: Pool, size: nat)
    requires GoodPool(p) && size < SIZE_SPAN
    ensures var (r, q) := Alloc(p, Rounded(size));
            && GoodPool(r)
            && (q.None? ==> r == p)
            && (q.Some? ==> q.value !in Payloads(p.h) && q.value in Payloads(r.h)
                            && Payloads(r.h) == Payloads(p.h)[q.value := Payloads(r.h)[q.value]]
                            && (Payloads(r.h)[q.value] - q.value >= size <==> size <= SIZE_SPAN - WORD))
  {
    hide PayloadsOf, Alloc, Rounded, FreeExact, Coalesced, Tiles;
    AllocChanges(p, Rounded(size));
    var (r, q) := Alloc(p, Rounded(size));
    if q.Some? {
      PayloadBelowEnd(r.h, q.value);
    }
  }

  lemma PayloadBelowEnd(h: Heap, q: nat)
    requires Tiles(h) && q in Payloads(h)
    ensures Payloads(h)[q] <= h.end
  {
    BelowEnd(h, IndexOf(h, q));
  }

  /** What the free list holds is a free block with the room that the search saw. */
  lemma FoundBlock(p: Pool, size: nat)
    requires GoodPool(p)
    ensures var k := FirstListed(p.h, p.free, size);
            k < |p.free| ==>
              var i := BlockAt(p.h.blocks, p.free[k]);
              i < |p.h.blocks| && p.h.blocks[i] == Block(p.free[k], false) && Room(p.h, i) >= size
  {
    hide Tiles, NoDup, BlockAt, FirstListed, IsFree;
    var k := FirstListed(p.h, p.free, size);
    if k < |p.free| {
      assert p.free[k] in p.free;
      FreeAt(p.h, p.free[k]);
    }
  }

  /** rt_memheap_alloc refuses exactly when every free block is too small, except that it also
      refuses an exact fit in the only free block. */
  lemma AllocRefuses(p: Pool, size: nat)
    requires GoodPool(p) && size > 0
    ensures Alloc(p, size).1.None? <==>
              forall i :: 0 <= i < |p.h.blocks| && !p.h.blocks[i].used ==>
                Room(p.h, i) < size
                || (Room(p.h, i) == size && forall j :: 0 <= j < |p.h.blocks| && !p.h.blocks[j].used ==> j == i)
  {
    hide Tiles, NoDup, BlockAt, FirstListed, FreeSum, IsFree;
    var h := p.h;
    forall i | 0 <= i < |h.blocks| && !h.blocks[i].used
      ensures Room(h, i) <= Available(h)
      ensures Room(h, i) == Available(h) <==> forall j :: 0 <= j < |h.blocks| && !h.blocks[j].used ==> j == i
    {
      RoomWithinAvailable(h, i);
    }
    FoundBlock(p, size);
    var k := FirstListed(h, p.free, size);
    if k == |p.free| {
      forall i | 0 <= i < |h.blocks| && !h.blocks[i].used
        ensures Room(h, i) < size
      {
        ListedRoom(p, i);
        var j :| 0 <= j < |p.free| && p.free[j] == h.blocks[i].off;
      }
    }
  }

  lemma ListedRoom(p: Pool, i: nat)
    requires GoodPool(p) && i < |p.h.blocks| && !p.h.blocks[i].used
    ensures p.h.blocks[i].off in p.free && RoomAt(p.h, p.h.blocks[i].off) == Room(p.h, i)
  {
    hide Tiles;
    assert p.h.blocks[i] == Block(p.h.blocks[i].off, false);
    BlockAtIs(p.h, i);
  }

  /** rt_memheap_free keeps both lists exact, removes that payload, and adds to the free bytes
      what the code adds. */
  lemma ReleaseChanges(p: Pool, i: nat)
    requires GoodPool(p) && i < |p.h.blocks| && p.h.blocks[i].used
    ensures var r := FreeItem(p, i);
            var q := p.h.blocks[i].off + p.h.header;
            && GoodPool(r) && r.h.end == p.h.end && r.h.header == p.h.header
            && q in Payloads(p.h) && Payloads(r.h) == Payloads(p.h) - {q}
            && Available(r.h) == Available(p.h) + Room(p.h, i)
                 + (if FreeBefore(p.h, i) then p.h.header else 0) + (if FreeAfter(p.h, i) then p.h.header else 0)
  {
    hide UsedSum, LowestFree, PayloadsOf, FreeSum, Coalesced, NoDup, IsFree, Dropped, Tiles;
    FreeChanges(p.h, i);
    ReleaseAvailable(p.h, i);
    FreeEnd(p.h, i);
    ReleaseListed(p, i);
  }

  lemma ReleaseAvailable(h: Heap, i: nat)
    requires i < |h.blocks| && h.blocks[i].used
    ensures Available(Free(h, i)) == Available(h) + Room(h, i)
              + (if FreeBefore(h, i) then h.header else 0) + (if FreeAfter(h, i) then h.header else 0)
  {
    hide FreeSum;
    var u := SetUsed(h, i, false);
    SetUsedAvailable(h, i, false);
    if FreeAfter(h, i) {
      WithoutAvailable(u, i + 1);
    }
    if FreeBefore(h, i) {
      WithoutAvailable(MergeForward(u, i), i);
    }
  }

  lemma ReleaseListed(p: Pool, i: nat)
    requires GoodPool(p) && i < |p.h.blocks| && p.h.blocks[i].used
    ensures FreeExact(FreeItem(p, i))
  {
    hide FreeSum, Coalesced, NoDup, IsFree, Dropped, Tiles;
    var h, off := p.h, p.h.blocks[i].off;
    var u := SetUsed(h, i, false);
    SetUsedTiles(h, i, false);
    forall x: nat
      ensures IsFree(u, x) <==> x == off || IsFree(h, x)
    {
      SetUsedFrees(h, i, false, x);
    }
    UsedNotFree(h, i);
    var f := MergeForward(u, i);
    var rest := p.free;
    if FreeAfter(h, i) {
      var y := h.blocks[i + 1].off;
      rest := Dropped(p.free, y);
      DroppedMembers(p.free, y);
      WithoutTiles(u, i + 1);
      forall x: nat
        ensures IsFree(f, x) <==> x != y && IsFree(u, x)
      {
        WithoutFrees(u, i + 1, x);
      }
      Ascending(h, i, i + 1);
    }
    assert NoDup(rest) && forall x :: x in rest <==> x != off && IsFree(f, x);
    if FreeBefore(h, i) {
      forall x: nat
        ensures IsFree(Without(f, i), x) <==> x != off && IsFree(f, x)
      {
        WithoutFrees(f, i, x);
      }
    } else {
      NoDupCons(off, rest);
    }
  }

  lemma UsedNotFree(h: Heap, i: nat)
    requires Tiles(h) && i < |h.blocks| && h.blocks[i].used
    ensures !IsFree(h, h.blocks[i].off)
  {
    hide Tiles;
    BlockAtIs(h, i);
    if IsFree(h, h.blocks[i].off) {
      FreeAt(h, h.blocks[i].off);
    }
  }

  /** Dropping the free block behind used block i hands its bytes to block i. */
  lemma AbsorbPayloads(h: Heap, i: nat)
    requires Tiles(h) && i + 1 < |h.blocks| && h.blocks[i].used && !h.blocks[i + 1].used
    ensures var r := Without(h, i + 1);
            Tiles(r) && Next(r, i) == Next(h, i + 1) &&
                Payloads(r) == Payloads(h)[h.blocks[i].off + h.header := Next(h, i + 1)]
  {
    hide PayloadsOf, Tiles;
    var r := Without(h, i + 1);
    WithoutTiles(h, i + 1);
    BelowEnd(h, i);
    var before, after := PayloadsAround(h, i);
    var before', after' := PayloadsAround(r, i);
    assert r.blocks[..i] == h.blocks[..i] && r.blocks[i + 1..] == h.blocks[i + 2..];
    assert h.blocks[i + 1..] == [h.blocks[i + 1]] + h.blocks[i + 2..];
    FreeFirst(h.blocks[i + 1], h.blocks[i + 2..], h.end, h.header);
  }

  /** Growing in place moves the end of that payload out, and nothing else. */
  lemma GrowChanges(p: Pool, i: nat, size: nat)
    requires GoodPool(p) && i < |p.h.blocks| && p.h.blocks[i].used && CanGrow(p.h, i, size)
    requires size % WORD == 0 && Room(p.h, i) < size && size + MIN_SIZE < SIZE_SPAN
    ensures var r := Grow(p, i, size);
            var q := p.h.blocks[i].off + p.h.header;
            && GoodPool(r) && r.h.end == p.h.end && r.h.header == p.h.header
            && q in Payloads(p.h) && Payloads(p.h)[q] == Next(p.h, i) && Payloads(r.h) == Payloads(p.h)[q := q + size]
  {
    hide UsedSum, LowestFree, PayloadsOf, FreeSum, Coalesced, NoDup, IsFree, Dropped, Tiles;
    var h := p.h;
    var w := Without(h, i + 1);
    var off := h.blocks[i].off + h.header + size;
    PayloadOfBlock(h, i);
    BelowEnd(h, i);
    BelowEnd(h, i + 1);
    AbsorbPayloads(h, i);
    OffsetAligned(h, i, size);
    SplitSum(w, i, off);
    SplitPayloads(w, i, off);
    GrowCoalesces(h, i, off);
    GrowListed(p, i, size);
  }

  /** The counter follows, even where the sums wrap: what is subtracted is taken modulo 2^32. */
  lemma GrowAvailable(p: Pool, i: nat, size: nat)
    requires i + 1 < |p.h.blocks| && p.h.blocks[i].used && !p.h.blocks[i + 1].used && size < SIZE_SPAN
    requires Next(p.h, i + 1) < SIZE_SPAN
    ensures var wrap := if p.h.blocks[i].off + p.h.header + size < SIZE_SPAN then 0 else SIZE_SPAN;
            p.h.blocks[i].off + p.h.header < SIZE_SPAN ==>
              Available(Grow(p, i, size).h) == Available(p.h) - (size - Room(p.h, i)) + wrap
  {
    hide FreeSum;
    var off := (p.h.blocks[i].off + p.h.header + size) % SIZE_SPAN;
    WithoutAvailable(p.h, i + 1);
    InsertAvailable(Without(p.h, i + 1), i, off);
  }

  /** Where the sums wrap, the header of the new free item lies across the header of the block
      and the first bytes of its payload. */
  lemma GrowBreaks(p: Pool, i: nat, size: nat)
    requires GoodPool(p) && i + 1 < |p.h.blocks| && p.h.blocks[i].used
    requires size < SIZE_SPAN <= size + MIN_SIZE
    ensures var r := Grow(p, i, size);
            var q := p.h.blocks[i].off + p.h.header;
            && !GoodPool(r) && r.h.end == p.h.end && r.h.header == p.h.header
            && i + 1 < |r.h.blocks| && r.h.blocks[i + 1] == Block(q + size - SIZE_SPAN, false)
            && q - MIN_SIZE <= r.h.blocks[i + 1].off < q
  {
    hide Coalesced, NoDup, IsFree, Dropped, PayloadsOf, FreeExact;
    BelowEnd(p.h, i);
    var r := Grow(p, i, size);
    assert Room(r.h, i) < WORD;
  }

  lemma GrowCoalesces(h: Heap, i: nat, off: nat)
    requires Coalesced(h) && i + 1 < |h.blocks| && !h.blocks[i + 1].used
    ensures Coalesced(InsertAfter(Without(h, i + 1), i, Block(off, false)))
  {
    var r := InsertAfter(Without(h, i + 1), i, Block(off, false));
    forall k | 0 <= k < |r.blocks| - 1
      ensures OneUsed(r, k)
    {
      assert OneUsed(h, k);
    }
  }

  lemma GrowListed(p: Pool, i: nat, size: nat)
    requires GoodPool(p) && i < |p.h.blocks| && p.h.blocks[i].used && CanGrow(p.h, i, size)
    requires Room(p.h, i) < size && size + MIN_SIZE < SIZE_SPAN
    ensures FreeExact(Grow(p, i, size))
  {
    hide FreeSum, Coalesced, NoDup, IsFree, Dropped, Tiles;
    var h, y := p.h, p.h.blocks[i + 1].off;
    var w := Without(h, i + 1);
    var off := h.blocks[i].off + h.header + size;
    DroppedMembers(p.free, y);
    WithoutTiles(h, i + 1);
    forall x: nat
      ensures IsFree(w, x) <==> x != y && IsFree(h, x)
    {
      WithoutFrees(h, i + 1, x);
    }
    forall x: nat
      ensures IsFree(InsertAfter(w, i, Block(off, false)), x) <==> x == off || IsFree(w, x)
    {
      InsertFrees(w, i, off, x);
    }
    BelowEnd(h, i);
    BelowEnd(h, i + 1);
    assert w.blocks[i] == h.blocks[i] && Next(w, i) == Next(h, i + 1);
    NotABlock(w, i, off);
    NoDupCons(off, Dropped(p.free, y));
  }

  /** Cutting in place moves the end of that payload in, and nothing else. */
  lemma CutChanges(p: Pool, i: nat, size: nat)
    requires GoodPool(p) && i < |p.h.blocks| && p.h.blocks[i].used
    requires size % WORD == 0 && size >= MIN_SIZE && size + p.h.header + MIN_SIZE < Room(p.h, i)
    ensures var r := Cut(p, i, size);
            var q := p.h.blocks[i].off + p.h.header;
            && GoodPool(r) && r.h.end == p.h.end && r.h.header == p.h.header
            && q in Payloads(p.h) && Payloads(p.h)[q] == Next(p.h, i) && Payloads(r.h) == Payloads(p.h)[q := q + size]
            && Available(r.h) == Available(p.h) + (Room(p.h, i) - size - p.h.header) +
                (if FreeAfter(p.h, i) then p.h.header else 0)
  {
    hide UsedSum, LowestFree, PayloadsOf, FreeSum, Coalesced, NoDup, IsFree, Dropped, Tiles;
    ShrinkChanges(p.h, i, size);
    ShrinkEnd(p.h, i, size);
    CutAvailable(p.h, i, size);
    CutListed(p, i, size);
  }

  lemma CutAvailable(h: Heap, i: nat, size: nat)
    requires i < |h.blocks| && h.blocks[i].used
    ensures Available(Shrink(h, i, size)) ==
              Available(h) + (Room(h, i) - size - h.header) + (if FreeAfter(h, i) then h.header else 0)
  {
    hide FreeSum;
    var off := h.blocks[i].off + h.header + size;
    var u := InsertAfter(h, i, Block(off, false));
    InsertAvailable(h, i, off);
    if FreeAfter(h, i) {
      WithoutAvailable(u, i + 2);
    }
  }

  lemma CutListed(p: Pool, i: nat, size: nat)
    requires GoodPool(p) && i < |p.h.blocks| && p.h.blocks[i].used
    requires size % WORD == 0 && size >= MIN_SIZE && size + p.h.header + MIN_SIZE < Room(p.h, i)
    ensures FreeExact(Cut(p, i, size))
  {
    hide FreeSum, Coalesced, NoDup, IsFree, Dropped, Tiles;
    var h := p.h;
    var off := h.blocks[i].off + h.header + size;
    var b := Block(off, false);
    var u := InsertAfter(h, i, b);
    OffsetAligned(h, i, size);
    InsertTiles(h, i, b);
    forall x: nat
      ensures IsFree(u, x) <==> x == off || IsFree(h, x)
    {
      InsertFrees(h, i, off, x);
    }
    NotABlock(h, i, off);
    if FreeAfter(h, i) {
      var y := h.blocks[i + 1].off;
      DroppedMembers(p.free, y);
      forall x: nat
        ensures IsFree(Without(u, i + 2), x) <==> x != y && IsFree(u, x)
      {
        WithoutFrees(u, i + 2, x);
      }
      NoDupCons(off, Dropped(p.free, y));
    } else {
      NoDupCons(off, p.free);
    }
  }

  // ---------------------------------------------------------------------------------
  // rt_memheap_realloc and runs
  // ---------------------------------------------------------------------------------

  lemma AllocKeepsLive(p: Pool, size: nat, q: nat)
    requires GoodPool(p) && size % WORD == 0 && size >= MIN_SIZE && q in Payloads(p.h)
    ensures q in Payloads(Alloc(p, size).0.h) && GoodPool(Alloc(p, size).0)
  {
    hide PayloadsOf, GoodPool, Alloc;
    AllocChanges(p, size);
  }

  /** rt_memheap_realloc of the live payload q. */
  ghost function Realloc(p: Pool, q: nat, newSize: nat): (Pool, Option<nat>)
    requires GoodPool(p) && q in Payloads(p.h) && newSize < SIZE_SPAN
  {
    var i := IndexOf(p.h, q);
    if newSize == 0 then (FreeItem(p, i), None)
    else
      var size := Rounded(newSize);
      if size > Room(p.h, i) then
        if CanGrow(p.h, i, size) then (Grow(p, i, size), Some(q))
        else
          var r := Alloc(p, size);
          AllocKeepsLive(p, size, q);
          if r.1.None? then r else (FreeItem(r.0, IndexOf(r.0.h, q)), r.1)
      else if size + p.h.header + MIN_SIZE >= Room(p.h, i) then (p, Some(q))
      else (Cut(p, i, size), Some(q))
  }

  /** The requests that break the pool: a free item lies behind the block, and the rounded size
      plus the minimum wraps, so that the test for growing in place succeeds. */
  predicate Breaks(h: Heap, i: nat, newSize: nat)
    requires i < |h.blocks|
  {
    FreeAfter(h, i) && SIZE_SPAN - MIN_SIZE - WORD < newSize <= SIZE_SPAN - WORD
  }

  lemma BreakingGrows(p: Pool, i: nat, newSize: nat)
    requires GoodPool(p) && i < |p.h.blocks| && p.h.blocks[i].used && newSize < SIZE_SPAN
    ensures var size := Rounded(newSize);
            size > Room(p.h, i) && CanGrow(p.h, i, size) && size + MIN_SIZE >= SIZE_SPAN <==> Breaks(p.h, i, newSize)
  {
    hide Rounded, PayloadsOf, Coalesced, FreeExact;
    PayloadOfBlock(p.h, i);
    BelowEnd(p.h, i);
    if FreeAfter(p.h, i) {
      BelowEnd(p.h, i + 1);
    }
  }

  /** Unless the request breaks the pool: for a non-zero size, NULL leaves the pool as it was;
      otherwise the payload is now at the answer, at least the rounded size long, and every other
      payload stays. */
  lemma ReallocChanges(p: Pool, q: nat, newSize: nat)
    requires GoodPool(p) && q in Payloads(p.h) && newSize < SIZE_SPAN && !Breaks(p.h, IndexOf(p.h, q), newSize)
    ensures var (r, a) := Realloc(p, q, newSize);
            && GoodPool(r) && r.h.end == p.h.end && r.h.header == p.h.header
            && (newSize == 0 ==> a.None? && Payloads(r.h) == Payloads(p.h) - {q})
            && (newSize > 0 && a.None? ==> r == p)
            && (a.Some? ==> a.value in Payloads(r.h) && Payloads(r.h)[a.value] - a.value >= Rounded(newSize)
                            && Payloads(r.h) == (Payloads(p.h) - {q})[a.value := Payloads(r.h)[a.value]]
                            && (a.value != q ==> a.value !in Payloads(p.h)))
  {
    hide PayloadsOf, Tiles, Rounded, FreeItem, Grow, Cut, GoodPool, Alloc, CanGrow;
    var i := IndexOf(p.h, q);
    if newSize == 0 {
      ReleaseChanges(p, i);
    } else {
      var size := Rounded(newSize);
      if size > Room(p.h, i) {
        BreakingGrows(p, i, newSize);
        if CanGrow(p.h, i, size) {
          GrowChanges(p, i, size);
        } else {
          AllocChanges(p, size);
          AllocKeepsLive(p, size, q);
          var (m, a) := Alloc(p, size);
          if a.Some? {
            ReleaseChanges(m, IndexOf(m.h, q));
          }
        }
      } else if size + p.h.header + MIN_SIZE >= Room(p.h, i) {
      } else {
        CutChanges(p, i, size);
      }
    }
  }

  /** A breaking request is answered with success, and a new item header is written over the
      header of the block and the start of its payload. */
  lemma ReallocBreaks(p: Pool, q: nat, newSize: nat)
    requires GoodPool(p) && q in Payloads(p.h) && newSize < SIZE_SPAN && Breaks(p.h, IndexOf(p.h, q), newSize)
    ensures var (r, a) := Realloc(p, q, newSize);
            var i := IndexOf(p.h, q);
            && !GoodPool(r) && a == Some(q) && r == Grow(p, i, Rounded(newSize))
            && i + 1 < |r.h.blocks| && !r.h.blocks[i + 1].used
            && r.h.blocks[i + 1].off < q < r.h.blocks[i + 1].off + ITEM_SIZE
  {
    hide PayloadsOf, Rounded, Grow, GoodPool, CanGrow;
    BreakingGrows(p, IndexOf(p.h, q), newSize);
    GrowBreaks(p, IndexOf(p.h, q), Rounded(newSize));
  }

  /** rt_memheap_realloc to a non-zero size answers NULL exactly when the block is too small, no free
      item behind it passes the test for growing, and every free block is too small, or the only one
      an exact fit; it stays in place exactly when the block is large enough or can grow. */
  lemma ReallocRefuses(p: Pool, q: nat, newSize: nat)
    requires GoodPool(p) && q in Payloads(p.h) && 0 < newSize < SIZE_SPAN
    ensures var h, i, size := p.h, IndexOf(p.h, q), Rounded(newSize);
            var grows := i + 1 < |h.blocks| && !h.blocks[i + 1].used
                         && Room(h, i + 1) + Room(h, i) > (size + 12) % 0x1_0000_0000;
            && (Realloc(p, q, newSize).1.None? <==>
                  && size > Room(h, i) && !grows
                  && forall k :: 0 <= k < |h.blocks| && !h.blocks[k].used ==>
                       || Room(h, k) < size
                       || (Room(h, k) == size && forall j :: 0 <= j < |h.blocks| && !h.blocks[j].used ==> j == k))
            && (Realloc(p, q, newSize).1 == Some(q) <==> size <= Room(h, i) || grows)
  {
    hide Rounded, Alloc, Grow, Cut, FreeItem, PayloadsOf, GoodPool;
    AllocRefuses(p, Rounded(newSize));
    AllocChanges(p, Rounded(newSize));
    AllocKeepsLive(p, Rounded(newSize), q);
  }

  /** A block resized in place: exactly the rounded size if it grew or was cut, else as it was. */
  lemma ResizedExtent(p: Pool, q: nat, newSize: nat)
    requires GoodPool(p) && q in Payloads(p.h) && 0 < newSize < SIZE_SPAN && !Breaks(p.h, IndexOf(p.h, q), newSize)
    requires Realloc(p, q, newSize).1 == Some(q)
    ensures var r, size, room := Realloc(p, q, newSize).0, Rounded(newSize), Payloads(p.h)[q] - q;
            && q in Payloads(r.h)
            && Payloads(r.h)[q] - q == if size <= room <= size + 36 then room else size
  {
    var i, size := IndexOf(p.h, q), Rounded(newSize);
    BreakingGrows(p, i, newSize);
    if size > Room(p.h, i) {
      if CanGrow(p.h, i, size) {
        GrowChanges(p, i, size);
      } else {
        AllocChanges(p, size);
      }
    } else if size + p.h.header + MIN_SIZE < Room(p.h, i) {
      CutChanges(p, i, size);
    }
    hide Rounded, Alloc, Grow, Cut, FreeItem, PayloadsOf, FreeExact, Coalesced, Tiles, CanGrow;
  }

  ghost predicate Holds(h: Heap, q: nat, size: nat) {
    q in Payloads(h) && Payloads(h)[q] - q >= size
  }

  /** Exactly when rt_memheap_realloc does what it is asked for: the pool stays good and the answer,
      if there is one, holds the size asked for. */
  lemma ReallocGrants(p: Pool, q: nat, newSize: nat)
    requires GoodPool(p) && q in Payloads(p.h) && newSize < SIZE_SPAN
    ensures var (r, a) := Realloc(p, q, newSize);
            && (GoodPool(r) <==> !Breaks(p.h, IndexOf(p.h, q), newSize))
            && (GoodPool(r) && (a.Some? ==> Holds(r.h, a.value, newSize)) <==>
                  newSize <= SIZE_SPAN - WORD && !Breaks(p.h, IndexOf(p.h, q), newSize))
  {
    hide PayloadsOf, Rounded, Realloc, FreeExact, Coalesced, Tiles;
    if Breaks(p.h, IndexOf(p.h, q), newSize) {
      ReallocBreaks(p, q, newSize);
    } else {
      ReallocChanges(p, q, newSize);
      var (r, a) := Realloc(p, q, newSize);
      if newSize > SIZE_SPAN - WORD {
        TinyAnswered(p, q, newSize);
        PayloadBelowEnd(r.h, q);
      }
    }
  }

  /** A size whose rounding wraps counts as the minimum, which every live payload has. */
  lemma TinyAnswered(p: Pool, q: nat, newSize: nat)
    requires GoodPool(p) && q in Payloads(p.h) && SIZE_SPAN - WORD < newSize < SIZE_SPAN
    ensures Realloc(p, q, newSize).1 == Some(q)
  {
    hide PayloadsOf, Rounded, FreeExact, Good;
  }

  /** The heap at the moment of its greatest use during rt_memheap_realloc. */
  ghost function Busiest(p: Pool, q: nat, newSize: nat): Heap
    requires GoodPool(p) && q in Payloads(p.h) && newSize < SIZE_SPAN
  {
    var i := IndexOf(p.h, q);
    if newSize == 0 || Rounded(newSize) <= Room(p.h, i) then p.h
    else if CanGrow(p.h, i, Rounded(newSize)) then Grow(p, i, Rounded(newSize)).h
    else Alloc(p, Rounded(newSize)).0.h
  }

  ghost function Step(p: Pool, c: Call): Pool
    requires GoodPool(p)
  {
    match c
    case Allocate(size) => if size < SIZE_SPAN then Alloc(p, Rounded(size)).0 else p
    case Release(q) => if q in Payloads(p.h) then FreeItem(p, IndexOf(p.h, q)) else p
    case Resize(q, size) => if q in Payloads(p.h) && size < SIZE_SPAN then Realloc(p, q, size).0 else p
  }

  /** A call that does not ask rt_memheap_realloc for what breaks the pool. */
  ghost predicate Harmless(p: Pool, c: Call) {
    c.Resize? && c.p in Payloads(p.h) ==> !Breaks(p.h, IndexOf(p.h, c.p), c.size)
  }

  /** A call keeps both lists good exactly when it is harmless, and then keeps every payload that
      it does not name. */
  lemma StepKeeps(p: Pool, c: Call)
    requires GoodPool(p)
    ensures GoodPool(Step(p, c)) <==> Harmless(p, c)
    ensures Harmless(p, c) ==>
              var r := Step(p, c);
              && r.h.end == p.h.end && r.h.header == p.h.header
              && forall q :: q in Payloads(p.h) && !Names(c, q) ==>
                  q in Payloads(r.h) && Payloads(r.h)[q] == Payloads(p.h)[q]
  {
    hide PayloadsOf, Alloc, Realloc, GoodPool, Rounded, FreeItem;
    match c {
      case Allocate(size) =>
        if size < SIZE_SPAN {
          AllocChanges(p, Rounded(size));
        }
      case Release(q) =>
        if q in Payloads(p.h) {
          ReleaseChanges(p, IndexOf(p.h, q));
        }
      case Resize(q, size) =>
        if q in Payloads(p.h) && size < SIZE_SPAN {
          ReallocGrants(p, q, size);
          if Harmless(p, c) {
            ReallocChanges(p, q, size);
          }
        }
    }
  }

  /** Any run keeps the blocks tiled and coalesced and the free list exact, or ends at a call that
      breaks the pool. */
  ghost function Run(p: Pool, calls: seq<Call>): (r: Option<Pool>)
    requires GoodPool(p)
    ensures r.Some? ==> GoodPool(r.value)
    decreases |calls|
  {
    if calls == [] then Some(p)
    else if GoodPool(Step(p, calls[0])) then Run(Step(p, calls[0]), calls[1..])
    else None
  }

  /** Without requests in the last 15 bytes below 2^32 no run breaks the pool. */
  lemma {:induction false} ModestRuns(p: Pool, calls: seq<Call>)
    requires GoodPool(p)
    requires forall c :: c in calls && c.Resize? ==> c.size <= SIZE_SPAN - MIN_SIZE - WORD
    ensures Run(p, calls).Some?
    decreases |calls|
  {
    hide GoodPool, PayloadsOf, Step;
    if calls != [] {
      assert calls[0] in calls;
      StepKeeps(p, calls[0]);
      ModestRuns(Step(p, calls[0]), calls[1..]);
    }
  }

  /** A payload stays live over any run that neither releases nor resizes it. */
  lemma {:induction false} LivePayloadStays(p: Pool, calls: seq<Call>, q: nat)
    requires GoodPool(p) && q in Payloads(p.h) && forall c :: c in calls ==> !Names(c, q)
    ensures var r := Run(p, calls);
            r.Some? ==> q in Payloads(r.value.h) && Payloads(r.value.h)[q] == Payloads(p.h)[q]
    decreases |calls|
  {
    hide GoodPool, PayloadsOf, Step, Names;
    if calls != [] {
      assert calls[0] in calls;
      StepKeeps(p, calls[0]);
      if GoodPool(Step(p, calls[0])) {
        LivePayloadStays(Step(p, calls[0]), calls[1..], q);
      }
    }
  }

  // ---------------------------------------------------------------------------------
  // The failing requests occur
  // ---------------------------------------------------------------------------------

  /** A pool with one free block. */
  lemma FreshPool(end: nat)
    requires end % WORD == 0 && ITEM_SIZE + WORD <= end && end + ITEM_SIZE < SIZE_SPAN
    ensures GoodPool(Pool(Heap([Block(0, false)], end, ITEM_SIZE), [0]))
    ensures Available(Heap([Block(0, false)], end, ITEM_SIZE)) == end - ITEM_SIZE
  {
    var h := Heap([Block(0, false)], end, ITEM_SIZE);
    FreeSumOne(h.blocks[0], h.end, h.header);
    assert Payloads(h) == map[] by {
      FreeFirst(h.blocks[0], [], h.end, h.header);
      assert PayloadsOf([], h.end, h.header) == map[];
      assert h.blocks == [h.blocks[0]] + [];
    }
    forall off
      ensures off in [0] <==> IsFree(h, off)
    {
      assert h.blocks[0] == Block(0, false);
    }
  }

  /** In a fresh pool of 48 free bytes, 48 bytes are refused. */
  lemma AllFreeBytesRefused()
    ensures var p := Pool(Heap([Block(0, false)], 72, ITEM_SIZE), [0]);
            GoodPool(p) && Room(p.h, 0) == Rounded(48) == 48 && Alloc(p, Rounded(48)).1.None?
  {
    FreshPool(72);
  }

  /** In a fresh pool a request for 2^32 - 1 bytes is granted, with 12 bytes. */
  lemma AllocWraps()
    ensures var p := Pool(Heap([Block(0, false)], 4096, ITEM_SIZE), [0]);
            var (r, q) := Alloc(p, Rounded(0xFFFF_FFFF));
            GoodPool(p) && q == Some(ITEM_SIZE) && q.value in Payloads(r.h) && Payloads(r.h)[q.value] == q.value + 12
  {
    FreshPool(4096);
    var h := Heap([Block(0, false)], 4096, ITEM_SIZE);
    var r := Take(h, 0, 12);
    assert r.blocks == [Block(0, true), Block(36, false)];
    assert FirstListed(h, [0], 12) == 0 && BlockAt(h.blocks, 0) == 0;
  }

  /** A fresh pool after one request for 24 bytes: resizing that payload to 2^32 - 4 bytes is
      answered with success and puts a free item four bytes before the payload. */
  lemma ReallocWraps()
    ensures var p := Pool(Heap([Block(0, true), Block(48, false)], 4096, ITEM_SIZE), [48]);
            && GoodPool(p) && ITEM_SIZE in Payloads(p.h)
            && var (r, a) := Realloc(p, ITEM_SIZE, 0xFFFF_FFFC);
            !GoodPool(r) && a == Some(ITEM_SIZE) && r.h.blocks == [Block(0, true), Block(ITEM_SIZE - 4, false)]
  {
    hide GoodPool, PayloadsOf, Rounded, Realloc, FreeSum;
    var whole := Pool(Heap([Block(0, false)], 4096, ITEM_SIZE), [0]);
    var p := TakeFrom(whole, 0, 24);
    assert p == Pool(Heap([Block(0, true), Block(48, false)], 4096, ITEM_SIZE), [48]);
    FreshPool(4096);
    TakeFromChanges(whole, 0, 24);
    ReallocBreaks(p, ITEM_SIZE, 0xFFFF_FFFC);
    assert Rounded(0xFFFF_FFFC) == 0xFFFF_FFFC by {
      RoundedLast();
    }
  }

  lemma RoundedLast()
    ensures Rounded(0xFFFF_FFFC) == 0xFFFF_FFFC
  {
  }
}
