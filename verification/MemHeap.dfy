/** The memheap of rt-thread/src/memheap.c in place: items linked into a ring in address order,
    and the free ones also into a second ring through the free-list header. */
module MemHeap {
  import opened BlockList
  import opened SmallHeapSpec
  import opened MemHeapSpec
  import Spec = MemHeapSpec

  const MAGIC: nat := 0x1ea01ea0
  const FREE_HEADER: int := -1   // the address of free_header, outside the pool
  const NULL: int := -2

  datatype Item = Item(magic: nat, next: int, prev: int, nextFree: int, prevFree: int)

  function Magic(used: bool): nat {
    if used then MAGIC + 1 else MAGIC
  }

  predicate IsUsed(item: Item) {
    item.magic % 2 == 1
  }

  function Prev(h: Heap, i: nat): int
    requires i < |h.blocks|
  {
    if i == 0 then h.end else h.blocks[i - 1].off
  }

  ghost predicate ItemOk(items: map<int, Item>, a: int, used: bool, next: int, prev: int) {
    a in items && items[a].magic == Magic(used) && items[a].next == next && items[a].prev == prev
  }

  ghost predicate BlockItem(items: map<int, Item>, h: Heap, i: nat)
    requires i < |h.blocks|
  {
    ItemOk(items, h.blocks[i].off, h.blocks[i].used, Next(h, i), Prev(h, i))
  }

  /** next and prev lead through all blocks in address order to the used tail and back. */
  ghost predicate Ring(items: map<int, Item>, h: Heap) {
    && h.blocks != []
    && (forall i :: 0 <= i < |h.blocks| ==> BlockItem(items, h, i))
    && ItemOk(items, h.end, true, 0, h.blocks[|h.blocks| - 1].off)
  }

  ghost function Cycle(free: seq<nat>): (r: seq<int>)
    ensures |r| == |free| + 2 && r[0] == FREE_HEADER && r[|free| + 1] == FREE_HEADER
    ensures forall k :: 0 <= k < |free| ==> r[k + 1] == free[k]
  {
    [FREE_HEADER] + seq(|free|, k requires 0 <= k < |free| => free[k] as int) + [FREE_HEADER]
  }

  ghost predicate Linked(items: map<int, Item>, a: int, b: int) {
    a in items && b in items && items[a].nextFree == b && items[b].prevFree == a
  }

  /** next_free and prev_free lead from the header through the free list and back. */
  ghost predicate FreeRing(items: map<int, Item>, free: seq<nat>) {
    forall j :: 0 <= j <= |free| ==> Linked(items, Cycle(free)[j], Cycle(free)[j + 1])
  }

  // ---------------------------------------------------------------------------------
  // The free ring
  // ---------------------------------------------------------------------------------

  /** b links what is on the free list as a does. */
  ghost predicate SameLinks(a: map<int, Item>, b: map<int, Item>, free: seq<nat>) {
    forall x :: x in a && (x == FREE_HEADER || x in free) ==>
      x in b && b[x].nextFree == a[x].nextFree && b[x].prevFree == a[x].prevFree
  }

  lemma FreeRingFrame(a: map<int, Item>, b: map<int, Item>, free: seq<nat>)
    requires FreeRing(a, free) && SameLinks(a, b, free)
    ensures FreeRing(b, free)
  {
    hide Cycle;
    forall j | 0 <= j <= |free|
      ensures Linked(b, Cycle(free)[j], Cycle(free)[j + 1])
    {
      assert Linked(a, Cycle(free)[j], Cycle(free)[j + 1]);
      CycleMember(free, j);
      CycleMember(free, j + 1);
    }
  }

  lemma CycleMember(free: seq<nat>, j: nat)
    requires j <= |free| + 1
    ensures Cycle(free)[j] == FREE_HEADER || Cycle(free)[j] in free
  {
    hide Cycle;
    if 0 < j <= |free| {
      assert Cycle(free)[j - 1 + 1] == free[j - 1];
    }
  }

  function SetNextFree(items: map<int, Item>, a: int, v: int): map<int, Item>
    requires a in items
  {
    items[a := items[a].(nextFree := v)]
  }

  function SetPrevFree(items: map<int, Item>, a: int, v: int): map<int, Item>
    requires a in items
  {
    items[a := items[a].(prevFree := v)]
  }

  lemma UnlinkRing(items: map<int, Item>, free: seq<nat>, k: nat)
    requires FreeRing(items, free) && NoDup(free) && k < |free|
    ensures var o: int := free[k];
            && o in items && items[o].nextFree in items && items[o].prevFree in items
            && var one := SetPrevFree(items, items[o].nextFree, items[o].prevFree);
            && items[o].prevFree in one
            && FreeRing(SetNextFree(one, items[o].prevFree, items[o].nextFree), free[..k] + free[k + 1..])
  {
    hide Cycle;
    var c := Cycle(free);
    assert Linked(items, c[k], c[k + 1]) && Linked(items, c[k + 1], c[k + 2]);
    var after := SetNextFree(SetPrevFree(items, c[k + 2], c[k]), c[k], c[k + 2]);
    var less := free[..k] + free[k + 1..];
    forall j | 0 <= j <= |less|
      ensures Linked(after, Cycle(less)[j], Cycle(less)[j + 1])
    {
      WithoutCycle(free, k, j);
      WithoutCycle(free, k, j + 1);
      var x, y := if j <= k then j else j + 1, if j + 1 <= k then j + 1 else j + 2;
      if j != k {
        assert Linked(items, c[x], c[x + 1]);
        CycleDistinct(free, x, k);
        CycleDistinctEnd(free, y, k + 2);
      }
    }
  }

  lemma WithoutCycle(free: seq<nat>, k: nat, j: nat)
    requires k < |free| && j <= |free|
    ensures Cycle(free[..k] + free[k + 1..])[j] == Cycle(free)[if j <= k then j else j + 1]
  {
    hide Cycle;
    var less := free[..k] + free[k + 1..];
    if 0 < j <= |less| {
      assert Cycle(less)[j - 1 + 1] == less[j - 1];
      assert Cycle(free)[j - 1 + 1] == free[j - 1];
      assert Cycle(free)[j + 1] == free[j];
    }
  }

  lemma CycleDistinct(free: seq<nat>, i: nat, j: nat)
    requires NoDup(free) && i <= |free| && j <= |free| && i != j
    ensures Cycle(free)[i] != Cycle(free)[j]
  {
    hide Cycle;
    if i > 0 {
      assert Cycle(free)[i - 1 + 1] == free[i - 1];
    }
    if j > 0 {
      assert Cycle(free)[j - 1 + 1] == free[j - 1];
    }
  }

  lemma CycleDistinctEnd(free: seq<nat>, i: nat, j: nat)
    requires NoDup(free) && 0 < i <= |free| + 1 && 0 < j <= |free| + 1 && i != j
    ensures Cycle(free)[i] != Cycle(free)[j]
  {
    hide Cycle;
    if i <= |free| {
      assert Cycle(free)[i - 1 + 1] == free[i - 1];
    }
    if j <= |free| {
      assert Cycle(free)[j - 1 + 1] == free[j - 1];
    }
  }

  /** The four writes that put an item at the head of the free list. */
  function LinkHead(items: map<int, Item>, o: int): map<int, Item>
    requires o in items && FREE_HEADER in items && items[FREE_HEADER].nextFree in items && o != FREE_HEADER
  {
    var first := items[FREE_HEADER].nextFree;
    var one := SetPrevFree(SetNextFree(items, o, first), o, FREE_HEADER);
    SetNextFree(SetPrevFree(one, first, o), FREE_HEADER, o)
  }

  lemma LinkRing(items: map<int, Item>, free: seq<nat>, o: nat)
    requires FreeRing(items, free) && NoDup(free) && o !in free && o in items
    ensures FREE_HEADER in items && items[FREE_HEADER].nextFree in items
    ensures FreeRing(LinkHead(items, o), [o] + free)
  {
    hide Cycle;
    var c, d := Cycle(free), Cycle([o] + free);
    assert Linked(items, c[0], c[1]);
    var after := LinkHead(items, o);
    forall j | 0 <= j <= |free| + 1
      ensures Linked(after, d[j], d[j + 1])
    {
      ConsCycle(free, o, j);
      ConsCycle(free, o, j + 1);
      NotInCycle(free, o, 1);
      if j > 1 {
        NotInCycle(free, o, j - 1);
        NotInCycle(free, o, j);
        assert Linked(items, c[j - 1], c[j]);
        CycleDistinct(free, 0, j - 1);
        CycleDistinctEnd(free, 1, j);
      }
    }
  }

  lemma NotInCycle(free: seq<nat>, o: nat, j: nat)
    requires o !in free && j <= |free| + 1
    ensures Cycle(free)[j] != o
  {
    hide Cycle;
    if 0 < j <= |free| {
      assert Cycle(free)[j - 1 + 1] == free[j - 1];
    }
  }

  lemma ConsCycle(free: seq<nat>, o: nat, j: nat)
    requires j <= |free| + 2
    ensures j == 0 ==> Cycle([o] + free)[j] == FREE_HEADER
    ensures j == 1 ==> Cycle([o] + free)[j] == o
    ensures j > 1 ==> Cycle([o] + free)[j] == Cycle(free)[j - 1]
    ensures 1 < j <= |free| + 1 ==> Cycle([o] + free)[j] == free[j - 2]
  {
    hide Cycle;
    if 0 < j <= |free| + 1 {
      assert Cycle([o] + free)[j - 1 + 1] == ([o] + free)[j - 1];
    }
    if 1 < j <= |free| + 1 {
      assert Cycle(free)[j - 2 + 1] == free[j - 2];
    }
  }

  // ---------------------------------------------------------------------------------
  // The address ring
  // ---------------------------------------------------------------------------------

  ghost predicate SameRing(a: map<int, Item>, b: map<int, Item>) {
    forall x :: x in a ==> x in b && b[x].magic == a[x].magic && b[x].next == a[x].next && b[x].prev == a[x].prev
  }

  lemma RingFrame(a: map<int, Item>, b: map<int, Item>, h: Heap)
    requires Ring(a, h) && SameRing(a, b)
    ensures Ring(b, h)
  {
    forall i | 0 <= i < |h.blocks|
      ensures BlockItem(b, h, i)
    {
      assert BlockItem(a, h, i);
    }
  }

  lemma Apart(h: Heap, i: nat, j: nat)
    requires Tiles(h) && i < |h.blocks| && j < |h.blocks|
    ensures h.blocks[i].off < h.end && (i != j ==> h.blocks[i].off != h.blocks[j].off)
  {
    BelowEnd(h, i);
    if i < j {
      Ascending(h, i, j);
    } else if j < i {
      Ascending(h, j, i);
    }
  }

  lemma MarkRing(items: map<int, Item>, h: Heap, i: nat, used: bool)
    requires Tiles(h) && Ring(items, h) && i < |h.blocks|
    ensures h.blocks[i].off in items
    ensures Ring(items[h.blocks[i].off := items[h.blocks[i].off].(magic := Magic(used))], SetUsed(h, i, used))
  {
    hide Tiles;
    var r := SetUsed(h, i, used);
    assert BlockItem(items, h, i);
    var after := items[h.blocks[i].off := items[h.blocks[i].off].(magic := Magic(used))];
    forall j | 0 <= j < |r.blocks|
      ensures BlockItem(after, r, j)
    {
      Apart(h, j, i);
      assert BlockItem(items, h, j);
    }
    Apart(h, i, i);
  }

  /** What a new free item between block i and its successor does to the ring. */
  function SplitItems(items: map<int, Item>, h: Heap, i: nat, off: nat): map<int, Item>
    requires i < |h.blocks| && h.blocks[i].off in items && Next(h, i) in items
  {
    var made := items[off := Item(MAGIC, Next(h, i), h.blocks[i].off, NULL, NULL)];
    var back := made[Next(h, i) := made[Next(h, i)].(prev := off)];
    back[h.blocks[i].off := back[h.blocks[i].off].(next := off)]
  }

  lemma RingReads(items: map<int, Item>, h: Heap, i: nat)
    requires Tiles(h) && Ring(items, h) && i < |h.blocks|
    ensures h.blocks[i].off < Next(h, i) <= h.end && Next(h, i) in items && BlockItem(items, h, i)
    ensures i + 1 < |h.blocks| ==> BlockItem(items, h, i + 1)
    ensures i > 0 ==> BlockItem(items, h, i - 1)
    ensures ItemOk(items, h.end, true, 0, h.blocks[|h.blocks| - 1].off)
    ensures i == 0 ==> h.blocks[i].off == 0
  {
    BelowEnd(h, i);
    if i + 1 < |h.blocks| {
      assert BlockItem(items, h, i + 1);
    }
  }

  lemma SplitRing(items: map<int, Item>, h: Heap, i: nat, off: nat)
    requires Tiles(h) && Ring(items, h) && i < |h.blocks| && h.blocks[i].off < off < Next(h, i)
    ensures h.blocks[i].off in items && Next(h, i) in items
    ensures Ring(SplitItems(items, h, i, off), InsertAfter(h, i, Block(off, false)))
  {
    hide Tiles;
    RingReads(items, h, i);
    var r := InsertAfter(h, i, Block(off, false));
    var after := SplitItems(items, h, i, off);
    forall j | 0 <= j < |r.blocks|
      ensures BlockItem(after, r, j)
    {
      SplitRingAt(items, h, i, off, j);
    }
    Apart(h, |h.blocks| - 1, i);
    Apart(h, i, i);
  }

  lemma SplitRingAt(items: map<int, Item>, h: Heap, i: nat, off: nat, j: nat)
    requires Tiles(h) && Ring(items, h) && i < |h.blocks|
    requires h.blocks[i].off < off < Next(h, i) <= h.end && j <= |h.blocks|
    requires h.blocks[i].off in items && Next(h, i) in items
    ensures BlockItem(SplitItems(items, h, i, off), InsertAfter(h, i, Block(off, false)), j)
  {
    hide Tiles;
    if j <= i {
      assert BlockItem(items, h, j);
      if j < i {
        Ascending(h, j, i);
      }
    } else if j > i + 1 {
      assert BlockItem(items, h, j - 1);
      Apart(h, j - 1, i);
      if j > i + 2 {
        Ascending(h, i + 1, j - 1);
      }
    }
  }

  /** What dropping block k from the ring does. */
  function DropItems(items: map<int, Item>, h: Heap, k: nat): map<int, Item>
    requires 0 < k < |h.blocks| && h.blocks[k - 1].off in items && Next(h, k) in items
  {
    var ahead := items[h.blocks[k - 1].off := items[h.blocks[k - 1].off].(next := Next(h, k))];
    ahead[Next(h, k) := ahead[Next(h, k)].(prev := h.blocks[k - 1].off)]
  }

  lemma DropRing(items: map<int, Item>, h: Heap, k: nat)
    requires Tiles(h) && Ring(items, h) && 0 < k < |h.blocks|
    ensures h.blocks[k - 1].off in items && Next(h, k) in items
    ensures Ring(DropItems(items, h, k), Without(h, k))
  {
    hide Tiles;
    RingReads(items, h, k);
    RingReads(items, h, k - 1);
    var r := Without(h, k);
    var after := DropItems(items, h, k);
    forall j | 0 <= j < |r.blocks|
      ensures BlockItem(after, r, j)
    {
      DropRingAt(items, h, k, j);
    }
    Apart(h, |h.blocks| - 1, k - 1);
    Apart(h, k - 1, k);
    if k + 1 < |h.blocks| {
      Apart(h, k + 1, k);
    }
  }

  lemma DropRingAt(items: map<int, Item>, h: Heap, k: nat, j: nat)
    requires Tiles(h) && Ring(items, h) && 0 < k < |h.blocks| && j < |h.blocks| - 1
    requires h.blocks[k - 1].off in items && Next(h, k) in items
    requires h.blocks[k - 1].off < h.blocks[k].off < Next(h, k) <= h.end
    ensures BlockItem(DropItems(items, h, k), Without(h, k), j)
  {
    hide Tiles;
    if j < k {
      assert BlockItem(items, h, j);
      if j < k - 1 {
        Ascending(h, j, k - 1);
      }
    } else {
      assert BlockItem(items, h, j + 1);
      Apart(h, j + 1, k - 1);
      Ascending(h, k, j + 1);
      if j > k {
        Ascending(h, k + 1, j + 1);
      }
    }
  }

  /** An item at made is aligned and leaves room for a payload before and behind it. */
  predicate Between(o: nat, made: nat, next: nat) {
    made % WORD == 0 && o + ITEM_SIZE + WORD <= made && made + ITEM_SIZE + WORD <= next
  }

  class MemHeap {
    const poolSize: nat
    const bytes: array<nat>          // the payloads
    var items: map<int, Item>        // the item headers, by offset from start_addr
    var availableSize: int
    var maxUsedSize: int
    ghost var blocks: seq<Block>
    ghost var free: seq<nat>

    ghost function H(): Heap
      requires poolSize >= ITEM_SIZE
      reads this
    {
      Heap(blocks, poolSize - ITEM_SIZE, ITEM_SIZE)
    }

    ghost function P(): Pool
      requires poolSize >= ITEM_SIZE
      reads this
    {
      Pool(H(), free)
    }

    /** Both rings hold, whether or not the items overlap. */
    ghost predicate Rings()
      reads this
    {
      && poolSize >= 2 * ITEM_SIZE + WORD && bytes.Length == poolSize < SIZE_SPAN
      && Ring(items, H()) && NoDup(free) && FreeRing(items, free)
    }

    ghost predicate Shape()
      reads this
    {
      Rings() && Tiles(H())
    }

    ghost predicate Valid()
      reads this
    {
      Shape() && GoodPool(P()) && availableSize == Available(H()) && poolSize - availableSize <= maxUsedSize
    }

    /** rt_memheap_init, for a region that holds two items and something between them. */
    constructor (size: nat)
      requires size < SIZE_SPAN && size / WORD * WORD >= 2 * ITEM_SIZE + WORD
      ensures Valid() && fresh(bytes) && poolSize == size / WORD * WORD
      ensures blocks == [Block(0, false)] && free == [0] && availableSize == poolSize - 2 * ITEM_SIZE
    {
      var pool := size / WORD * WORD;
      var tail := pool - ITEM_SIZE;
      poolSize := pool;
      bytes := new nat[pool];
      availableSize := pool - 2 * ITEM_SIZE;
      maxUsedSize := 2 * ITEM_SIZE;
      items := map[FREE_HEADER := Item(MAGIC, NULL, NULL, 0, 0),
                   0 := Item(MAGIC, tail, tail, FREE_HEADER, FREE_HEADER),
                   tail := Item(MAGIC + 1, 0, 0, NULL, NULL)];
      blocks, free := [Block(0, false)], [0];
      new;
      FreshPool(tail);
      assert Linked(items, Cycle(free)[0], Cycle(free)[1]) by {
        assert Cycle(free)[0 + 1] == free[0];
      }
      assert Linked(items, Cycle(free)[1], Cycle(free)[2]);
    }

    /** Takes item o out of the free list. */
    method Unlink(o: nat)
      requires Shape() && o in free
      modifies this`items, this`free
      ensures Shape() && free == Dropped(old(free), o) && items.Keys == old(items).Keys && o in items
    {
      hide Tiles, Ring, NoDup, FreeRing, Dropped, Cycle;
      ghost var k: nat :| k < |free| && free[k] == o;
      ghost var before := items;
      UnlinkRing(items, free, k);
      DroppedAt(free, k);
      DroppedMembers(free, o);
      var next, prev := items[o].nextFree, items[o].prevFree;
      items := SetPrevFree(items, next, prev);
      items := SetNextFree(items, prev, next);
      free := Dropped(free, o);
      RingFrame(before, items, H());
    }

    /** Puts item o at the head of the free list. */
    method Link(o: nat)
      requires Rings() && o !in free && o in items
      modifies this`items, this`free
      ensures Rings() && free == [o] + old(free)
    {
      hide Tiles, Ring, NoDup, FreeRing, Cycle;
      ghost var before := items;
      LinkRing(items, free, o);
      NoDupCons(o, free);
      items := LinkHead(items, o);
      free := [o] + free;
      RingFrame(before, items, H());
    }

    method Mark(o: nat, used: bool, ghost i: nat)
      requires Shape() && i < |blocks| && blocks[i].off == o
      modifies this`items, this`blocks
      ensures Shape() && H() == SetUsed(old(H()), i, used)
    {
      hide Tiles, Ring, NoDup, FreeRing, Cycle;
      ghost var before := items;
      MarkRing(items, H(), i, used);
      SetUsedTiles(H(), i, used);
      items := items[o := items[o].(magic := Magic(used))];
      blocks := SetUsed(H(), i, used).blocks;
      FreeRingFrame(before, items, free);
    }

    /** Makes a free item between block o and the next; it is not yet on the free list. */
    method Split(o: nat, made: nat, ghost i: nat)
      requires Shape() && i < |blocks| && blocks[i].off == o < made < Next(H(), i) && made !in free
      modifies this`items, this`blocks
      ensures Between(o, made, old(Next(H(), i))) ==> Shape()
      ensures Rings() && H() == InsertAfter(old(H()), i, Block(made, false)) && made in items
    {
      hide Tiles, Ring, NoDup, FreeRing, Cycle;
      ghost var before, h := items, H();
      RingReads(items, h, i);
      SplitRing(items, h, i, made);
      if Between(o, made, Next(h, i)) {
        InsertTiles(h, i, Block(made, false));
      }
      var next := items[o].next;
      items := items[made := Item(MAGIC, next, o, NULL, NULL)];
      items := items[next := items[next].(prev := made)];
      items := items[o := items[o].(next := made)];
      assert items == SplitItems(before, h, i, made);
      blocks := InsertAfter(h, i, Block(made, false)).blocks;
      FreeRingFrame(before, items, free);
    }

    /** Takes block k out of the address ring; the block before gets its bytes. */
    method Drop(front: nat, back: nat, ghost k: nat)
      requires Shape() && 0 < k < |blocks| && blocks[k - 1].off == front && blocks[k].off == back
      modifies this`items, this`blocks
      ensures Shape() && H() == Without(old(H()), k)
    {
      hide Tiles, Ring, NoDup, FreeRing, Cycle;
      ghost var before, h := items, H();
      RingReads(items, h, k);
      DropRing(items, h, k);
      WithoutTiles(h, k);
      var next := items[back].next;
      items := items[front := items[front].(next := next)];
      items := items[next := items[next].(prev := front)];
      assert items == DropItems(before, h, k);
      blocks := Without(h, k).blocks;
      FreeRingFrame(before, items, free);
    }

    /** What the free list and the ring say about the k-th free item. */
    lemma ListedItem(k: nat) returns (i: nat)
      requires Valid() && k < |free|
      ensures i < |blocks| && blocks[i] == Block(free[k], false) && i == BlockAt(blocks, free[k])
      ensures free[k] in items && items[free[k]].next == Next(H(), i) && RoomAt(H(), free[k]) == Room(H(), i)
      ensures items[free[k]].nextFree == Cycle(free)[k + 2]
    {
      hide Tiles, NoDup, FreeRing, Cycle, BlockAt, Ring;
      assert free[k] in free;
      FreeAt(H(), free[k]);
      i := BlockAt(blocks, free[k]);
      RingReads(items, H(), i);
      CycleReads(items, free, k);
    }

    /** Splits free item headerPtr: the front leaves the free list, the rest enters it. */
    method SplitOff(headerPtr: nat, made: nat, ghost i: nat)
      requires Shape() && i < |blocks| && blocks[i] == Block(headerPtr, false) && headerPtr in free && made !in free
      requires made % WORD == 0 && headerPtr + ITEM_SIZE + WORD <= made && made + ITEM_SIZE + WORD <= Next(H(), i)
      modifies this`items, this`blocks, this`free
      ensures Shape() && H() == InsertAfter(old(H()), i, Block(made, false))
      ensures free == [made] + Dropped(old(free), headerPtr)
    {
      hide Tiles, Ring, NoDup, FreeRing, Cycle, Dropped, InsertAfter;
      DroppedMembers(free, headerPtr);
      Split(headerPtr, made, i);
      Unlink(headerPtr);
      Link(made);
    }

    /** The successful end of rt_memheap_alloc. */
    method Take(headerPtr: nat, freeSize: nat, want: nat, ghost i: nat)
      requires Valid() && i < |blocks| && blocks[i] == Block(headerPtr, false)
      requires freeSize == Room(H(), i) >= want && want % WORD == 0 && want >= MIN_SIZE
      modifies this
      ensures Valid() && P() == TakeFrom(old(P()), i, want)
      ensures maxUsedSize == Most(old(maxUsedSize), poolSize - availableSize)
    {
      hide Tiles, Ring, NoDup, FreeRing, Cycle, Available, Dropped, Coalesced, IsFree, BlockList.Take, Roomy,
          PayloadsOf;
      ghost var p := P();
      TakeFromChanges(p, i, want);
      ListedRoom(p, i);
      TakeOrder(p.h, i, want);
      if freeSize >= want + ITEM_SIZE + MIN_SIZE {
        OffsetAligned(H(), i, want);
        NotABlock(H(), i, headerPtr + want + ITEM_SIZE);
        SplitOff(headerPtr, headerPtr + want + ITEM_SIZE, i);
        availableSize := availableSize - want - ITEM_SIZE;
      } else {
        availableSize := availableSize - freeSize;
        Unlink(headerPtr);
      }
      if poolSize - availableSize > maxUsedSize {
        maxUsedSize := poolSize - availableSize;
      }
      Mark(headerPtr, true, i);
      assert P() == TakeFrom(p, i, want);
    }

    /** rt_memheap_alloc. */
    method Alloc(size: nat) returns (ptr: Option<nat>)
      requires Valid() && size < SIZE_SPAN
      modifies this
      ensures Valid() && (P(), ptr) == Spec.Alloc(old(P()), Rounded(size))
      ensures maxUsedSize == Most(old(maxUsedSize), poolSize - availableSize)
    {
      hide Tiles, Ring, NoDup, FreeRing, Cycle, FreeSum, Coalesced, IsFree, BlockAt, FirstListed, TakeFrom, RoomAt;
      var want := Rounded(size);
      if want < availableSize {
        var freeSize := 0;
        ghost var k: nat := 0;
        CycleStart(items, free);
        var headerPtr := items[FREE_HEADER].nextFree;
        while headerPtr != FREE_HEADER && freeSize < want
          invariant k <= |free| && headerPtr == Cycle(free)[k + 1]
          invariant unchanged(this) && Valid()
          invariant freeSize < want ==> forall j :: 0 <= j < k ==> RoomAt(H(), free[j]) < want
          invariant freeSize >= want ==> k < |free| && freeSize == RoomAt(H(), free[k])
          invariant freeSize >= want ==> forall j :: 0 <= j < k ==> RoomAt(H(), free[j]) < want
          decreases |free| - k, if freeSize < want then 1 else 0
        {
          CycleAt(free, k);
          ghost var i := ListedItem(k);
          freeSize := items[headerPtr].next - headerPtr - ITEM_SIZE;
          if freeSize < want {
            headerPtr := items[headerPtr].nextFree;
            k := k + 1;
          }
        }
        if freeSize >= want {
          CycleAt(free, k);
          ghost var i := ListedItem(k);
          FirstFreeIs(H(), free, want, k);
          Take(headerPtr, freeSize, want, i);
          return Some(headerPtr + ITEM_SIZE);
        }
        CycleAt(free, k);
        FirstFreeIs(H(), free, want, |free|);
      }
      ptr := None;
    }

    /** Merges the free item with the item before it, if that is free too. */
    method MergeLeft(headerPtr: nat, ghost i: nat) returns (front: nat, merged: bool)
      requires Shape() && i < |blocks| && blocks[i] == Block(headerPtr, false)
      modifies this`items, this`blocks, this`availableSize
      ensures Shape() && merged == FreeBefore(old(H()), i)
      ensures H() == (if merged then Without(old(H()), i) else old(H()))
      ensures var at := if merged then i - 1 else i; 0 <= at < |blocks| && blocks[at] == Block(front, false)
      ensures front == (if merged then old(blocks)[i - 1].off else headerPtr)
      ensures availableSize == old(availableSize) + (if merged then ITEM_SIZE else 0)
    {
      hide Tiles, Ring, NoDup, FreeRing, Cycle, Without;
      RingReads(items, H(), i);
      LeftReads(H(), i);
      front, merged := headerPtr, false;
      var before := items[headerPtr].prev;
      if !IsUsed(items[before]) {
        availableSize := availableSize + ITEM_SIZE;
        Drop(before, headerPtr, i);
        front, merged := before, true;
      }
    }

    /** Merges the free item with the item behind it, if that is free too. */
    method MergeRight(headerPtr: nat, ghost i: nat)
      requires Shape() && i < |blocks| && blocks[i] == Block(headerPtr, false)
      requires FreeAfter(H(), i) ==> blocks[i + 1].off in free
      modifies this`items, this`blocks, this`free, this`availableSize
      ensures Shape() && H() == (if FreeAfter(old(H()), i) then Without(old(H()), i + 1) else old(H()))
      ensures free == (if FreeAfter(old(H()), i) then Dropped(old(free), old(blocks)[i + 1].off) else old(free))
      ensures availableSize == old(availableSize) + (if FreeAfter(old(H()), i) then ITEM_SIZE else 0)
      ensures headerPtr in items
    {
      hide Tiles, Ring, NoDup, FreeRing, Cycle, Without, Dropped;
      RingReads(items, H(), i);
      var after := items[headerPtr].next;
      if !IsUsed(items[after]) {
        availableSize := availableSize + ITEM_SIZE;
        Drop(headerPtr, after, i + 1);
        Unlink(after);
        SameBelow(old(H()), i);
      }
      RingReads(items, H(), i);
    }

    /** Both merges. */
    method Merge(headerPtr: nat, ghost i: nat) returns (front: nat, merged: bool)
      requires Shape() && i < |blocks| && blocks[i] == Block(headerPtr, false)
      requires FreeAfter(H(), i) ==> blocks[i + 1].off in free
      modifies this`items, this`blocks, this`free, this`availableSize
      ensures Shape() && H() == MergeBackward(MergeForward(old(H()), i), i)
      ensures merged == FreeBefore(old(H()), i) && front in items && (!merged ==> front == headerPtr)
      ensures free == (if FreeAfter(old(H()), i) then Dropped(old(free), old(blocks)[i + 1].off) else old(free))
      ensures availableSize == old(availableSize)
                + (if merged then ITEM_SIZE else 0) + (if FreeAfter(old(H()), i) then ITEM_SIZE else 0)
    {
      hide Tiles, Ring, NoDup, FreeRing, Cycle, Dropped, Without;
      ghost var u := H();
      front, merged := MergeLeft(headerPtr, i);
      LeftReads(u, i);
      MergeOrder(u, i);
      MergeRight(front, if merged then i - 1 else i);
    }

    /** rt_memheap_free of NULL or of a live payload. */
    method Free(ptr: Option<nat>)
      requires Valid() && (ptr.Some? ==> ptr.value in Payloads(H()))
      modifies this
      ensures Valid() && maxUsedSize == old(maxUsedSize)
      ensures ptr.None? ==> P() == old(P()) && items == old(items)
      ensures ptr.Some? ==> P() == FreeItem(old(P()), IndexOf(old(H()), ptr.value))
    {
      hide PayloadsOf, Tiles, GoodPool, Ring, FreeRing, NoDup, Available;
      if ptr.Some? {
        FreeLive(ptr.value);
      }
    }

    method FreeLive(ptr: nat)
      requires Valid() && ptr in Payloads(H())
      modifies this
      ensures Valid() && maxUsedSize == old(maxUsedSize)
      ensures P() == FreeItem(old(P()), IndexOf(old(H()), ptr))
    {
      hide Tiles, Ring, NoDup, FreeRing, Cycle, Available, Dropped, Coalesced, IsFree, PayloadsOf, MergeForward,
          MergeBackward;
      ghost var p, i := P(), IndexOf(H(), ptr);
      ReleaseChanges(p, i);
      UsedNotFree(H(), i);
      BelowEnd(H(), i);
      var headerPtr := ptr - ITEM_SIZE;
      Mark(headerPtr, false, i);
      RingReads(items, H(), i);
      availableSize := availableSize + (items[headerPtr].next - headerPtr - ITEM_SIZE);
      if FreeAfter(p.h, i) {
        ListedRoom(p, i + 1);
        DroppedMembers(p.free, p.h.blocks[i + 1].off);
      }
      var front, merged := Merge(headerPtr, i);
      if !merged {
        Link(front);
      }
      assert P() == FreeItem(p, i);
    }

    /** rt_memheap_realloc, when the test finds the free item behind large enough. The counter and
        the new item's address are 32-bit sums; where they wrap the pool is no longer good. */
    method GrowInPlace(headerPtr: nat, oldSize: nat, want: nat, ghost i: nat)
      requires Valid() && i < |blocks| && blocks[i] == Block(headerPtr, true) && CanGrow(H(), i, want)
      requires oldSize == Room(H(), i) < want < SIZE_SPAN && want % WORD == 0
      modifies this
      ensures Rings() && P() == Grow(old(P()), i, want) && availableSize == Available(H())
      ensures Valid() <==> want + MIN_SIZE < SIZE_SPAN
      ensures maxUsedSize == Most(old(maxUsedSize), poolSize - availableSize)
    {
      hide Tiles, Ring, NoDup, FreeRing, Cycle, Available, Dropped, Coalesced, IsFree, PayloadsOf, Roomy;
      ghost var p := P();
      GrowFits(p, i, want);
      GrowCounts(p, i, want);
      if want + MIN_SIZE < SIZE_SPAN {
        GrowChanges(p, i, want);
      } else {
        GrowBreaks(p, i, want);
      }
      RingReads(items, H(), i);
      var nextPtr := items[headerPtr].next;
      DroppedMembers(free, nextPtr);
      availableSize := Minus32(availableSize, want - oldSize);
      if poolSize - availableSize > maxUsedSize {
        maxUsedSize := poolSize - availableSize;
      }
      MoveBorder(headerPtr, nextPtr, (headerPtr + ITEM_SIZE + want) % SIZE_SPAN, i);
      assert P() == Grow(p, i, want);
    }

    /** The free item behind block i goes, and another one is made at a new place. */
    method MoveBorder(headerPtr: nat, nextPtr: nat, made: nat, ghost i: nat)
      requires Shape() && i + 1 < |blocks| && blocks[i].off == headerPtr
      requires blocks[i + 1].off == nextPtr && nextPtr in free
      requires headerPtr < made < Next(H(), i + 1) && made !in Dropped(free, nextPtr)
      modifies this`items, this`blocks, this`free
      ensures Rings() && free == [made] + Dropped(old(free), nextPtr)
      ensures H() == InsertAfter(Without(old(H()), i + 1), i, Block(made, false))
      ensures Between(headerPtr, made, old(Next(H(), i + 1))) ==> Shape()
    {
      hide Tiles, Ring, NoDup, FreeRing, Cycle, Dropped;
      Unlink(nextPtr);
      Drop(headerPtr, nextPtr, i + 1);
      Split(headerPtr, made, i);
      Link(made);
    }

    /** Merges the new item, not yet counted as available, with a free item behind it. */
    method Absorb(made: nat, ghost i: nat)
      requires Shape() && i < |blocks| && blocks[i] == Block(made, false)
      requires FreeAfter(H(), i) ==> blocks[i + 1].off in free
      modifies this`items, this`blocks, this`free, this`availableSize
      ensures Shape() && H() == MergeForward(old(H()), i)
      ensures free == (if FreeAfter(old(H()), i) then Dropped(old(free), old(blocks)[i + 1].off) else old(free))
      ensures availableSize == old(availableSize) - (if FreeAfter(old(H()), i) then Room(old(H()), i + 1) else 0)
      ensures i < |blocks| && blocks[i] == Block(made, false) && made in items && items[made].next == Next(H(), i)
    {
      hide Tiles, Ring, NoDup, FreeRing, Cycle, Without, Dropped;
      RingReads(items, H(), i);
      var next := items[made].next;
      if !IsUsed(items[next]) {
        RingReads(items, H(), i + 1);
        SameBelow(H(), i);
        availableSize := availableSize - (items[next].next - next - ITEM_SIZE);
        Drop(made, next, i + 1);
        Unlink(next);
      }
      RingReads(items, H(), i);
    }

    /** rt_memheap_realloc, when the item is cut down. */
    method CutInPlace(headerPtr: nat, want: nat, ghost i: nat)
      requires Valid() && i < |blocks| && blocks[i] == Block(headerPtr, true) && want % WORD == 0 && want >= MIN_SIZE
      requires want + ITEM_SIZE + MIN_SIZE < Room(H(), i)
      modifies this
      ensures Valid() && P() == Cut(old(P()), i, want) && maxUsedSize == old(maxUsedSize)
    {
      hide Tiles, Ring, NoDup, FreeRing, Cycle, Available, Dropped, Coalesced, IsFree, PayloadsOf, MergeForward, Roomy;
      ghost var p := P();
      CutChanges(p, i, want);
      var made := headerPtr + ITEM_SIZE + want;
      OffsetAligned(H(), i, want);
      NotABlock(H(), i, made);
      Split(headerPtr, made, i);
      if FreeAfter(p.h, i) {
        ListedRoom(p, i + 1);
        DroppedMembers(p.free, p.h.blocks[i + 1].off);
      }
      Absorb(made, i + 1);
      CutNext(p.h, i, made);
      Link(made);
      RingReads(items, H(), i + 1);
      availableSize := availableSize + (items[made].next - made - ITEM_SIZE);
      assert P() == Cut(p, i, want);
    }

    /** rt_memcpy of n bytes between two payloads. */
    method Copy(from: nat, to: nat, n: nat)
      requires from + n <= bytes.Length && to + n <= bytes.Length && (from + n <= to || to + n <= from)
      modifies bytes
      ensures Carried(old(bytes[..]), bytes[..], from, to, n)
    {
      var k := 0;
      while k < n
        invariant k <= n
        invariant forall j :: 0 <= j < bytes.Length && !(to <= j < to + k) ==> bytes[j] == old(bytes[j])
        invariant forall j :: to <= j < to + k ==> bytes[j] == old(bytes[from + (j - to)])
      {
        bytes[to + k] := bytes[from + k];
        k := k + 1;
      }
    }

    /** The last resort of rt_memheap_realloc: allocate, copy, free. */
    method Move(ptr: nat, oldSize: nat, want: nat, ghost i: nat) returns (q: Option<nat>)
      requires Valid() && ptr in Payloads(H()) && i == IndexOf(H(), ptr) && oldSize == Room(H(), i)
      requires oldSize < want < SIZE_SPAN && Rounded(want) == want && want % WORD == 0 && want >= MIN_SIZE
      modifies this, bytes
      ensures Valid() && Moved(old(P()), ptr, want, P(), q)
      ensures maxUsedSize == Most(old(maxUsedSize), poolSize - Available(Spec.Alloc(old(P()), want).0.h))
      ensures q.None? ==> bytes[..] == old(bytes[..])
      ensures q.Some? ==> Carried(old(bytes[..]), bytes[..], ptr, q.value, oldSize)
    {
      hide Tiles, Ring, NoDup, FreeRing, Cycle, Available, Dropped, Coalesced, IsFree, PayloadsOf, Spec.Alloc,
          Rounded, FreeItem, GoodPool;
      ghost var h := H();
      AllocChanges(P(), want);
      AllocKeepsLive(P(), want, ptr);
      q := Alloc(want);
      if q.Some? {
        LivePayloadsDisjoint(H(), ptr, q.value);
        LivePayloadsDisjoint(H(), q.value, ptr);
        BelowEnd(h, i);
        Copy(ptr, q.value, if oldSize < want then oldSize else want);
        Free(Some(ptr));
      }
    }

    /** rt_memheap_realloc of a live payload: the bytes that fit stay, wherever the payload goes, and
        no byte outside the payload is written, unless the request breaks the pool. */
    method Realloc(ptr: nat, newSize: nat) returns (q: Option<nat>)
      requires Valid() && ptr in Payloads(H()) && newSize < SIZE_SPAN
      modifies this, bytes
      ensures Rings() && (P(), q) == Spec.Realloc(old(P()), ptr, newSize) && availableSize == Available(H())
      ensures Valid() <==> !Breaks(old(H()), IndexOf(old(H()), ptr), newSize)
      ensures maxUsedSize == Most(old(maxUsedSize), poolSize - Available(Spec.Busiest(old(P()), ptr, newSize)))
      ensures Valid() && (q.None? || q.value == ptr) ==> bytes[..] == old(bytes[..])
      ensures q.Some? && q.value != ptr ==>
                Carried(old(bytes[..]), bytes[..], ptr, q.value, old(Payloads(H()))[ptr] - ptr)
    {
      hide Tiles, Ring, NoDup, FreeRing, Cycle, Available, Dropped, Coalesced, IsFree, PayloadsOf, Spec.Alloc, Rounded,
           FreeItem, Grow, Cut, Roomy, Spec.Busiest, Carried, FreeExact;
      ghost var h := H();
      ghost var i := IndexOf(h, ptr);
      BelowEnd(h, i);
      BusiestIs(P(), ptr, newSize);
      if newSize == 0 {
        Free(Some(ptr));
        return None;
      }
      BreakingGrows(P(), i, newSize);
      var want := Rounded(newSize);
      RoundedAgain(newSize);
      var headerPtr := ptr - ITEM_SIZE;
      RingReads(items, H(), i);
      var oldSize := items[headerPtr].next - headerPtr - ITEM_SIZE;
      if want > oldSize {
        var nextPtr := items[headerPtr].next;
        if !IsUsed(items[nextPtr]) {
          RingReads(items, H(), i + 1);
          var nextSize := items[nextPtr].next - nextPtr - ITEM_SIZE;
          if nextSize + oldSize > (want + MIN_SIZE) % SIZE_SPAN {
            GrowInPlace(headerPtr, oldSize, want, i);
            return Some(ptr);
          }
        }
        q := Move(ptr, oldSize, want, i);
        MoveFar(old(P()), want, ptr);
        return;
      }
      if want + ITEM_SIZE + MIN_SIZE >= oldSize {
        return Some(ptr);
      }
      CutInPlace(headerPtr, want, i);
      q := Some(ptr);
    }

    /** rt_memheap_realloc: NULL is allocated for, whatever else is resized. */
    method ReallocAny(ptr: Option<nat>, newSize: nat) returns (q: Option<nat>)
      requires Valid() && (ptr.Some? ==> ptr.value in Payloads(H())) && newSize < SIZE_SPAN
      modifies this, bytes
      ensures ptr.None? && newSize == 0 ==> Valid() && P() == old(P()) && q.None?
      ensures ptr.None? && newSize > 0 ==> Valid() && (P(), q) == Spec.Alloc(old(P()), Rounded(newSize))
      ensures ptr.None? ==>
              bytes[..] == old(bytes[..]) && maxUsedSize == Most(old(maxUsedSize), poolSize - availableSize)
      ensures ptr.Some? ==>
                && (P(), q) == Spec.Realloc(old(P()), ptr.value, newSize)
                && (Valid() <==> !Breaks(old(H()), IndexOf(old(H()), ptr.value), newSize))
                && maxUsedSize == Most(old(maxUsedSize),
                                       poolSize - Available(Spec.Busiest(old(P()), ptr.value, newSize)))
                && (Valid() && (q.None? || q == ptr) ==> bytes[..] == old(bytes[..]))
                && (q.Some? && q != ptr ==>
                      Carried(old(bytes[..]), bytes[..], ptr.value, q.value, old(Payloads(H()))[ptr.value] - ptr.value))
    {
      hide Tiles, Ring, NoDup, FreeRing, Cycle, Available, PayloadsOf, Spec.Alloc, Rounded, GoodPool, Spec.Realloc,
          Spec.Busiest;
      if ptr.Some? {
        q := Realloc(ptr.value, newSize);
      } else if newSize == 0 {
        Free(None);
        q := None;
      } else {
        RoundedAgain(newSize);
        q := Alloc(Rounded(newSize));
      }
    }
  }

  /** Subtraction on 32 bits. */
  function Minus32(a: int, b: int): int {
    if a >= b then a - b else a - b + SIZE_SPAN
  }

  /** What the greatest use during rt_memheap_realloc is, branch by branch. */
  lemma BusiestIs(p: Pool, q: nat, newSize: nat)
    requires GoodPool(p) && q in Payloads(p.h) && newSize < SIZE_SPAN
    ensures var i := IndexOf(p.h, q);
            && (newSize == 0 || Rounded(newSize) <= Room(p.h, i) ==> Spec.Busiest(p, q, newSize) == p.h)
            && (newSize > 0 && Rounded(newSize) > Room(p.h, i) ==>
                  Spec.Busiest(p, q, newSize) == if CanGrow(p.h, i, Rounded(newSize))
                      then Grow(p, i, Rounded(newSize)).h
                                            else Spec.Alloc(p, Rounded(newSize)).0.h)
  {
    hide PayloadsOf, Grow, Spec.Alloc, GoodPool, CanGrow, Rounded;
  }

  /** The n bytes at `to` are those that were at `from`, and no other byte changed. */
  ghost predicate Carried(before: seq<nat>, after: seq<nat>, from: nat, to: nat, n: int) {
    && n >= 0 && from + n <= |before| == |after| && to + n <= |after|
    && after[to..to + n] == before[from..from + n]
    && after[..to] == before[..to] && after[to + n..] == before[to + n..]
  }

  ghost predicate Moved(p: Pool, ptr: nat, want: nat, r: Pool, q: Option<nat>)
    requires GoodPool(p) && ptr in Payloads(p.h) && want % WORD == 0 && want >= MIN_SIZE
  {
    AllocKeepsLive(p, want, ptr);
    var m := Spec.Alloc(p, want);
    q == m.1 && r == if q.None? then m.0 else FreeItem(m.0, IndexOf(m.0.h, ptr))
  }

  lemma RoundedAgain(size: nat)
    requires size < SIZE_SPAN
    ensures Rounded(Rounded(size)) == Rounded(size)
  {
  }

  lemma MoveFar(p: Pool, want: nat, ptr: nat)
    requires GoodPool(p) && want % WORD == 0 && want >= MIN_SIZE && ptr in Payloads(p.h)
    ensures Spec.Alloc(p, want).1 != Some(ptr)
  {
    hide PayloadsOf, Spec.Alloc, GoodPool;
    AllocChanges(p, want);
  }

  lemma CutNext(h: Heap, i: nat, made: nat)
    requires i < |h.blocks|
    ensures var r := MergeForward(InsertAfter(h, i, Block(made, false)), i + 1);
            i + 1 < |r.blocks| && Next(r, i + 1) == if FreeAfter(h, i) then Next(h, i + 1) else Next(h, i)
  {
  }

  /** The new item lies behind the grown block's address, and, unless the sums wrap, between the
      grown payload and the end of the free item. */
  lemma GrowFits(p: Pool, i: nat, size: nat)
    requires GoodPool(p) && i < |p.h.blocks| && p.h.blocks[i].used && CanGrow(p.h, i, size)
    requires size % WORD == 0 && Room(p.h, i) < size < SIZE_SPAN
    ensures var w := Without(p.h, i + 1);
            var made := (p.h.blocks[i].off + ITEM_SIZE + size) % SIZE_SPAN;
            && i < |w.blocks| && w.blocks[i] == p.h.blocks[i] && w.blocks[i].off < made < Next(w, i)
            && p.h.blocks[i + 1].off in p.free && made !in Dropped(p.free, p.h.blocks[i + 1].off)
            && (size + MIN_SIZE < SIZE_SPAN ==>
                  made % WORD == 0 && made + ITEM_SIZE + WORD <= Next(w, i) &&
                      p.h.blocks[i].off + ITEM_SIZE + WORD <= made)
  {
    hide Tiles, NoDup, Dropped, Coalesced, IsFree, Roomy, FreeSum;
    var h, y := p.h, p.h.blocks[i + 1].off;
    var w := Without(h, i + 1);
    var made := (h.blocks[i].off + ITEM_SIZE + size) % SIZE_SPAN;
    BelowEnd(h, i);
    BelowEnd(h, i + 1);
    OffsetAligned(h, i, size);
    WithoutTiles(h, i + 1);
    ListedRoom(p, i + 1);
    DroppedMembers(p.free, y);
    NotABlock(w, i, made);
    WithoutFrees(h, i + 1, made);
  }

  /** Growing subtracts on 32 bits, and the subtraction wraps when the test did. */
  lemma GrowCounts(p: Pool, i: nat, size: nat)
    requires GoodPool(p) && i < |p.h.blocks| && p.h.blocks[i].used && CanGrow(p.h, i, size)
    requires Room(p.h, i) < size < SIZE_SPAN && size % WORD == 0
    ensures Available(Grow(p, i, size).h) == Minus32(Available(p.h), size - Room(p.h, i))
  {
    hide Tiles, FreeExact, Coalesced, Roomy, FreeSum;
    BelowEnd(p.h, i);
    BelowEnd(p.h, i + 1);
    GrowAvailable(p, i, size);
    RoomWithinAvailable(p.h, i + 1);
    AvailableBound(p.h, i);
  }

  /** All free payloads together, and used block i, are shorter than the pool. */
  lemma AvailableBound(h: Heap, i: nat)
    requires Tiles(h) && i < |h.blocks| && h.blocks[i].used
    ensures Available(h) + Room(h, i) <= h.end
  {
    hide FreeSum, Tiles;
    var u := SetUsed(h, i, false);
    SetUsedAvailable(h, i, false);
    SetUsedTiles(h, i, false);
    StretchOf(u, 0);
    assert u.blocks[0..] == u.blocks;
    FreeSumBound(u.blocks, u.end, u.header);
  }

  lemma {:induction false} FreeSumBound(blocks: seq<Block>, end: nat, hd: nat)
    requires Stretch(blocks, end, hd)
    ensures FreeSum(blocks, end, hd) <= end - FirstOff(blocks, end)
  {
    if blocks != [] {
      StretchRest(blocks, end, hd);
      FreeSumBound(blocks[1..], end, hd);
      assert Following(blocks, end, 0) == FirstOff(blocks[1..], end);
    }
  }

  lemma SameBelow(h: Heap, i: nat)
    requires i + 1 < |h.blocks|
    ensures i < |Without(h, i + 1).blocks| && Without(h, i + 1).blocks[i] == h.blocks[i]
  {
  }

  /** What lies around the merged block. */
  lemma LeftReads(u: Heap, i: nat)
    requires i < |u.blocks| && !u.blocks[i].used
    ensures FreeBefore(u, i) ==>
              var r := Without(u, i);
              i - 1 < |r.blocks| && r.blocks[i - 1] == u.blocks[i - 1] && (FreeAfter(r, i - 1) <==> FreeAfter(u, i))
              && (i + 1 < |u.blocks| ==> r.blocks[i] == u.blocks[i + 1])
  {
  }

  lemma CycleReads(items: map<int, Item>, free: seq<nat>, k: nat)
    requires FreeRing(items, free) && k < |free|
    ensures free[k] in items && items[free[k]].nextFree == Cycle(free)[k + 2]
  {
    hide Cycle;
    assert Cycle(free)[k + 1] == free[k];
    assert Linked(items, Cycle(free)[k + 1], Cycle(free)[k + 1 + 1]);
  }

  lemma CycleStart(items: map<int, Item>, free: seq<nat>)
    requires FreeRing(items, free)
    ensures FREE_HEADER in items && items[FREE_HEADER].nextFree == Cycle(free)[1]
  {
    hide Cycle;
    assert Linked(items, Cycle(free)[0], Cycle(free)[0 + 1]);
  }

  lemma CycleAt(free: seq<nat>, k: nat)
    requires k <= |free|
    ensures k < |free| ==> Cycle(free)[k + 1] == free[k] != FREE_HEADER
    ensures k == |free| ==> Cycle(free)[k + 1] == FREE_HEADER
  {
    hide Cycle;
  }

  lemma {:induction false} FirstFreeIs(h: Heap, free: seq<nat>, size: nat, k: nat)
    requires k <= |free| && (k < |free| ==> RoomAt(h, free[k]) >= size)
    requires forall j :: 0 <= j < k ==> RoomAt(h, free[j]) < size
    ensures FirstListed(h, free, size) == k
  {
    hide RoomAt;
    if k > 0 {
      assert RoomAt(h, free[0]) < size;
      FirstFreeIs(h, free[1..], size, k - 1);
    }
  }

  /** Marking after splitting is splitting after marking. */
  lemma TakeOrder(h: Heap, i: nat, size: nat)
    requires i < |h.blocks|
    ensures Room(h, i) >= size + h.header + MIN_SIZE ==>
              SetUsed(InsertAfter(h, i, Block(h.blocks[i].off + h.header + size, false)), i, true) ==
                  BlockList.Take(h, i, size)
    ensures Room(h, i) < size + h.header + MIN_SIZE ==> SetUsed(h, i, true) == BlockList.Take(h, i, size)
  {
  }

  /** Merging to the left first ends in the same list. */
  lemma MergeOrder(u: Heap, i: nat)
    requires i < |u.blocks| && !u.blocks[i].used
    ensures var left := if FreeBefore(u, i) then Without(u, i) else u;
            var at := if FreeBefore(u, i) then i - 1 else i;
            MergeBackward(MergeForward(u, i), i) == if FreeAfter(u, i) then Without(left, at + 1) else left
  {
    if FreeBefore(u, i) && FreeAfter(u, i) {
      assert Without(Without(u, i), i).blocks == Without(Without(u, i + 1), i).blocks;
    }
  }
}
