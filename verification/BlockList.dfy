/** A region of memory as a list of blocks, each with a header and a payload: how marking,
    splitting and merging blocks change the list. Both rt-thread/src/mem.c and
    rt-thread/src/memheap.c keep such a list. */
module BlockList {

  const MIN_SIZE: nat := 12      // MIN_SIZE_ALIGNED, RT_MEMHEAP_MINIALLOC
  const WORD: nat := 4           // RT_ALIGN_SIZE

  /** A block starts with its header at offset off and reaches to the next block. */
  datatype Block = Block(off: nat, used: bool)

  /** All blocks in address order; `end` is the offset of the last header, `header` its size. */
  datatype Heap = Heap(blocks: seq<Block>, end: nat, header: nat)

  function FirstOff(blocks: seq<Block>, end: nat): nat {
    if blocks == [] then end else blocks[0].off
  }

  function Next(h: Heap, i: nat): nat
    requires i < |h.blocks|
  {
    if i + 1 < |h.blocks| then h.blocks[i + 1].off else h.end
  }

  /** The payload bytes of block i. */
  function Room(h: Heap, i: nat): int
    requires i < |h.blocks|
  {
    Next(h, i) - h.blocks[i].off - h.header
  }

  /** The blocks tile [0, end) without gap or overlap, at word-aligned offsets. */
  ghost predicate Tiles(h: Heap) {
    && h.blocks != [] && h.blocks[0].off == 0 && h.end % WORD == 0 && h.header % WORD == 0
    && (forall i :: 0 <= i < |h.blocks| ==> h.blocks[i].off % WORD == 0 && Room(h, i) >= WORD)
  }

  /** Of blocks i and i + 1 at most one is free. */
  predicate OneUsed(h: Heap, i: nat)
    requires i + 1 < |h.blocks|
  {
    h.blocks[i].used || h.blocks[i + 1].used
  }

  ghost predicate Coalesced(h: Heap) {
    forall i :: 0 <= i < |h.blocks| - 1 ==> OneUsed(h, i)
  }

  function LowestFree(blocks: seq<Block>, otherwise: nat): nat {
    if blocks == [] then otherwise
    else if !blocks[0].used then blocks[0].off
    else LowestFree(blocks[1..], otherwise)
  }

  /** Bytes in used blocks, headers included. */
  function UsedSum(blocks: seq<Block>, end: nat): int {
    if blocks == [] then 0
    else (if blocks[0].used then FirstOff(blocks[1..], end) - blocks[0].off else 0) + UsedSum(blocks[1..], end)
  }

  // ---------------------------------------------------------------------------------
  // Operations on the block list
  // ---------------------------------------------------------------------------------

  function SetUsed(h: Heap, i: nat, used: bool): Heap
    requires i < |h.blocks|
  {
    h.(blocks := h.blocks[i := Block(h.blocks[i].off, used)])
  }

  function InsertAfter(h: Heap, i: nat, b: Block): Heap
    requires i < |h.blocks|
  {
    h.(blocks := h.blocks[..i + 1] + [b] + h.blocks[i + 1..])
  }

  function Without(h: Heap, k: nat): Heap
    requires k < |h.blocks|
  {
    h.(blocks := h.blocks[..k] + h.blocks[k + 1..])
  }

  /** Take size bytes from free block i, splitting it when the rest can hold a block. */
  function Take(h: Heap, i: nat, size: nat): Heap
    requires i < |h.blocks|
  {
    if Room(h, i) >= size + h.header + MIN_SIZE then
      InsertAfter(SetUsed(h, i, true), i, Block(h.blocks[i].off + h.header + size, false))
    else
      SetUsed(h, i, true)
  }

  function MergeForward(h: Heap, i: nat): Heap
    requires i < |h.blocks|
  {
    if i + 1 < |h.blocks| && !h.blocks[i + 1].used then Without(h, i + 1) else h
  }

  function MergeBackward(h: Heap, i: nat): Heap
    requires i < |h.blocks|
  {
    if i > 0 && !h.blocks[i - 1].used then Without(h, i) else h
  }

  /** rt_free of block i. */
  function Free(h: Heap, i: nat): Heap
    requires i < |h.blocks|
  {
    MergeBackward(MergeForward(SetUsed(h, i, false), i), i)
  }

  /** The in-place branch of rt_realloc. */
  function Shrink(h: Heap, i: nat, size: nat): Heap
    requires i < |h.blocks|
  {
    MergeForward(InsertAfter(h, i, Block(h.blocks[i].off + h.header + size, false)), i + 1)
  }

  // ---------------------------------------------------------------------------------
  // Reading the list
  // ---------------------------------------------------------------------------------

  lemma {:induction false} Ascending(h: Heap, i: nat, j: nat)
    requires Tiles(h) && i < j < |h.blocks|
    ensures h.blocks[i].off + h.header + WORD <= Next(h, i) <= h.blocks[j].off
    decreases j - i
  {
    assert Room(h, i) >= WORD;
    if i + 1 < j {
      Ascending(h, i + 1, j);
    }
  }

  lemma {:induction false} BelowEnd(h: Heap, i: nat)
    requires Tiles(h) && i < |h.blocks|
    ensures h.blocks[i].off + h.header + WORD <= Next(h, i) <= h.end
  {
    assert Room(h, i) >= WORD;
    if i + 1 < |h.blocks| {
      Ascending(h, i, |h.blocks| - 1);
      assert Room(h, |h.blocks| - 1) >= WORD;
    }
  }

  /** Payloads of different blocks are disjoint, in bounds and word-aligned. */
  lemma PayloadsDisjoint(h: Heap, i: nat, j: nat)
    requires Tiles(h) && i < |h.blocks| && j < |h.blocks| && i != j
    ensures Next(h, i) <= h.blocks[j].off || Next(h, j) <= h.blocks[i].off
    ensures h.blocks[i].off + h.header < Next(h, i) <= h.end
  {
    hide Tiles;
    BelowEnd(h, i);
    if i < j {
      Ascending(h, i, j);
    } else {
      Ascending(h, j, i);
    }
  }

  lemma {:induction false} UsedSumAppend(a: seq<Block>, b: seq<Block>, end: nat)
    ensures UsedSum(a + b, end) == UsedSum(a, FirstOff(b, end)) + UsedSum(b, end)
  {
    if a == [] {
      assert a + b == b;
    } else {
      assert (a + b)[1..] == a[1..] + b;
      UsedSumAppend(a[1..], b, end);
    }
  }

  lemma {:induction false} LowestFreeAppend(a: seq<Block>, b: seq<Block>, otherwise: nat)
    ensures LowestFree(a + b, otherwise) == LowestFree(a, LowestFree(b, otherwise))
  {
    if a == [] {
      assert a + b == b;
    } else {
      assert (a + b)[1..] == a[1..] + b;
      LowestFreeAppend(a[1..], b, otherwise);
    }
  }

  // ---------------------------------------------------------------------------------
  // The three primitive changes
  // ---------------------------------------------------------------------------------

  lemma SetUsedTiles(h: Heap, i: nat, used: bool)
    requires Tiles(h) && i < |h.blocks|
    ensures Tiles(SetUsed(h, i, used))
  {
    var r := SetUsed(h, i, used);
    forall k | 0 <= k < |r.blocks|
      ensures r.blocks[k].off % WORD == 0 && Room(r, k) >= WORD
    {
      assert Room(h, k) >= WORD;
    }
  }

  lemma InsertTiles(h: Heap, i: nat, b: Block)
    requires Tiles(h) && i < |h.blocks| && b.off % WORD == 0
    requires h.blocks[i].off + h.header + WORD <= b.off && b.off + h.header + WORD <= Next(h, i)
    ensures Tiles(InsertAfter(h, i, b))
  {
    var r := InsertAfter(h, i, b);
    forall k | 0 <= k < |r.blocks|
      ensures r.blocks[k].off % WORD == 0 && Room(r, k) >= WORD
    {
      if k <= i {
        assert Room(h, k) >= WORD;
      } else if k > i + 1 {
        assert Room(h, k - 1) >= WORD;
      }
    }
  }

  lemma WithoutTiles(h: Heap, k: nat)
    requires Tiles(h) && 0 < k < |h.blocks|
    ensures Tiles(Without(h, k))
  {
    var r := Without(h, k);
    forall j | 0 <= j < |r.blocks|
      ensures r.blocks[j].off % WORD == 0 && Room(r, j) >= WORD
    {
      if j < k {
        assert Room(h, j) >= WORD && Room(h, j + 1) >= WORD;
      } else {
        assert Room(h, j + 1) >= WORD;
      }
    }
  }

  /** A change in the middle changes the sum and the lowest free block only there. */
  lemma Middle(a: seq<Block>, x: seq<Block>, y: seq<Block>, c: seq<Block>, end: nat)
    requires x != [] && y != [] && x[0].off == y[0].off
    ensures UsedSum(a + x + c, end) - UsedSum(a + y + c, end) ==
            UsedSum(x, FirstOff(c, end)) - UsedSum(y, FirstOff(c, end))
    ensures LowestFree(a + x + c, end) == LowestFree(a, LowestFree(x, LowestFree(c, end)))
    ensures LowestFree(a + y + c, end) == LowestFree(a, LowestFree(y, LowestFree(c, end)))
  {
    hide UsedSum, LowestFree;
    assert a + x + c == a + (x + c) && a + y + c == a + (y + c);
    UsedSumAppend(a, x + c, end);
    UsedSumAppend(a, y + c, end);
    UsedSumAppend(x, c, end);
    UsedSumAppend(y, c, end);
    LowestFreeAppend(a, x + c, end);
    LowestFreeAppend(a, y + c, end);
    LowestFreeAppend(x, c, end);
    LowestFreeAppend(y, c, end);
  }

  lemma OneBlock(b: Block, end: nat)
    ensures UsedSum([b], end) == if b.used then end - b.off else 0
    ensures LowestFree([b], end) == if b.used then end else b.off
  {
  }

  lemma TwoBlocks(a: Block, b: Block, end: nat)
    ensures UsedSum([a, b], end) == (if a.used then b.off - a.off else 0) + (if b.used then end - b.off else 0)
    ensures LowestFree([a, b], end) == if !a.used then a.off else if !b.used then b.off else end
  {
    assert [a, b][1..] == [b];
    OneBlock(b, end);
  }

  /** Where the lowest free block is: block i, if i is free and everything before it is used. */
  lemma {:induction false} LowestFreeIs(blocks: seq<Block>, otherwise: nat, i: nat)
    requires i <= |blocks| && (forall k :: 0 <= k < i ==> blocks[k].used) && (i < |blocks| ==> !blocks[i].used)
    ensures LowestFree(blocks, otherwise) == if i < |blocks| then blocks[i].off else otherwise
  {
    if i > 0 {
      LowestFreeIs(blocks[1..], otherwise, i - 1);
    }
  }

  // ---------------------------------------------------------------------------------
  // Live payloads: where each starts and where it ends
  // ---------------------------------------------------------------------------------

  function One(b: Block, end: nat, hd: nat): map<nat, nat> {
    if b.used then map[b.off + hd := end] else map[]
  }

  function PayloadsOf(blocks: seq<Block>, end: nat, hd: nat): map<nat, nat> {
    if blocks == [] then map[] else One(blocks[0], FirstOff(blocks[1..], end), hd) + PayloadsOf(blocks[1..], end, hd)
  }

  function Payloads(h: Heap): map<nat, nat> {
    PayloadsOf(h.blocks, h.end, h.header)
  }

  lemma {:induction false} PayloadsAppend(a: seq<Block>, b: seq<Block>, end: nat, hd: nat)
    ensures PayloadsOf(a + b, end, hd) == PayloadsOf(a, FirstOff(b, end), hd) + PayloadsOf(b, end, hd)
  {
    hide PayloadsOf, One;
    if a == [] {
      assert a + b == b;
      PayloadsNone(FirstOff(b, end), hd);
      assert map[] + PayloadsOf(b, end, hd) == PayloadsOf(b, end, hd);
    } else {
      PayloadsAppend(a[1..], b, end, hd);
      PayloadsCons(a, b, end, hd);
      MapAssoc(One(a[0], FirstOff(a[1..], FirstOff(b, end)), hd), PayloadsOf(a[1..], FirstOff(b, end), hd),
               PayloadsOf(b, end, hd));
    }
  }

  lemma PayloadsCons(a: seq<Block>, b: seq<Block>, end: nat, hd: nat)
    requires a != []
    ensures PayloadsOf(a + b, end, hd) ==
            One(a[0], FirstOff(a[1..], FirstOff(b, end)), hd) + PayloadsOf(a[1..] + b, end, hd)
    ensures PayloadsOf(a, FirstOff(b, end), hd) ==
            One(a[0], FirstOff(a[1..], FirstOff(b, end)), hd) + PayloadsOf(a[1..], FirstOff(b, end), hd)
  {
    hide One;
    assert (a + b)[1..] == a[1..] + b;
    assert FirstOff(a[1..] + b, end) == FirstOff(a[1..], FirstOff(b, end));
  }

  lemma PayloadsNone(end: nat, hd: nat)
    ensures PayloadsOf([], end, hd) == map[]
  {
  }

  lemma MapAssoc(a: map<nat, nat>, b: map<nat, nat>, c: map<nat, nat>)
    ensures a + (b + c) == a + b + c
  {
  }

  /** Tiles, for a stretch of the list. */
  ghost predicate Stretch(blocks: seq<Block>, end: nat, hd: nat) {
    forall i :: 0 <= i < |blocks| ==> blocks[i].off + hd + WORD <= Following(blocks, end, i)
  }

  function Following(blocks: seq<Block>, end: nat, i: nat): nat
    requires i < |blocks|
  {
    if i + 1 < |blocks| then blocks[i + 1].off else end
  }

  lemma StretchOf(h: Heap, i: nat)
    requires Tiles(h) && i <= |h.blocks|
    ensures Stretch(h.blocks[..i], FirstOff(h.blocks[i..], h.end), h.header) && Stretch(h.blocks[i..], h.end, h.header)
  {
    hide Tiles, Following;
    forall k | 0 <= k < i
      ensures h.blocks[..i][k].off + h.header + WORD <= Following(h.blocks[..i], FirstOff(h.blocks[i..], h.end), k)
    {
      BelowEnd(h, k);
      FollowingIs(h, i, k);
    }
    forall k | 0 <= k < |h.blocks| - i
      ensures h.blocks[i..][k].off + h.header + WORD <= Following(h.blocks[i..], h.end, k)
    {
      BelowEnd(h, i + k);
      FollowingIs(h, i, i + k);
    }
  }

  lemma FollowingIs(h: Heap, i: nat, k: nat)
    requires i <= |h.blocks| && k < |h.blocks|
    ensures k < i ==> Following(h.blocks[..i], FirstOff(h.blocks[i..], h.end), k) == Next(h, k)
    ensures i <= k ==> Following(h.blocks[i..], h.end, k - i) == Next(h, k)
  {
  }

  lemma {:induction false} PayloadBounds(blocks: seq<Block>, end: nat, p: nat, hd: nat)
    requires Stretch(blocks, end, hd) && p in PayloadsOf(blocks, end, hd)
    ensures FirstOff(blocks, end) + hd <= p < PayloadsOf(blocks, end, hd)[p] <= end
  {
    var rest := blocks[1..];
    assert Following(blocks, end, 0) == FirstOff(rest, end);
    StretchRest(blocks, end, hd);
    if p in PayloadsOf(rest, end, hd) {
      PayloadBounds(rest, end, p, hd);
    } else {
      FirstBelowEnd(rest, end, hd);
    }
  }

  lemma StretchRest(blocks: seq<Block>, end: nat, hd: nat)
    requires Stretch(blocks, end, hd) && blocks != []
    ensures Stretch(blocks[1..], end, hd)
  {
    forall k | 0 <= k < |blocks| - 1
      ensures Following(blocks[1..], end, k) == Following(blocks, end, k + 1)
    {
    }
  }

  lemma {:induction false} FirstBelowEnd(blocks: seq<Block>, end: nat, hd: nat)
    requires Stretch(blocks, end, hd)
    ensures FirstOff(blocks, end) <= end
  {
    if blocks != [] {
      StretchRest(blocks, end, hd);
      FirstBelowEnd(blocks[1..], end, hd);
      assert Following(blocks, end, 0) == FirstOff(blocks[1..], end);
    }
  }

  /** The payload map around block i. */
  lemma PayloadsAround(h: Heap, i: nat) returns (before: map<nat, nat>, after: map<nat, nat>)
    requires Tiles(h) && i < |h.blocks|
    ensures before == PayloadsOf(h.blocks[..i], h.blocks[i].off, h.header)
    ensures after == PayloadsOf(h.blocks[i + 1..], h.end, h.header)
    ensures Payloads(h) == before + One(h.blocks[i], Next(h, i), h.header) + after
    ensures forall p :: p in before ==> p < h.blocks[i].off && before[p] <= h.blocks[i].off
    ensures forall p :: p in after ==> p >= Next(h, i) + h.header
  {
    hide Tiles, PayloadsOf, Stretch, One;
    var a, c := h.blocks[..i], h.blocks[i + 1..];
    before, after := PayloadsOf(a, h.blocks[i].off, h.header), PayloadsOf(c, h.end, h.header);
    assert h.blocks == a + h.blocks[i..] && h.blocks[i..] == [h.blocks[i]] + c;
    PayloadsAppend(a, h.blocks[i..], h.end, h.header);
    PayloadsAppend([h.blocks[i]], c, h.end, h.header);
    PayloadsSingle(h.blocks[i], Next(h, i), h.header);
    StretchOf(h, i);
    StretchOf(h, i + 1);
    forall p | p in before
      ensures p < h.blocks[i].off && before[p] <= h.blocks[i].off
    {
      PayloadBounds(a, h.blocks[i].off, p, h.header);
    }
    forall p | p in after
      ensures p >= Next(h, i) + h.header
    {
      PayloadBounds(c, h.end, p, h.header);
    }
  }

  lemma PayloadsSingle(b: Block, end: nat, hd: nat)
    ensures PayloadsOf([b], end, hd) == One(b, end, hd)
  {
  }

  lemma PayloadOfBlock(h: Heap, i: nat)
    requires Tiles(h) && i < |h.blocks| && h.blocks[i].used
    ensures h.blocks[i].off + h.header in Payloads(h) && Payloads(h)[h.blocks[i].off + h.header] == Next(h, i)
  {
    hide PayloadsOf;
    BelowEnd(h, i);
    var before, after := PayloadsAround(h, i);
  }

  /** The block a live payload belongs to. */
  lemma {:induction false} BlockOfPayload(blocks: seq<Block>, end: nat, p: nat, hd: nat) returns (i: nat)
    requires p in PayloadsOf(blocks, end, hd)
    ensures i < |blocks| && blocks[i].used && p == blocks[i].off + hd
    ensures PayloadsOf(blocks, end, hd)[p] == FirstOff(blocks[i + 1..], end)
  {
    if p in PayloadsOf(blocks[1..], end, hd) {
      var k := BlockOfPayload(blocks[1..], end, p, hd);
      assert blocks[1..][k + 1..] == blocks[k + 2..];
      i := k + 1;
    } else {
      i := 0;
    }
  }

  /** Live payloads are word-aligned, in bounds, and never share a byte; neither does any of them
      with the header of another block. */
  lemma LivePayloadsDisjoint(h: Heap, p: nat, q: nat)
    requires Tiles(h) && p in Payloads(h) && q in Payloads(h) && p != q
    ensures Payloads(h)[p] + h.header <= q || Payloads(h)[q] + h.header <= p
    ensures h.header <= p < Payloads(h)[p] <= h.end && p % WORD == 0
  {
    hide PayloadsOf, Tiles;
    var i := BlockOfPayload(h.blocks, h.end, p, h.header);
    var j := BlockOfPayload(h.blocks, h.end, q, h.header);
    PayloadsDisjoint(h, i, j);
    OffsetAligned(h, i, 0);
  }

  // ---------------------------------------------------------------------------------
  // What each operation does
  // ---------------------------------------------------------------------------------

  lemma SetUsedSum(h: Heap, i: nat, used: bool)
    requires Tiles(h) && i < |h.blocks| && h.blocks[i].used != used
    ensures var r := SetUsed(h, i, used);
            var size := Next(h, i) - h.blocks[i].off;
            Tiles(r) && UsedSum(r.blocks, r.end) == UsedSum(h.blocks, h.end) + (if used then size else -size)
  {
    hide UsedSum, LowestFree, Tiles;
    var r := SetUsed(h, i, used);
    SetUsedTiles(h, i, used);
    var a, c := h.blocks[..i], h.blocks[i + 1..];
    assert h.blocks == a + [h.blocks[i]] + c && r.blocks == a + [r.blocks[i]] + c;
    Middle(a, [h.blocks[i]], [r.blocks[i]], c, h.end);
    OneBlock(h.blocks[i], Next(h, i));
    OneBlock(r.blocks[i], Next(h, i));
  }

  lemma SetUsedPayloads(h: Heap, i: nat, used: bool)
    requires Tiles(h) && i < |h.blocks| && h.blocks[i].used != used
    ensures var r := SetUsed(h, i, used);
            var p := h.blocks[i].off + h.header;
            && Payloads(r) == (if used then Payloads(h)[p := Next(h, i)] else Payloads(h) - {p})
            && (!used ==> p in Payloads(h)) && (used ==> p !in Payloads(h))
  {
    hide PayloadsOf, Tiles;
    var r := SetUsed(h, i, used);
    SetUsedTiles(h, i, used);
    BelowEnd(h, i);
    var before, after := PayloadsAround(h, i);
    var before', after' := PayloadsAround(r, i);
    assert r.blocks[..i] == h.blocks[..i] && r.blocks[i + 1..] == h.blocks[i + 1..];
  }

  /** Splitting used block i at offset off: its payload ends there, and the rest is free. */
  lemma SplitSum(h: Heap, i: nat, off: nat)
    requires Tiles(h) && i < |h.blocks| && h.blocks[i].used && off % WORD == 0
    requires h.blocks[i].off + h.header + WORD <= off && off + h.header + WORD <= Next(h, i)
    ensures var r := InsertAfter(h, i, Block(off, false));
            Tiles(r) && UsedSum(r.blocks, r.end) == UsedSum(h.blocks, h.end) - (Next(h, i) - off)
  {
    hide UsedSum, LowestFree, Tiles;
    var b := Block(off, false);
    var r := InsertAfter(h, i, b);
    InsertTiles(h, i, b);
    var a, c := h.blocks[..i], h.blocks[i + 1..];
    assert h.blocks == a + [h.blocks[i]] + c && r.blocks == a + [h.blocks[i], b] + c;
    Middle(a, [h.blocks[i]], [h.blocks[i], b], c, h.end);
    OneBlock(h.blocks[i], Next(h, i));
    TwoBlocks(h.blocks[i], b, Next(h, i));
  }

  lemma SplitPayloads(h: Heap, i: nat, off: nat)
    requires Tiles(h) && i < |h.blocks| && h.blocks[i].used && off % WORD == 0
    requires h.blocks[i].off + h.header + WORD <= off && off + h.header + WORD <= Next(h, i)
    ensures Payloads(InsertAfter(h, i, Block(off, false))) == Payloads(h)[h.blocks[i].off + h.header := off]
  {
    hide PayloadsOf, Tiles;
    var b := Block(off, false);
    var r := InsertAfter(h, i, b);
    InsertTiles(h, i, b);
    var before, after := PayloadsAround(h, i);
    var before', after' := PayloadsAround(r, i);
    assert r.blocks[..i] == h.blocks[..i] && r.blocks[i + 1..] == [b] + h.blocks[i + 1..];
    FreeFirst(b, h.blocks[i + 1..], h.end, h.header);
  }

  lemma FreeFirst(b: Block, rest: seq<Block>, end: nat, hd: nat)
    requires !b.used
    ensures PayloadsOf([b] + rest, end, hd) == PayloadsOf(rest, end, hd)
  {
    assert ([b] + rest)[1..] == rest;
  }

  /** Merging free block k into the block before it changes no payload unless that block is used. */
  lemma MergeSum(h: Heap, k: nat)
    requires Tiles(h) && 0 < k < |h.blocks| && !h.blocks[k].used && !h.blocks[k - 1].used
    ensures var r := Without(h, k);
            && Tiles(r) && UsedSum(r.blocks, r.end) == UsedSum(h.blocks, h.end)
            && LowestFree(r.blocks, r.end) == LowestFree(h.blocks, h.end)
  {
    hide UsedSum, LowestFree, Tiles;
    var r := Without(h, k);
    WithoutTiles(h, k);
    var x, y := h.blocks[k - 1], h.blocks[k];
    var a, c := h.blocks[..k - 1], h.blocks[k + 1..];
    assert h.blocks == a + [x, y] + c && r.blocks == a + [x] + c;
    Middle(a, [x, y], [x], c, h.end);
    OneBlock(x, Next(h, k));
    TwoBlocks(x, y, Next(h, k));
    OneBlock(x, LowestFree(c, h.end));
    TwoBlocks(x, y, LowestFree(c, h.end));
  }

  lemma MergePayloads(h: Heap, k: nat)
    requires Tiles(h) && 0 < k < |h.blocks| && !h.blocks[k].used && !h.blocks[k - 1].used
    ensures Payloads(Without(h, k)) == Payloads(h)
  {
    hide PayloadsOf, Tiles;
    var r := Without(h, k);
    WithoutTiles(h, k);
    var before, after := PayloadsAround(h, k - 1);
    var before', after' := PayloadsAround(r, k - 1);
    assert r.blocks[..k - 1] == h.blocks[..k - 1] && r.blocks[k..] == h.blocks[k + 1..];
    assert h.blocks[k..] == [h.blocks[k]] + h.blocks[k + 1..];
    FreeFirst(h.blocks[k], h.blocks[k + 1..], h.end, h.header);
  }

  // ---------------------------------------------------------------------------------
  // Taking, freeing and shrinking
  // ---------------------------------------------------------------------------------

  ghost predicate Good(h: Heap) {
    Tiles(h) && Coalesced(h)
  }

  /** Taking a block hands out one payload of at least the size asked for, counted exactly. */
  lemma TakeChanges(h: Heap, i: nat, size: nat)
    requires Good(h) && i < |h.blocks| && !h.blocks[i].used
    requires Room(h, i) >= size && size % WORD == 0 && size >= MIN_SIZE
    ensures var r := Take(h, i, size);
            var p := h.blocks[i].off + h.header;
            && Good(r) && i < |r.blocks| && p + size <= Next(r, i) && p !in Payloads(h)
            && Payloads(r) == Payloads(h)[p := Next(r, i)]
            && UsedSum(r.blocks, r.end) == UsedSum(h.blocks, h.end) + Next(r, i) - h.blocks[i].off
  {
    hide UsedSum, LowestFree, PayloadsOf, Tiles, Coalesced;
    TakeCoalesces(h, i, size);
    var u := SetUsed(h, i, true);
    SetUsedSum(h, i, true);
    SetUsedPayloads(h, i, true);
    assert Next(u, i) == Next(h, i);
    if Room(h, i) >= size + h.header + MIN_SIZE {
      var off := h.blocks[i].off + h.header + size;
      OffsetAligned(h, i, size);
      SplitSum(u, i, off);
      SplitPayloads(u, i, off);
    }
  }

  lemma TakeCoalesces(h: Heap, i: nat, size: nat)
    requires Coalesced(h) && i < |h.blocks| && !h.blocks[i].used
    ensures Coalesced(Take(h, i, size))
  {
    var r := Take(h, i, size);
    forall k | 0 <= k < |r.blocks| - 1
      ensures OneUsed(r, k)
    {
      if k > i && |r.blocks| > |h.blocks| {
        assert OneUsed(h, k - 1);
      } else if k != i {
        assert OneUsed(h, k);
      }
    }
  }

  lemma OffsetAligned(h: Heap, i: nat, size: nat)
    requires Tiles(h) && i < |h.blocks| && size % WORD == 0
    ensures (h.blocks[i].off + h.header + size) % WORD == 0
  {
    assert Room(h, i) >= WORD;
    AlignedSum(h.blocks[i].off, h.header, size);
  }

  lemma AlignedSum(a: nat, b: nat, c: nat)
    requires a % WORD == 0 && b % WORD == 0 && c % WORD == 0
    ensures (a + b + c) % WORD == 0
  {
  }

  /** Freeing takes exactly that payload away. */
  lemma FreeChanges(h: Heap, i: nat)
    requires Good(h) && i < |h.blocks| && h.blocks[i].used
    ensures var r := Free(h, i);
            var p := h.blocks[i].off + h.header;
            && Good(r) && p in Payloads(h) && Payloads(h)[p] == Next(h, i)
            && Payloads(r) == Payloads(h) - {p}
            && UsedSum(r.blocks, r.end) == UsedSum(h.blocks, h.end) - (Next(h, i) - h.blocks[i].off)
            && LowestFree(r.blocks, r.end) == LowestFree(SetUsed(h, i, false).blocks, h.end)
  {
    hide UsedSum, LowestFree, PayloadsOf, Tiles;
    PayloadOfBlock(h, i);
    SetUsedSum(h, i, false);
    SetUsedPayloads(h, i, false);
    var u := SetUsed(h, i, false);
    if i + 1 < |u.blocks| && !u.blocks[i + 1].used {
      MergeSum(u, i + 1);
      MergePayloads(u, i + 1);
    }
    var f := MergeForward(u, i);
    if i > 0 && !f.blocks[i - 1].used {
      MergeSum(f, i);
      MergePayloads(f, i);
    }
    FreeCoalesces(h, i);
  }

  lemma FreeCoalesces(h: Heap, i: nat)
    requires Coalesced(h) && i < |h.blocks| && h.blocks[i].used
    ensures Coalesced(Free(h, i))
  {
    hide OneUsed;
    var u := SetUsed(h, i, false);
    forall k | 0 <= k < |u.blocks| - 1 && k != i - 1 && k != i
      ensures OneUsed(u, k)
    {
      assert OneUsed(h, k);
      SamePair(h, k, u, k);
    }
    ForwardCoalesces(u, i);
    BackwardCoalesces(MergeForward(u, i), i);
  }

  lemma SamePair(h: Heap, k: nat, r: Heap, j: nat)
    requires k + 1 < |h.blocks| && j + 1 < |r.blocks|
    requires h.blocks[k].used ==> r.blocks[j].used
    requires h.blocks[k + 1].used ==> r.blocks[j + 1].used
    ensures OneUsed(h, k) ==> OneUsed(r, j)
  {
  }

  lemma ForwardCoalesces(h: Heap, i: nat)
    requires i < |h.blocks| && !h.blocks[i].used
    requires forall k :: 0 <= k < |h.blocks| - 1 && k != i - 1 && k != i ==> OneUsed(h, k)
    ensures var f := MergeForward(h, i);
            i < |f.blocks| && !f.blocks[i].used && forall k :: 0 <= k < |f.blocks| - 1 && k != i - 1 ==> OneUsed(f, k)
  {
    var f := MergeForward(h, i);
    forall k | 0 <= k < |f.blocks| - 1 && k != i - 1
      ensures OneUsed(f, k)
    {
      if f != h && k >= i {
        assert OneUsed(h, k + 1);
      } else if k != i {
        assert OneUsed(h, k);
      }
    }
  }

  lemma BackwardCoalesces(h: Heap, i: nat)
    requires i < |h.blocks| && !h.blocks[i].used
    requires forall k :: 0 <= k < |h.blocks| - 1 && k != i - 1 ==> OneUsed(h, k)
    ensures Coalesced(MergeBackward(h, i))
  {
    var b := MergeBackward(h, i);
    forall k | 0 <= k < |b.blocks| - 1
      ensures OneUsed(b, k)
    {
      if i > 0 && !h.blocks[i - 1].used && k >= i - 1 {
        assert OneUsed(h, k + 1);
      } else if k != i - 1 {
        assert OneUsed(h, k);
      }
    }
  }

  /** Shrinking moves the end of that payload and nothing else. */
  lemma ShrinkChanges(h: Heap, i: nat, size: nat)
    requires Good(h) && i < |h.blocks| && h.blocks[i].used && size % WORD == 0 && size > 0
    requires size + h.header + MIN_SIZE < Room(h, i)
    ensures var r := Shrink(h, i, size);
            var p := h.blocks[i].off + h.header;
            && Good(r) && p in Payloads(h) && Payloads(h)[p] == Next(h, i)
            && Payloads(r) == Payloads(h)[p := p + size]
            && UsedSum(r.blocks, r.end) == UsedSum(h.blocks, h.end) - (Room(h, i) - size)
            && LowestFree(r.blocks, r.end) == LowestFree(InsertAfter(h, i, Block(p + size, false)).blocks, h.end)
  {
    hide UsedSum, LowestFree, PayloadsOf, Tiles;
    PayloadOfBlock(h, i);
    var off := h.blocks[i].off + h.header + size;
    OffsetAligned(h, i, size);
    SplitSum(h, i, off);
    SplitPayloads(h, i, off);
    var u := InsertAfter(h, i, Block(off, false));
    if i + 2 < |u.blocks| && !u.blocks[i + 2].used {
      MergeSum(u, i + 2);
      MergePayloads(u, i + 2);
    }
    ShrinkCoalesces(h, i, size);
  }

  lemma ShrinkCoalesces(h: Heap, i: nat, size: nat)
    requires Coalesced(h) && i < |h.blocks| && h.blocks[i].used
    ensures Coalesced(Shrink(h, i, size))
  {
    hide OneUsed;
    var u := InsertAfter(h, i, Block(h.blocks[i].off + h.header + size, false));
    forall k | 0 <= k < |u.blocks| - 1 && k != i && k != i + 1
      ensures OneUsed(u, k)
    {
      if k < i {
        assert OneUsed(h, k);
        SamePair(h, k, u, k);
      } else {
        assert OneUsed(h, k - 1);
        SamePair(h, k - 1, u, k);
      }
    }
    ForwardCoalesces(u, i + 1);
    BackwardCoalesces(MergeForward(u, i + 1), i + 1);
    assert Shrink(h, i, size).blocks[i] == h.blocks[i];
  }

  /** Freeing what was just allocated restores the list. */
  lemma FreeUndoesTake(h: Heap, i: nat, size: nat)
    requires Good(h) && i < |h.blocks| && !h.blocks[i].used && Room(h, i) >= size
    ensures Free(Take(h, i, size), i) == h
  {
    hide Tiles;
    var t := Take(h, i, size);
    var u := SetUsed(t, i, false);
    assert h.blocks[i] == Block(h.blocks[i].off, false);
    if Room(h, i) >= size + h.header + MIN_SIZE {
      assert Without(u, i + 1).blocks == h.blocks;
    } else {
      assert u.blocks == h.blocks;
      assert i + 1 < |h.blocks| ==> OneUsed(h, i);
    }
    assert i > 0 ==> OneUsed(h, i - 1);
  }

  lemma EndAligned(h: Heap)
    requires Tiles(h)
    ensures h.end % WORD == 0
  {
  }

  /** The index of the block of a live payload. */
  ghost function IndexOf(h: Heap, p: nat): (i: nat)
    requires p in Payloads(h)
    ensures i < |h.blocks| && h.blocks[i].used && p == h.blocks[i].off + h.header && Payloads(h)[p] == Next(h, i)
  {
    IndexExists(h, p);
    var i: nat :| i < |h.blocks| && h.blocks[i].used && p == h.blocks[i].off + h.header && Payloads(h)[p] == Next(h, i);
    i
  }

  lemma IndexExists(h: Heap, p: nat)
    requires p in Payloads(h)
    ensures exists i: nat ::
              i < |h.blocks| && h.blocks[i].used && p == h.blocks[i].off + h.header && Payloads(h)[p] == Next(h, i)
  {
    var i := BlockOfPayload(h.blocks, h.end, p, h.header);
    assert Next(h, i) == FirstOff(h.blocks[i + 1..], h.end);
  }

  lemma FreeEnd(h: Heap, i: nat)
    requires i < |h.blocks|
    ensures Free(h, i).end == h.end
  {
  }

  lemma ShrinkEnd(h: Heap, i: nat, size: nat)
    requires i < |h.blocks|
    ensures Shrink(h, i, size).end == h.end
  {
  }

  // ---------------------------------------------------------------------------------
  // The lowest free block
  // ---------------------------------------------------------------------------------

  ghost predicate IsLowestFree(h: Heap, v: nat) {
    && (forall i :: 0 <= i < |h.blocks| && !h.blocks[i].used ==> v <= h.blocks[i].off)
    && (v == h.end || exists i :: 0 <= i < |h.blocks| && !h.blocks[i].used && h.blocks[i].off == v)
  }

  /** LowestFree is the least offset of a free block, or the end. */
  lemma LowestFreeIsLeast(h: Heap, v: nat)
    requires Tiles(h)
    ensures IsLowestFree(h, v) <==> v == LowestFree(h.blocks, h.end)
  {
    var i := FirstFree(h.blocks);
    LowestFreeIs(h.blocks, h.end, i);
    forall j | i < j < |h.blocks|
      ensures h.blocks[i].off < h.blocks[j].off < h.end
    {
      Ascending(h, i, j);
      BelowEnd(h, j);
    }
    if i < |h.blocks| {
      BelowEnd(h, i);
    }
  }

  lemma {:induction false} FirstFree(blocks: seq<Block>) returns (i: nat)
    ensures i <= |blocks| && (forall k :: 0 <= k < i ==> blocks[k].used) && (i < |blocks| ==> !blocks[i].used)
  {
    if blocks == [] || !blocks[0].used {
      i := 0;
    } else {
      i := FirstFree(blocks[1..]);
      assert blocks == [blocks[0]] + blocks[1..];
      i := i + 1;
    }
  }

  /** Freeing block i makes it the lowest free block exactly if it lies below the one before. */
  lemma LowestAfterFree(h: Heap, i: nat)
    requires Tiles(h) && i < |h.blocks| && h.blocks[i].used
    ensures var low := LowestFree(h.blocks, h.end);
            LowestFree(SetUsed(h, i, false).blocks, h.end) == if h.blocks[i].off < low then h.blocks[i].off else low
  {
    hide LowestFree;
    var low := LowestFree(h.blocks, h.end);
    var r := SetUsed(h, i, false);
    var v := if h.blocks[i].off < low then h.blocks[i].off else low;
    SetUsedTiles(h, i, false);
    LowestFreeIsLeast(h, low);
    LowestFreeIsLeast(r, v);
    BelowEnd(h, i);
    assert r.blocks[i].off == h.blocks[i].off && !r.blocks[i].used;
    if low != h.end && v == low {
      var k :| 0 <= k < |h.blocks| && !h.blocks[k].used && h.blocks[k].off == low;
      assert r.blocks[k] == h.blocks[k];
    }
  }

  lemma LowestAfterInsert(h: Heap, i: nat, off: nat)
    requires Tiles(h) && i < |h.blocks| && off % WORD == 0
    requires h.blocks[i].off + h.header + WORD <= off && off + h.header + WORD <= Next(h, i)
    ensures var low := LowestFree(h.blocks, h.end);
            LowestFree(InsertAfter(h, i, Block(off, false)).blocks, h.end) == if off < low then off else low
  {
    hide LowestFree, Tiles;
    var low := LowestFree(h.blocks, h.end);
    var r := InsertAfter(h, i, Block(off, false));
    var v := if off < low then off else low;
    InsertTiles(h, i, Block(off, false));
    LowestFreeIsLeast(h, low);
    LowestFreeIsLeast(r, v);
    BelowEnd(h, i);
    assert r.blocks[i + 1] == Block(off, false);
    forall k | 0 <= k < |r.blocks| && !r.blocks[k].used
      ensures v <= r.blocks[k].off
    {
      if k <= i {
        assert r.blocks[k] == h.blocks[k];
      } else if k > i + 1 {
        assert r.blocks[k] == h.blocks[k - 1];
      }
    }
    if low != h.end && v == low {
      var k :| 0 <= k < |h.blocks| && !h.blocks[k].used && h.blocks[k].off == low;
      if k <= i {
        assert r.blocks[k] == h.blocks[k];
      } else {
        assert r.blocks[k + 1] == h.blocks[k];
      }
    }
  }

  /** Taking a free block above the lowest one leaves the lowest. */
  lemma LowestAfterTake(h: Heap, i: nat, size: nat)
    requires Good(h) && i < |h.blocks| && !h.blocks[i].used
    requires Room(h, i) >= size && size % WORD == 0 && size >= MIN_SIZE
    requires h.blocks[i].off != LowestFree(h.blocks, h.end)
    ensures LowestFree(Take(h, i, size).blocks, h.end) == LowestFree(h.blocks, h.end)
  {
    hide LowestFree, UsedSum, PayloadsOf, Coalesced, Tiles;
    var low := LowestFree(h.blocks, h.end);
    LowestFreeIsLeast(h, low);
    SetUsedTiles(h, i, true);
    var u := SetUsed(h, i, true);
    LowestFreeIsLeast(u, low);
    BelowEnd(h, i);
    assert exists k :: 0 <= k < |u.blocks| && !u.blocks[k].used && u.blocks[k].off == low by {
      var k :| 0 <= k < |h.blocks| && !h.blocks[k].used && h.blocks[k].off == low;
      assert u.blocks[k] == h.blocks[k];
    }
    if Room(h, i) >= size + h.header + MIN_SIZE {
      OffsetAligned(h, i, size);
      LowestAfterInsert(u, i, h.blocks[i].off + h.header + size);
    }
  }
}
