/** The slab allocator of rt-thread/src/slab.c as a whole: pages, zones cut into chunks, and large
    blocks of whole pages. */
module SlabSpec {
  import opened PageList
  import opened ZoneSpec

  const PAGE: nat := 4096        // RT_MM_PAGE_SIZE
  const RELEASE: nat := 2        // ZONE_RELEASE_THRESH
  const SIZE_SPAN: nat := 0x1_0000_0000

  /** An entry of memusage. */
  datatype Usage = FreePage | Small(off: nat) | Large(count: nat)

  /** taken says which page blocks are handed out: zones, spare zones, large blocks, and what was
      reserved at start (the memusage table). */
  datatype Slab = Slab(pages: seq<Run>, taken: map<nat, nat>, usage: map<nat, Usage>, zones: map<nat, Zone>,
                       lists: seq<seq<nat>>, spare: seq<nat>, large: map<nat, nat>, reserved: map<nat, nat>,
                       zonePages: nat, npages: nat)

  // ---------------------------------------------------------------------------------
  // Operations
  // ---------------------------------------------------------------------------------

  function MarkSmall(usage: map<nat, Usage>, z: nat, n: nat): map<nat, Usage> {
    if n == 0 then usage else MarkSmall(usage, z, n - 1)[z + n - 1 := Small(n - 1)]
  }

  function MarkFree(usage: map<nat, Usage>, z: nat, n: nat): map<nat, Usage> {
    if n == 0 then usage else MarkFree(usage, z, n - 1)[z + n - 1 := FreePage]
  }

  function Dropped(list: seq<nat>, z: nat): seq<nat> {
    if list == [] then []
    else if list[0] == z then list[1..]
    else [list[0]] + Dropped(list[1..], z)
  }

  /** A zone that has a free chunk hands it out, and leaves its list when that was the last. */
  function TakeFrom(s: Slab, i: nat): (Slab, Option<nat>)
    requires i < |s.lists| && s.lists[i] != [] && s.lists[i][0] in s.zones
    requires var z := s.zones[s.lists[i][0]]; z.uindex + 1 != z.nmax || z.freeChunks != []
  {
    var z := s.lists[i][0];
    var (r, a) := TakeChunk(s.zones[z]);
    (s.(zones := s.zones[z := r], lists := if r.nfree == 0 then s.lists[i := s.lists[i][1..]] else s.lists), Some(a))
  }

  /** A whole zone becomes the only zone of class i with free chunks. */
  function Install(s: Slab, z: nat, i: nat, size: nat): (Slab, Option<nat>)
    requires i < |s.lists| && size > 0 && Offset(size) <= s.zonePages * PAGE
  {
    var r := Fresh(z * PAGE, s.zonePages * PAGE, size, i);
    (s.(zones := s.zones[z := r], lists := s.lists[i := [z] + s.lists[i]]), Some(Addr(r, 0)))
  }

  /** rt_malloc below the limit. */
  function MallocSmall(s: Slab, i: nat, size: nat): (Slab, Option<nat>)
    requires i < |s.lists| && size > 0 && Offset(size) <= s.zonePages * PAGE && ListHeadOk(s, i)
  {
    if s.lists[i] != [] then TakeFrom(s, i)
    else if s.spare != [] then Install(s.(spare := s.spare[1..]), s.spare[0], i, size)
    else
      var (pages, z) := Alloc(s.pages, s.zonePages);
      if z.None? then (s, None)
      else
        Install(Claimed(s, pages, z.value), z.value, i, size)
  }

  predicate ListHeadOk(s: Slab, i: nat)
    requires i < |s.lists|
  {
    s.lists[i] != [] ==>
      s.lists[i][0] in s.zones && var z := s.zones[s.lists[i][0]]; z.uindex + 1 != z.nmax || z.freeChunks != []
  }

  /** RT_ALIGN to whole pages, on 32 bits. */
  function PagesFor(size: nat): nat {
    (size + PAGE - 1) % SIZE_SPAN / PAGE
  }

  /** rt_malloc from the limit on. */
  function MallocLarge(s: Slab, size: nat): (Slab, Option<nat>) {
    var n := PagesFor(size);
    var (pages, b) := Alloc(s.pages, n);
    if b.None? then (s, None)
    else
      (s.(pages := pages, taken := s.taken[b.value := n], large := s.large[b.value := n],
          usage := s.usage[b.value := Large(n)]),
       Some(b.value * PAGE))
  }

  /** rt_malloc. */
  ghost function Malloc(s: Slab, size: nat): (Slab, Option<nat>)
    requires SlabOk(s)
  {
    if size == 0 then (s, None)
    else if size >= Limit(s.zonePages * PAGE) then MallocLarge(s, size)
    else
      ClassFits(s, size);
      MallocSmall(s, ZoneIndex(size).1, ZoneIndex(size).0)
  }

  /** The list of its class after zone z took a chunk back. */
  function Relisted(s: Slab, z: nat): seq<nat>
    requires z in s.zones && s.zones[z].index < |s.lists|
  {
    var list := s.lists[s.zones[z].index];
    if s.zones[z].nfree == 0 then [z] + list else list
  }

  /** rt_free of a chunk of zone z. */
  function FreeSmall(s: Slab, z: nat, ptr: nat): Slab
    requires z in s.zones && s.zones[z].index < |s.lists|
  {
    var r := GiveChunk(s.zones[z], ptr);
    var i := s.zones[z].index;
    var list := Relisted(s, z);
    if r.nfree == r.nmax && |list| > 1 then
      var spare := s.(zones := s.zones - {z}, lists := s.lists[i := Dropped(list, z)], spare := [z] + s.spare);
      if |spare.spare| > RELEASE then ReleaseZone(spare, z) else spare
    else
      s.(zones := s.zones[z := r], lists := s.lists[i := list])
  }

  function ReleaseZone(s: Slab, z: nat): Slab
    requires s.spare != []
  {
    s.(spare := s.spare[1..], pages := Free(s.pages, z, s.zonePages), taken := s.taken - {z},
       usage := MarkFree(s.usage, z, s.zonePages))
  }

  /** rt_free of a large block. */
  function FreeLarge(s: Slab, b: nat): Slab
    requires b in s.large
  {
    s.(pages := Free(s.pages, b, s.large[b]), taken := s.taken - {b}, large := s.large - {b},
       usage := s.usage[b := Large(0)])
  }

  // ---------------------------------------------------------------------------------
  // Pages
  // ---------------------------------------------------------------------------------

  /** Every page is free or in exactly one block. */
  ghost predicate PagesOk(pages: seq<Run>, taken: map<nat, nat>, npages: nat) {
    && WellFormed(pages)
    && (forall p: nat :: Holds(pages, p) ==> p < npages)
    && (forall b :: b in taken ==> taken[b] > 0 && b + taken[b] <= npages && NoneHeld(pages, b, taken[b]))
    && (forall b, c :: b in taken && c in taken && b != c ==> b + taken[b] <= c || c + taken[c] <= b)
    && (forall p: nat :: p < npages ==> Holds(pages, p) || InBlock(taken, p))
  }

  ghost predicate InBlock(taken: map<nat, nat>, p: nat) {
    exists b :: b in taken && b <= p < b + taken[b]
  }

  lemma TakePages(pages: seq<Run>, taken: map<nat, nat>, npages: nat, n: nat)
    requires PagesOk(pages, taken, npages)
    ensures var (r, a) := Alloc(pages, n); a.Some? ==>
            n > 0 && Holds(pages, a.value) && a.value !in taken && PagesOk(r, taken[a.value := n], npages)
  {
    hide WellFormed, Holds, Alloc;
    AllocTakes(pages, n);
    var (r, a) := Alloc(pages, n);
    if a.Some? {
      var more := taken[a.value := n];
      assert Holds(pages, a.value) && Holds(pages, a.value + n - 1);
      forall b | b in taken
        ensures b + taken[b] <= a.value || a.value + n <= b
      {
        HeldApart(pages, a.value, n, b, taken[b]);
      }
      forall p: nat | p < npages
        ensures Holds(r, p) || InBlock(more, p)
      {
        if a.value <= p < a.value + n {
          assert a.value in more;
        } else if !Holds(r, p) {
          var b :| b in taken && b <= p < b + taken[b];
          assert b in more;
        }
      }
    }
  }

  lemma HeldApart(pages: seq<Run>, a: nat, n: nat, b: nat, m: nat)
    requires (forall p: nat :: a <= p < a + n ==> Holds(pages, p)) && NoneHeld(pages, b, m) && n > 0 && m > 0
    ensures b + m <= a || a + n <= b
  {
    hide Holds;
    assert Holds(pages, a) && !Holds(pages, b);
  }

  lemma GivePages(pages: seq<Run>, taken: map<nat, nat>, npages: nat, z: nat)
    requires PagesOk(pages, taken, npages) && z in taken
    ensures PagesOk(Free(pages, z, taken[z]), taken - {z}, npages)
  {
    hide WellFormed, Holds, Free;
    FreeAdds(pages, z, taken[z]);
    var r, less := Free(pages, z, taken[z]), taken - {z};
    forall b | b in less
      ensures NoneHeld(r, b, less[b])
    {
      forall p: nat | b <= p < b + less[b]
        ensures !Holds(r, p)
      {
        assert !Holds(pages, p);
      }
    }
    forall p: nat | p < npages
      ensures Holds(r, p) || InBlock(less, p)
    {
      if !Holds(r, p) {
        var b :| b in taken && b <= p < b + taken[b];
        assert b in less;
      }
    }
  }

  // ---------------------------------------------------------------------------------
  // Invariant
  // ---------------------------------------------------------------------------------

  /** Each block has one purpose. */
  ghost predicate KindsOk(s: Slab) {
    && s.taken.Keys == s.zones.Keys + Members(s.spare) + s.large.Keys + s.reserved.Keys
    && s.zones.Keys !! Members(s.spare) && s.zones.Keys !! s.large.Keys && s.zones.Keys !! s.reserved.Keys
    && Members(s.spare) !! s.large.Keys && Members(s.spare) !! s.reserved.Keys && s.large.Keys !! s.reserved.Keys
    && NoDup(s.spare)
    && (forall z :: z in s.zones || z in s.spare ==> s.taken[z] == s.zonePages)
    && (forall b :: b in s.large ==> s.taken[b] == s.large[b])
  }

  /** Every page of a zone leads back to the zone. */
  ghost predicate MarksZone(usage: map<nat, Usage>, z: nat, n: nat) {
    forall p: nat :: z <= p < z + n ==> p in usage && usage[p] == Small(p - z)
  }

  ghost predicate UsageOk(s: Slab) {
    && (forall z :: z in s.zones || z in s.spare ==> MarksZone(s.usage, z, s.zonePages))
    && (forall b :: b in s.large ==> b in s.usage && s.usage[b] == Large(s.large[b]))
  }

  ghost predicate ZoneFits(r: Zone, z: nat, zonePages: nat) {
    ZoneOk(r) && InZone(r, z * PAGE, zonePages * PAGE) && r.index < ZONES && r.chunkSize == ClassSize(r.index)
  }

  ghost predicate ZonesOk(zones: map<nat, Zone>, zonePages: nat) {
    forall z :: z in zones ==> ZoneFits(zones[z], z, zonePages)
  }

  /** List i holds exactly the zones of class i that have a free chunk. */
  ghost predicate ListOk(list: seq<nat>, i: nat, zones: map<nat, Zone>) {
    NoDup(list) && forall z :: z in list <==> z in zones && zones[z].index == i && zones[z].nfree > 0
  }

  ghost predicate ListsOk(lists: seq<seq<nat>>, zones: map<nat, Zone>) {
    |lists| == ZONES && forall i :: 0 <= i < |lists| ==> ListOk(lists[i], i, zones)
  }

  /** What rt_system_heap_init can choose. */
  predicate ZoneSizeOk(zoneSize: nat) {
    zoneSize == MIN_ZONE || zoneSize == 2 * MIN_ZONE || zoneSize == 4 * MIN_ZONE
  }

  ghost predicate SlabOk(s: Slab) {
    && ZoneSizeOk(s.zonePages * PAGE)
    && PagesOk(s.pages, s.taken, s.npages) && KindsOk(s) && UsageOk(s)
    && ZonesOk(s.zones, s.zonePages) && ListsOk(s.lists, s.zones)
  }

  /** A request below the limit has a class whose chunks fit a zone. */
  lemma ClassFits(s: Slab, size: nat)
    requires SlabOk(s) && 0 < size < Limit(s.zonePages * PAGE)
    ensures var (n, i) := ZoneIndex(size);
            && 0 <= i < |s.lists| && n == ClassSize(i) && size <= n <= s.zonePages * PAGE / 4 && n % 8 == 0 && n >= 8
            && Offset(n) <= s.zonePages * PAGE && ListHeadOk(s, i)
  {
    hide PagesOk, KindsOk, UsageOk, Offset, ZoneFits, ZoneIndex, ZoneOk;
    ZoneIndexIsLeast(size);
    var (n, i) := ZoneIndex(size);
    ClassWithin(i, s.zonePages * PAGE, size);
    FreshZone(0, s.zonePages * PAGE, n, i);
    HeadHasChunk(s, i);
  }

  /** The smallest class that holds a request below the limit is within a quarter of a zone. */
  lemma ClassWithin(i: nat, zoneSize: nat, size: nat)
    requires ZoneSizeOk(zoneSize) && 0 < size < Limit(zoneSize) && i < ZONES && size <= ClassSize(i)
    requires i > 0 ==> ClassSize(i - 1) < size
    ensures 8 <= ClassSize(i) <= zoneSize / 4
  {
  }

  lemma HeadHasChunk(s: Slab, i: nat)
    requires ZonesOk(s.zones, s.zonePages) && ListsOk(s.lists, s.zones) && i < |s.lists|
    ensures ListHeadOk(s, i)
    ensures s.lists[i] != [] ==> ZoneFits(s.zones[s.lists[i][0]], s.lists[i][0], s.zonePages)
    ensures s.lists[i] != [] ==> s.zones[s.lists[i][0]].nfree > 0 && s.zones[s.lists[i][0]].index == i
  {
    hide InZone, Chunks;
    assert ListOk(s.lists[i], i, s.zones);
    if s.lists[i] != [] {
      var z := s.lists[i][0];
      assert z in s.lists[i];
      assert ZoneFits(s.zones[z], z, s.zonePages);
    }
  }

  // ---------------------------------------------------------------------------------
  // Zone lists
  // ---------------------------------------------------------------------------------

  lemma {:induction false} DroppedMembers(list: seq<nat>, z: nat)
    requires NoDup(list)
    ensures NoDup(Dropped(list, z)) && forall x :: x in Dropped(list, z) <==> x in list && x != z
  {
    if list != [] {
      assert list == [list[0]] + list[1..];
      DroppedMembers(list[1..], z);
      if list[0] != z {
        NoDupCons(list[0], Dropped(list[1..], z));
      }
    }
  }

  lemma NoDupCons(x: nat, s: seq<nat>)
    requires NoDup(s) && x !in s
    ensures NoDup([x] + s)
  {
  }

  /** Changing zone z, or dropping it, with list i made to match. */
  lemma Relist(lists: seq<seq<nat>>, zones: map<nat, Zone>, z: nat, i: nat, list: seq<nat>, after: map<nat, Zone>)
    requires ListsOk(lists, zones) && i < |lists|
    requires forall x :: x != z ==> (x in after <==> x in zones) && (x in zones ==> after[x] == zones[x])
    requires z in zones ==> zones[z].index == i
    requires z in after ==> after[z].index == i
    requires NoDup(list)
    requires forall x :: x in list <==> if x == z then z in after && after[z].nfree > 0 else x in lists[i]
    ensures ListsOk(lists[i := list], after)
  {
    hide NoDup;
    var r := lists[i := list];
    forall k | 0 <= k < |r|
      ensures ListOk(r[k], k, after)
    {
      assert ListOk(lists[k], k, zones);
    }
  }

  // ---------------------------------------------------------------------------------
  // Live pointers
  // ---------------------------------------------------------------------------------

  ghost predicate LiveChunk(s: Slab, z: nat, ptr: nat) {
    z in s.zones && ptr in Live(s.zones[z])
  }

  ghost predicate LiveLarge(s: Slab, ptr: nat) {
    ptr % PAGE == 0 && ptr / PAGE in s.large
  }

  /** A pointer that rt_malloc returned and nobody has freed. */
  ghost predicate IsLive(s: Slab, ptr: nat) {
    LiveLarge(s, ptr) || exists z :: LiveChunk(s, z, ptr)
  }

  /** Where the block of a live chunk lies; its page leads back to its zone. */
  lemma ChunkPage(s: Slab, z: nat, ptr: nat)
    requires SlabOk(s) && LiveChunk(s, z, ptr)
    ensures z in s.taken && s.taken[z] == s.zonePages && z <= ptr / PAGE < z + s.zonePages
    ensures z * PAGE + HEADER <= ptr && ptr + s.zones[z].chunkSize <= (z + s.zonePages) * PAGE
    ensures ptr / PAGE in s.usage && s.usage[ptr / PAGE] == Small(ptr / PAGE - z)
  {
    hide PagesOk, ListsOk, Live;
    assert ZoneFits(s.zones[z], z, s.zonePages);
    LiveInZone(s.zones[z], z * PAGE, s.zonePages * PAGE, ptr);
    assert MarksZone(s.usage, z, s.zonePages);
  }

  lemma LargePage(s: Slab, ptr: nat)
    requires SlabOk(s) && LiveLarge(s, ptr)
    ensures var b := ptr / PAGE;
            b in s.taken && s.taken[b] == s.large[b] > 0 && b in s.usage && s.usage[b] == Large(s.large[b])
  {
    hide ListsOk, ZonesOk, WellFormed, Holds;
  }

  /** The bytes behind a live pointer. */
  ghost function Extent(s: Slab, ptr: nat): nat
    requires SlabOk(s) && IsLive(s, ptr)
  {
    if LiveLarge(s, ptr) then s.large[ptr / PAGE] * PAGE
    else
      var z: nat :| LiveChunk(s, z, ptr);
      s.zones[z].chunkSize
  }

  /** Two live chunks of zones, or of the same zone, never share a byte. */
  lemma ChunksApart(s: Slab, y: nat, p: nat, z: nat, q: nat)
    requires SlabOk(s) && LiveChunk(s, y, p) && LiveChunk(s, z, q) && p != q
    ensures p + s.zones[y].chunkSize <= q || q + s.zones[z].chunkSize <= p
  {
    hide ListsOk, WellFormed, Holds, Live, UsageOk;
    ChunkPage(s, y, p);
    ChunkPage(s, z, q);
    if y == z {
      assert ZoneFits(s.zones[z], z, s.zonePages);
      LiveDisjoint(s.zones[z], p, q);
    } else if y < z {
      assert (y + s.zonePages) * PAGE <= z * PAGE;
    } else {
      assert (z + s.zonePages) * PAGE <= y * PAGE;
    }
  }

  /** The same chunk is live in one zone only. */
  lemma OneZone(s: Slab, y: nat, z: nat, p: nat)
    requires SlabOk(s) && LiveChunk(s, y, p) && LiveChunk(s, z, p)
    ensures y == z
  {
    hide ListsOk, WellFormed, Holds, Live, UsageOk;
    ChunkPage(s, y, p);
    ChunkPage(s, z, p);
  }

  /** A chunk never lies in a large block. */
  lemma ChunkNotLarge(s: Slab, z: nat, p: nat, q: nat)
    requires SlabOk(s) && LiveChunk(s, z, p) && LiveLarge(s, q)
    ensures p + s.zones[z].chunkSize <= q || q + s.large[q / PAGE] * PAGE <= p
  {
    hide ListsOk, WellFormed, Holds, Live, UsageOk;
    ChunkPage(s, z, p);
    LargePage(s, q);
    var b := q / PAGE;
    assert z in s.zones && b in s.large && b != z;
    if b < z {
      assert (b + s.large[b]) * PAGE <= z * PAGE;
    } else {
      assert (z + s.zonePages) * PAGE <= b * PAGE;
    }
  }

  /** Main result: live blocks are pairwise disjoint. */
  lemma LiveDisjointly(s: Slab, p: nat, q: nat)
    requires SlabOk(s) && IsLive(s, p) && IsLive(s, q) && p != q
    ensures p + Extent(s, p) <= q || q + Extent(s, q) <= p
  {
    hide SlabOk, LiveChunk;
    if LiveLarge(s, p) && LiveLarge(s, q) {
      LargeApart(s, p, q);
    } else if LiveLarge(s, p) {
      var z: nat :| LiveChunk(s, z, q);
      ChunkExtent(s, z, q);
      ChunkNotLarge(s, z, q, p);
    } else {
      var y: nat :| LiveChunk(s, y, p);
      ChunkExtent(s, y, p);
      if LiveLarge(s, q) {
        ChunkNotLarge(s, y, p, q);
      } else {
        var z: nat :| LiveChunk(s, z, q);
        ChunkExtent(s, z, q);
        ChunksApart(s, y, p, z, q);
      }
    }
  }

  lemma ChunkExtent(s: Slab, z: nat, p: nat)
    requires SlabOk(s) && LiveChunk(s, z, p) && !LiveLarge(s, p)
    ensures IsLive(s, p) && z in s.zones && Extent(s, p) == s.zones[z].chunkSize
  {
    hide SlabOk;
    var y: nat :| LiveChunk(s, y, p) && Extent(s, p) == s.zones[y].chunkSize;
    OneZone(s, y, z, p);
  }

  lemma LargeApart(s: Slab, p: nat, q: nat)
    requires SlabOk(s) && LiveLarge(s, p) && LiveLarge(s, q) && p != q
    ensures p + s.large[p / PAGE] * PAGE <= q || q + s.large[q / PAGE] * PAGE <= p
  {
    hide ListsOk, WellFormed, Holds, ZonesOk, UsageOk;
    LargePage(s, p);
    LargePage(s, q);
    var b, c := p / PAGE, q / PAGE;
    assert b != c;
    if b < c {
      assert (b + s.large[b]) * PAGE <= c * PAGE;
    } else {
      assert (c + s.large[c]) * PAGE <= b * PAGE;
    }
  }

  // ---------------------------------------------------------------------------------
  // What rt_malloc does
  // ---------------------------------------------------------------------------------

  /** ptr is live after and was not before; every other pointer is as it was. */
  ghost predicate Adds(s: Slab, r: Slab, ptr: nat) {
    !IsLive(s, ptr) && forall x: nat :: IsLive(r, x) <==> IsLive(s, x) || x == ptr
  }

  ghost predicate Subtracts(s: Slab, r: Slab, ptr: nat) {
    forall x: nat :: IsLive(r, x) <==> IsLive(s, x) && x != ptr
  }

  /** A change of zone z that adds chunk a. */
  lemma ZoneAdds(s: Slab, r: Slab, z: nat, a: nat)
    requires r.large == s.large && z in r.zones && !IsLive(s, a)
    requires forall x :: x != z ==> (x in r.zones <==> x in s.zones) && (x in s.zones ==> r.zones[x] == s.zones[x])
    requires Live(r.zones[z]) == (if z in s.zones then Live(s.zones[z]) else {}) + {a}
    ensures Adds(s, r, a) && LiveChunk(r, z, a)
  {
    hide Live;
    forall x: nat
      ensures IsLive(r, x) <==> IsLive(s, x) || x == a
    {
      if exists y :: LiveChunk(s, y, x) {
        var y: nat :| LiveChunk(s, y, x);
        assert LiveChunk(r, y, x);
      }
      if exists y :: LiveChunk(r, y, x) {
        var y: nat :| LiveChunk(r, y, x);
        assert x == a || LiveChunk(s, y, x);
      }
      assert LiveChunk(r, z, a);
    }
  }

  /** No live pointer lies in zone z but those of z. */
  lemma NotElsewhere(s: Slab, z: nat, a: nat)
    requires SlabOk(s) && z in s.taken && s.taken[z] == s.zonePages && z !in s.large
    requires z * PAGE < a && a / PAGE < z + s.zonePages && !LiveChunk(s, z, a)
    ensures !IsLive(s, a)
  {
    hide ListsOk, ZonesOk, UsageOk, WellFormed, Holds, Live;
    if LiveLarge(s, a) {
      LargePage(s, a);
    }
    if exists y :: LiveChunk(s, y, a) {
      var y: nat :| LiveChunk(s, y, a);
      ChunkPage(s, y, a);
    }
  }

  /** ptr is a live chunk of a zone of class i. */
  ghost predicate ChunkOfClass(s: Slab, ptr: nat, i: nat) {
    i < ZONES && exists z :: LiveChunk(s, z, ptr) && s.zones[z].chunkSize == ClassSize(i)
  }

  lemma ClassExtent(s: Slab, ptr: nat, i: nat)
    requires SlabOk(s) && ChunkOfClass(s, ptr, i)
    ensures IsLive(s, ptr) && Extent(s, ptr) == ClassSize(i)
  {
    hide SlabOk, Extent, LiveLarge, IsLive;
    var z: nat :| LiveChunk(s, z, ptr) && s.zones[z].chunkSize == ClassSize(i);
    OnlyThere(s, z, ptr);
    ChunkExtent(s, z, ptr);
  }

  lemma TakeFromOk(s: Slab, i: nat)
    requires SlabOk(s) && i < |s.lists| && s.lists[i] != []
    ensures ListHeadOk(s, i)
    ensures var (r, a) := TakeFrom(s, i); a.Some? && SlabOk(r) && Adds(s, r, a.value) && ChunkOfClass(r, a.value, i)
  {
    hide SlabOk, Live, IsLive, LiveChunk, ZoneOk, InZone, Adds, TakeChunk;
    SlabParts(s);
    HeadHasChunk(s, i);
    TakeKeeps(s, i);
    TakeAdds(s, i);
  }

  lemma TakeKeeps(s: Slab, i: nat)
    requires SlabOk(s) && i < |s.lists| && s.lists[i] != [] && ListHeadOk(s, i)
    ensures SlabOk(TakeFrom(s, i).0)
  {
    hide SlabOk, ZoneOk, InZone, TakeChunk;
    SlabParts(s);
    HeadHasChunk(s, i);
    var z: nat := s.lists[i][0];
    var zone := TakeChunk(s.zones[z]).0;
    TakeLives(s.zones[z]);
    TakeShape(s.zones[z], z * PAGE, s.zonePages * PAGE);
    TakenLists(s, i, zone);
    OneZoneChanged(s, TakeFrom(s, i).0, z);
  }

  lemma TakeAdds(s: Slab, i: nat)
    requires SlabOk(s) && i < |s.lists| && s.lists[i] != [] && ListHeadOk(s, i)
    ensures Adds(s, TakeFrom(s, i).0, TakeFrom(s, i).1.value)
    ensures ChunkOfClass(TakeFrom(s, i).0, TakeFrom(s, i).1.value, i)
  {
    hide SlabOk, ZoneOk, InZone, TakeChunk, Live, IsLive, LiveChunk, Adds, ClassSize;
    TakeShape(s.zones[s.lists[i][0]], s.lists[i][0] * PAGE, s.zonePages * PAGE) by {
      SlabParts(s);
      HeadHasChunk(s, i);
    }
    SlabParts(s);
    HeadHasChunk(s, i);
    var z: nat := s.lists[i][0];
    TakeLives(s.zones[z]);
    NewChunkDead(s, z);
    ZoneAdds(s, TakeFrom(s, i).0, z, TakeFrom(s, i).1.value);
  }

  lemma NewChunkDead(s: Slab, z: nat)
    requires SlabOk(s) && z in s.zones && s.zones[z].nfree > 0
    ensures s.zones[z].uindex + 1 != s.zones[z].nmax || s.zones[z].freeChunks != []
    ensures !IsLive(s, TakeChunk(s.zones[z]).1)
  {
    hide SlabOk, ZoneOk, InZone, TakeChunk, Live, IsLive, LiveChunk;
    SlabParts(s);
    assert ZoneFits(s.zones[z], z, s.zonePages);
    TakeLives(s.zones[z]);
    TakeShape(s.zones[z], z * PAGE, s.zonePages * PAGE);
    var (zone, a) := TakeChunk(s.zones[z]);
    ChunkInside(zone, z * PAGE, s.zonePages * PAGE, a);
    PageOf(a, z, s.zonePages);
    ChunkNotLive(s, z, a);
    ZoneTaken(s, z);
    NotElsewhere(s, z, a);
  }

  lemma SlabParts(s: Slab)
    requires SlabOk(s)
    ensures PagesOk(s.pages, s.taken, s.npages) && KindsOk(s) && UsageOk(s)
    ensures ZonesOk(s.zones, s.zonePages) && ListsOk(s.lists, s.zones) && ZoneSizeOk(s.zonePages * PAGE)
  {
  }

  lemma ZoneTaken(s: Slab, z: nat)
    requires KindsOk(s) && z in s.zones
    ensures z in s.taken && s.taken[z] == s.zonePages && z !in s.large && z !in s.spare
  {
  }

  lemma TakenLists(s: Slab, i: nat, zone: Zone)
    requires ListsOk(s.lists, s.zones) && i < |s.lists| && s.lists[i] != [] && s.lists[i][0] in s.zones
    requires zone.index == i && zone.nfree == s.zones[s.lists[i][0]].nfree - 1 && s.zones[s.lists[i][0]].index == i
    requires s.zones[s.lists[i][0]].nfree > 0
    ensures ListsOk(if zone.nfree == 0 then s.lists[i := s.lists[i][1..]] else s.lists, s.zones[s.lists[i][0] := zone])
  {
    var z := s.lists[i][0];
    assert ListOk(s.lists[i], i, s.zones);
    ListTail(s.lists[i]);
    var list := if zone.nfree == 0 then s.lists[i][1..] else s.lists[i];
    Relist(s.lists, s.zones, z, i, list, s.zones[z := zone]);
    assert s.lists[i := s.lists[i]] == s.lists;
  }

  /** A zone that changes and stays well formed, with the lists made to match. */
  lemma OneZoneChanged(s: Slab, r: Slab, z: nat)
    requires SlabOk(s) && z in s.zones && z in r.zones && r == s.(zones := s.zones[z := r.zones[z]], lists := r.lists)
    requires ListsOk(r.lists, r.zones) && ZoneFits(r.zones[z], z, s.zonePages)
    ensures SlabOk(r)
  {
    hide PagesOk, ListsOk, ZoneFits, MarksZone;
    assert r.zones.Keys == s.zones.Keys;
  }

  lemma ChunkNotLive(s: Slab, z: nat, a: nat)
    requires z in s.zones && a !in Live(s.zones[z])
    ensures !LiveChunk(s, z, a)
  {
  }

  lemma ListTail(list: seq<nat>)
    requires NoDup(list) && list != []
    ensures NoDup(list[1..]) && forall x :: x in list[1..] <==> x in list && x != list[0]
  {
    assert list == [list[0]] + list[1..];
  }

  /** A chunk handed out keeps the zone's layout. */
  lemma TakeShape(z: Zone, at: nat, zoneSize: nat)
    requires ZoneOk(z) && z.nfree > 0 && InZone(z, at, zoneSize)
    ensures z.uindex + 1 != z.nmax || z.freeChunks != []
    ensures var r := TakeChunk(z).0;
            InZone(r, at, zoneSize) && r.index == z.index && r.chunkSize == z.chunkSize && r.nfree == z.nfree - 1
  {
  }

  lemma ChunkInside(z: Zone, at: nat, zoneSize: nat, a: nat)
    requires ZoneOk(z) && InZone(z, at, zoneSize) && a in Live(z)
    ensures at + HEADER <= a < at + zoneSize
  {
    LiveInZone(z, at, zoneSize, a);
  }

  lemma PageOf(a: nat, z: nat, n: nat)
    requires z * PAGE <= a < z * PAGE + n * PAGE
    ensures z <= a / PAGE < z + n
  {
  }

  /** The state in which a whole zone z is at hand: taken, marked, and used for nothing. */
  ghost predicate ZoneReady(s: Slab, z: nat) {
    && ZoneSizeOk(s.zonePages * PAGE)
    && PagesOk(s.pages, s.taken, s.npages) && z in s.taken && s.taken[z] == s.zonePages
    && z !in s.zones && z !in s.spare && z !in s.large && z !in s.reserved
    && KindsOk(s.(taken := s.taken - {z})) && UsageOk(s) && MarksZone(s.usage, z, s.zonePages)
    && ZonesOk(s.zones, s.zonePages) && ListsOk(s.lists, s.zones)
  }

  lemma InstallOk(s: Slab, z: nat, i: nat)
    requires ZoneReady(s, z) && i < |s.lists| && 8 <= ClassSize(i) <= s.zonePages * PAGE / 4 && ClassSize(i) % 8 == 0
    ensures Offset(ClassSize(i)) <= s.zonePages * PAGE
    ensures var (r, a) := Install(s, z, i, ClassSize(i));
            a.Some? && SlabOk(r) && Adds(s, r, a.value) && ChunkOfClass(r, a.value, i)
  {
    hide PagesOk, ZoneOk, InZone, Live, Chunks, IsLive, LiveChunk, Fresh, Offset;
    var size := ClassSize(i);
    FreshZone(z * PAGE, s.zonePages * PAGE, size, i);
    var (r, a) := Install(s, z, i, size);
    FreshParts(z * PAGE, s.zonePages * PAGE, size, i);
    assert ListOk(s.lists[i], i, s.zones);
    NoDupCons(z, s.lists[i]);
    Relist(s.lists, s.zones, z, i, r.lists[i], r.zones);
    InstalledKinds(s, z, r);
    ChunkInside(r.zones[z], z * PAGE, s.zonePages * PAGE, a.value);
    PageOf(a.value, z, s.zonePages);
    NotLiveYet(s, z, a.value);
    ZoneAdds(s, r, z, a.value);
  }

  lemma FreshParts(z: nat, zoneSize: nat, size: nat, index: nat)
    requires 0 < size && Offset(size) <= zoneSize
    ensures var r := Fresh(z, zoneSize, size, index); r.index == index && r.chunkSize == size && Addr(r, 0) == r.base
  {
    hide Offset;
  }

  lemma InstalledKinds(s: Slab, z: nat, r: Slab)
    requires KindsOk(s.(taken := s.taken - {z})) && z in s.taken && s.taken[z] == s.zonePages
    requires z !in s.zones && z !in s.spare && z !in s.large && z !in s.reserved
    requires r.taken == s.taken && r.spare == s.spare && r.large == s.large && r.reserved == s.reserved
    requires r.zonePages == s.zonePages && r.zones.Keys == s.zones.Keys + {z}
    ensures KindsOk(r)
  {
    assert s.taken.Keys == (s.taken - {z}).Keys + {z};
  }

  /** No live pointer lies in a zone at hand. */
  lemma NotLiveYet(s: Slab, z: nat, a: nat)
    requires ZoneReady(s, z) && z * PAGE < a && a / PAGE < z + s.zonePages
    ensures !IsLive(s, a)
  {
    hide ZoneReady, Live;
    if LiveLarge(s, a) {
      LargeNotIn(s, z, a / PAGE);
    }
    if exists y :: LiveChunk(s, y, a) {
      var y: nat :| LiveChunk(s, y, a);
      ChunkNotIn(s, z, y, a);
    }
  }

  lemma LargeNotIn(s: Slab, z: nat, b: nat)
    requires ZoneReady(s, z) && b in s.large
    ensures b < z || z + s.zonePages <= b
  {
    hide ListsOk, WellFormed, Holds, ZonesOk, UsageOk, MarksZone;
    assert b in s.taken - {z};
  }

  lemma ChunkNotIn(s: Slab, z: nat, y: nat, a: nat)
    requires ZoneReady(s, z) && LiveChunk(s, y, a)
    ensures a / PAGE < z || z + s.zonePages <= a / PAGE
  {
    hide ListsOk, WellFormed, Holds, UsageOk, MarksZone, ZoneOk, InZone, Live;
    assert y in s.taken - {z} && ZoneFits(s.zones[y], y, s.zonePages);
    ChunkInside(s.zones[y], y * PAGE, s.zonePages * PAGE, a);
    PageOf(a, y, s.zonePages);
  }

  /** A spare zone is at hand once it is off the spare list. */
  lemma SpareReady(s: Slab)
    requires SlabOk(s) && s.spare != []
    ensures ZoneReady(s.(spare := s.spare[1..]), s.spare[0])
    ensures forall x: nat :: IsLive(s.(spare := s.spare[1..]), x) <==> IsLive(s, x)
  {
    hide PagesOk, ListsOk, ZonesOk, MarksZone, IsLive, KindsOk;
    var r := s.(spare := s.spare[1..]);
    SpareKinds(s);
    assert s.spare[0] in s.spare;
    ListTail(s.spare) by {
      KindsNoDup(s);
    }
    SameLive(s, r);
  }

  lemma KindsNoDup(s: Slab)
    requires KindsOk(s)
    ensures NoDup(s.spare)
  {
  }

  lemma SpareKinds(s: Slab)
    requires KindsOk(s) && s.spare != []
    ensures var z, r := s.spare[0], s.(spare := s.spare[1..]);
            && z in s.taken && s.taken[z] == s.zonePages && z !in s.zones && z !in r.spare && z !in s.large &&
                z !in s.reserved
            && KindsOk(r.(taken := r.taken - {z}))
  {
    var z, r := s.spare[0], s.(spare := s.spare[1..]);
    ListTail(s.spare);
    assert z in s.spare;
    assert Members(s.spare) == Members(r.spare) + {z};
    assert (r.taken - {z}).Keys == r.zones.Keys + Members(r.spare) + r.large.Keys + r.reserved.Keys;
  }

  lemma SameLive(s: Slab, r: Slab)
    requires r.zones == s.zones && r.large == s.large
    ensures forall x: nat :: IsLive(r, x) <==> IsLive(s, x)
  {
    forall x: nat
      ensures IsLive(r, x) <==> IsLive(s, x)
    {
      assert forall z :: LiveChunk(r, z, x) <==> LiveChunk(s, z, x);
    }
  }

  lemma {:induction false} MarkedSmall(usage: map<nat, Usage>, z: nat, n: nat)
    ensures var r := MarkSmall(usage, z, n);
            && MarksZone(r, z, n)
            && forall p: nat :: !(z <= p < z + n) ==> (p in r <==> p in usage) && (p in usage ==> r[p] == usage[p])
    decreases n
  {
    if n > 0 {
      MarkedSmall(usage, z, n - 1);
    }
  }

  lemma {:induction false} MarkedFree(usage: map<nat, Usage>, z: nat, n: nat)
    ensures var r := MarkFree(usage, z, n);
            && (forall p: nat :: z <= p < z + n ==> p in r && r[p] == FreePage)
            && forall p: nat :: !(z <= p < z + n) ==> (p in r <==> p in usage) && (p in usage ==> r[p] == usage[p])
    decreases n
  {
    if n > 0 {
      MarkedFree(usage, z, n - 1);
      var r := MarkFree(usage, z, n);
      forall p: nat | z <= p < z + n
        ensures p in r && r[p] == FreePage
      {
        assert r == MarkFree(usage, z, n - 1)[z + n - 1 := FreePage];
        assert p < z + n - 1 ==> p in MarkFree(usage, z, n - 1) && MarkFree(usage, z, n - 1)[p] == FreePage;
      }
    }
  }

  /** The state after rt_malloc took z from the page allocator and marked it. */
  function Claimed(s: Slab, pages: seq<Run>, z: nat): Slab {
    s.(pages := pages, taken := s.taken[z := s.zonePages], usage := MarkSmall(s.usage, z, s.zonePages))
  }

  /** Pages fresh from the page allocator are a zone at hand once they are marked. */
  lemma PagesReady(s: Slab)
    requires SlabOk(s) && Alloc(s.pages, s.zonePages).1.Some?
    ensures var (pages, z) := Alloc(s.pages, s.zonePages);
            var r := Claimed(s, pages, z.value);
            ZoneReady(r, z.value) && forall x: nat :: IsLive(r, x) <==> IsLive(s, x)
  {
    hide PagesOk, Alloc, ListsOk, ZonesOk, IsLive, MarkSmall, UsageOk, KindsOk, MarksZone;
    TakePages(s.pages, s.taken, s.npages, s.zonePages);
    var pages, z := Alloc(s.pages, s.zonePages).0, Alloc(s.pages, s.zonePages).1.value;
    var r := Claimed(s, pages, z);
    MarkedSmall(s.usage, z, s.zonePages);
    assert r.taken - {z} == s.taken;
    assert r.(taken := s.taken) == s.(pages := r.pages, usage := r.usage);
    KindsFrame(s, r.(taken := s.taken));
    NotAnyKind(s, z);
    SameLive(s, r);
    BlocksApart(r.pages, r.taken, s.npages, z);
    UsageElsewhere(s, r, z, s.zonePages);
  }

  lemma KindsFrame(s: Slab, r: Slab)
    requires KindsOk(s) && r == s.(pages := r.pages, usage := r.usage)
    ensures KindsOk(r)
  {
  }

  lemma NotAnyKind(s: Slab, z: nat)
    requires KindsOk(s) && z !in s.taken
    ensures z !in s.zones && z !in s.spare && z !in s.large && z !in s.reserved
  {
    assert z !in Members(s.spare);
  }

  lemma BlocksApart(pages: seq<Run>, taken: map<nat, nat>, npages: nat, z: nat)
    requires PagesOk(pages, taken, npages) && z in taken
    ensures forall b :: b in taken && b != z ==> taken[b] > 0 && (b + taken[b] <= z || z + taken[z] <= b)
  {
    hide WellFormed, Holds;
  }

  /** Rewriting the usage of pages that no block of s uses. */
  lemma UsageElsewhere(s: Slab, r: Slab, z: nat, n: nat)
    requires KindsOk(s) && UsageOk(s) && r.zones == s.zones
    requires r.spare == s.spare && r.large == s.large && r.zonePages == s.zonePages
    requires forall b :: b in s.taken ==> s.taken[b] > 0 && (b + s.taken[b] <= z || z + n <= b)
    requires forall p: nat :: !(z <= p < z + n) ==>
            (p in r.usage <==> p in s.usage) && (p in s.usage ==> r.usage[p] == s.usage[p])
    ensures UsageOk(r)
  {
    forall y | y in r.zones || y in r.spare
      ensures MarksZone(r.usage, y, r.zonePages)
    {
      assert y in s.taken && MarksZone(s.usage, y, s.zonePages);
    }
    forall b | b in r.large
      ensures b in r.usage && r.usage[b] == Large(r.large[b])
    {
      assert b in s.taken;
    }
  }

  lemma MallocSmallOk(s: Slab, i: nat)
    requires SlabOk(s) && i < |s.lists| && 8 <= ClassSize(i) <= s.zonePages * PAGE / 4 && ClassSize(i) % 8 == 0
    ensures ListHeadOk(s, i) && Offset(ClassSize(i)) <= s.zonePages * PAGE
    ensures var (r, a) := MallocSmall(s, i, ClassSize(i));
            SlabOk(r) && (if a.Some? then Adds(s, r, a.value) && ChunkOfClass(r, a.value, i) else r == s)
  {
    hide ChunkOfClass, SlabOk, ZoneReady, IsLive, TakeFrom, Install, Alloc, Offset, Adds, ClassSize;
    FreshZone(0, s.zonePages * PAGE, ClassSize(i), i) by {
      SlabParts(s);
    }
    HeadHasChunk(s, i) by {
      SlabParts(s);
    }
    if s.lists[i] != [] {
      TakeFromOk(s, i);
    } else if s.spare != [] {
      SpareReady(s);
      InstallOk(s.(spare := s.spare[1..]), s.spare[0], i);
      AddsFrom(s, s.(spare := s.spare[1..]), MallocSmall(s, i, ClassSize(i)));
    } else {
      var pages, z := Alloc(s.pages, s.zonePages).0, Alloc(s.pages, s.zonePages).1;
      if z.Some? {
        PagesReady(s);
        InstallOk(Claimed(s, pages, z.value), z.value, i);
        AddsFrom(s, Claimed(s, pages, z.value), MallocSmall(s, i, ClassSize(i)));
      }
    }
  }

  lemma AddsFrom(s: Slab, m: Slab, r: (Slab, Option<nat>))
    requires (forall x: nat :: IsLive(m, x) <==> IsLive(s, x)) && r.1.Some? && Adds(m, r.0, r.1.value)
    ensures Adds(s, r.0, r.1.value)
  {
    hide IsLive;
  }

  ghost predicate LargeOf(s: Slab, ptr: nat, n: nat) {
    LiveLarge(s, ptr) && s.large[ptr / PAGE] == n
  }

  lemma MallocLargeOk(s: Slab, size: nat)
    requires SlabOk(s)
    ensures var (r, a) := MallocLarge(s, size);
            SlabOk(r) && (if a.Some? then Adds(s, r, a.value) && LargeOf(r, a.value, PagesFor(size)) else r == s)
  {
    hide PagesOk, KindsOk, UsageOk, ListsOk, ZonesOk, Alloc, IsLive;
    var n := PagesFor(size);
    TakePages(s.pages, s.taken, s.npages, n);
    var pages, b := Alloc(s.pages, n).0, Alloc(s.pages, n).1;
    if b.Some? {
      var r := MallocLarge(s, size).0;
      NotAnyKind(s, b.value);
      LargeKinds(s, r, b.value);
      BlocksApart(r.pages, r.taken, s.npages, b.value);
      assert forall c :: c in s.taken ==> c in r.taken && c != b.value && r.taken[c] == s.taken[c];
      LargeUsage(s, r, b.value);
      PageOf(b.value * PAGE, b.value, 1);
      assert b.value * PAGE / PAGE == b.value;
      LargeAdds(s, r, b.value);
    }
  }

  lemma LargeKinds(s: Slab, r: Slab, b: nat)
    requires KindsOk(s) && b !in s.taken && b in r.large
    requires b !in s.zones && b !in s.spare && b !in s.large && b !in s.reserved
    requires r == s.(pages := r.pages, usage := r.usage, taken := s.taken[b := r.large[b]],
                     large := s.large[b := r.large[b]])
    ensures KindsOk(r)
  {
    assert r.taken.Keys == s.taken.Keys + {b} && r.large.Keys == s.large.Keys + {b};
    assert b !in Members(s.spare);
  }

  lemma LargeUsage(s: Slab, r: Slab, b: nat)
    requires KindsOk(s) && UsageOk(s) && b in r.large && b !in s.taken && r.large == s.large[b := r.large[b]]
    requires r.zones == s.zones && r.spare == s.spare
    requires r.zonePages == s.zonePages && r.usage == s.usage[b := Large(r.large[b])]
    requires forall c :: c in s.taken ==> s.taken[c] > 0 && (c + s.taken[c] <= b || b < c)
    ensures UsageOk(r)
  {
    forall y | y in r.zones || y in r.spare
      ensures MarksZone(r.usage, y, r.zonePages)
    {
      assert y in s.taken && MarksZone(s.usage, y, s.zonePages);
    }
  }

  lemma LargeAdds(s: Slab, r: Slab, b: nat)
    requires SlabOk(s) && r.zones == s.zones && b !in s.taken
    requires b !in s.large && b in r.large && r.large == s.large[b := r.large[b]]
    requires Holds(s.pages, b)
    ensures Adds(s, r, b * PAGE)
  {
    hide SlabOk, Holds, Live;
    var ptr := b * PAGE;
    assert ptr / PAGE == b && ptr % PAGE == 0;
    if exists z :: LiveChunk(s, z, ptr) {
      var z: nat :| LiveChunk(s, z, ptr);
      ChunkPage(s, z, ptr);
      TakenNotHeld(s, z);
    }
    forall x: nat
      ensures IsLive(r, x) <==> IsLive(s, x) || x == ptr
    {
      assert forall z :: LiveChunk(r, z, x) <==> LiveChunk(s, z, x);
      assert x % PAGE == 0 && x / PAGE == b ==> x == ptr;
    }
  }

  lemma TakenNotHeld(s: Slab, z: nat)
    requires SlabOk(s) && z in s.taken
    ensures forall p: nat :: z <= p < z + s.taken[z] ==> !Holds(s.pages, p)
  {
    hide Holds, WellFormed;
  }

  /** Main result for rt_malloc: the invariant holds, and a granted pointer is the one new live
      pointer. Its block has the size of the class or of the whole pages, and holds the request;
      a request whose rounding to pages wraps on 32 bits is refused. */
  lemma MallocOk(s: Slab, size: nat)
    requires SlabOk(s)
    ensures var (r, a) := Malloc(s, size);
            && SlabOk(r)
            && (a.None? ==> r == s)
            && (a.Some? ==>
                  && Adds(s, r, a.value) && IsLive(r, a.value)
                  && Extent(r, a.value) == Granted(s, size)
                  && (size < SIZE_SPAN ==> Extent(r, a.value) >= size))
            && (SIZE_SPAN - PAGE < size < SIZE_SPAN ==> a.None?)
  {
    hide SlabOk, MallocSmall, MallocLarge, ZoneIndex, Extent, ChunkOfClass, LargeOf;
    if size != 0 {
      PagesHold(size);
      LimitBelow(s);
      if size >= Limit(s.zonePages * PAGE) {
        MallocLargeOk(s, size);
        NoPages(s, size);
        var (r, a) := MallocLarge(s, size);
        if a.Some? {
          LargeExtent(r, a.value, PagesFor(size));
        }
      } else {
        ClassFits(s, size);
        MallocSmallOk(s, ZoneIndex(size).1);
        var (r, a) := MallocSmall(s, ZoneIndex(size).1, ZoneIndex(size).0);
        if a.Some? {
          ClassExtent(r, a.value, ZoneIndex(size).1);
        }
      }
    }
  }

  /** The size of the block that a request gets. */
  function Granted(s: Slab, size: nat): nat {
    if size >= Limit(s.zonePages * PAGE) then PagesFor(size) * PAGE else ZoneIndex(size).0
  }

  lemma LimitBelow(s: Slab)
    requires SlabOk(s)
    ensures Limit(s.zonePages * PAGE) <= SIZE_SPAN - PAGE
  {
    hide PagesOk, KindsOk, UsageOk, ZonesOk, ListsOk;
  }

  /** Rounding to pages holds the request unless it wraps, and then there are no pages. */
  lemma PagesHold(size: nat)
    ensures size <= SIZE_SPAN - PAGE ==> PagesFor(size) * PAGE >= size
    ensures SIZE_SPAN - PAGE < size < SIZE_SPAN ==> PagesFor(size) == 0
  {
  }

  lemma NoPages(s: Slab, size: nat)
    ensures PagesFor(size) == 0 ==> MallocLarge(s, size).1.None?
  {
  }

  lemma LargeExtent(s: Slab, ptr: nat, n: nat)
    requires SlabOk(s) && LargeOf(s, ptr, n)
    ensures IsLive(s, ptr) && Extent(s, ptr) == n * PAGE
  {
  }

  /** rt_malloc refuses exactly when nothing was asked for, when rounding to pages wraps, or when
      neither a listed zone nor a spare zone nor a long enough run of free pages is there. */
  lemma MallocRefuses(s: Slab, size: nat)
    requires SlabOk(s) && size < SIZE_SPAN
    ensures Malloc(s, size).1.None? <==>
              || size == 0 || size > SIZE_SPAN - PAGE
              || (size >= Limit(s.zonePages * PAGE) && NoRun(s.pages, PagesFor(size)))
              || (size < Limit(s.zonePages * PAGE) && NoRun(s.pages, s.zonePages) && s.spare == []
                  && forall z :: z in s.zones && s.zones[z].index == ZoneIndex(size).1 ==> s.zones[z].nfree <= 0)
  {
    hide SlabOk, ZoneIndex, Alloc, Fresh, TakeChunk, Claimed;
    PagesHold(size);
    LimitBelow(s);
    AllocRefuses(s.pages, PagesFor(size));
    AllocRefuses(s.pages, s.zonePages);
    assert s.zonePages > 0 by {
      SlabParts(s);
    }
    if 0 < size < Limit(s.zonePages * PAGE) {
      ClassFits(s, size);
      var i := ZoneIndex(size).1;
      SlabParts(s);
      assert ListOk(s.lists[i], i, s.zones);
      assert s.lists[i] != [] ==> s.lists[i][0] in s.lists[i];
    } else if 0 < size <= SIZE_SPAN - PAGE {
      assert PagesFor(size) > 0;
    }
  }

  predicate NoRun(pages: seq<Run>, n: nat) {
    forall i :: 0 <= i < |pages| ==> pages[i].count < n
  }

  // ---------------------------------------------------------------------------------
  // What rt_free does
  // ---------------------------------------------------------------------------------

  /** Main result for a zone: after a free, the zone is given up only if no chunk of it is live. */
  lemma FreeSmallOk(s: Slab, z: nat, ptr: nat)
    requires SlabOk(s) && LiveChunk(s, z, ptr)
    ensures s.zones[z].index < |s.lists|
    ensures var r := FreeSmall(s, z, ptr);
            SlabOk(r) && Subtracts(s, r, ptr) && (z !in r.zones ==> Live(s.zones[z]) == {ptr})
  {
    hide SlabOk, Live, ZoneOk, InZone, Subtracts, IsLive, ReleaseZone, Dropped;
    SlabParts(s);
    assert ZoneFits(s.zones[z], z, s.zonePages);
    var zone, i := GiveChunk(s.zones[z], ptr), s.zones[z].index;
    var list := Relisted(s, z);
    GiveLives(s.zones[z], ptr);
    LiveCount(zone);
    GiveShape(s.zones[z], ptr, z * PAGE, s.zonePages * PAGE);
    GivenList(s, z, zone);
    if zone.nfree == zone.nmax && |list| > 1 {
      var spare := s.(zones := s.zones - {z}, lists := s.lists[i := Dropped(list, z)], spare := [z] + s.spare);
      RetireOk(s, z, list);
      ZoneGone(s, spare, z, ptr);
      assert Live(s.zones[z]) == {ptr};
      if |spare.spare| > RELEASE {
        assert spare.spare[0] == z;
        ReleaseOk(spare);
        SubtractsFrom(s, spare, ReleaseZone(spare, z), ptr);
      }
    } else {
      var r := s.(zones := s.zones[z := zone], lists := s.lists[i := list]);
      Relist(s.lists, s.zones, z, i, list, r.zones);
      OneZoneChanged(s, r, z);
      ZoneLess(s, r, z, ptr);
    }
  }

  /** Exactly when a free gives the zone up: it takes the last live chunk, and another zone of the
      class has a free chunk. The zone becomes spare, or, if two are spare already, its pages free. */
  lemma FreeSmallGivesUp(s: Slab, z: nat, ptr: nat)
    requires SlabOk(s) && LiveChunk(s, z, ptr)
    ensures var r, i := FreeSmall(s, z, ptr), s.zones[z].index;
            && (z !in r.zones <==>
                  && Live(s.zones[z]) == {ptr}
                  && exists y :: y in s.zones && y != z && s.zones[y].index == i && s.zones[y].nfree > 0)
            && (z in r.zones ==> r.spare == s.spare && r.pages == s.pages)
            && (z !in r.zones && |s.spare| < 2 ==> r.spare == [z] + s.spare && r.pages == s.pages)
            && (z !in r.zones && |s.spare| >= 2 ==> r.spare == s.spare && r.pages == Free(s.pages, z, s.zonePages))
            && (|s.spare| <= 2 ==> |r.spare| <= 2)
  {
    hide SlabOk, Live, ZoneOk, InZone, Dropped, Free, MarkFree;
    SlabParts(s);
    assert ZoneFits(s.zones[z], z, s.zonePages);
    var zone, i := GiveChunk(s.zones[z], ptr), s.zones[z].index;
    GiveLives(s.zones[z], ptr);
    LiveCount(zone);
    OnlyOneLeft(Live(s.zones[z]), ptr);
    OthersListed(s, z);
    if |s.spare| >= 2 {
      assert ([z] + s.spare)[1..] == s.spare;
    }
  }

  lemma OnlyOneLeft(live: set<nat>, a: nat)
    requires a in live
    ensures live - {a} == {} <==> live == {a}
  {
    if live - {a} == {} {
      forall x | x in live
        ensures x == a
      {
        assert x !in live - {a};
      }
    }
  }

  /** The list has more than this zone exactly when another zone of the class has a free chunk. */
  lemma OthersListed(s: Slab, z: nat)
    requires ListsOk(s.lists, s.zones) && ZonesOk(s.zones, s.zonePages) && z in s.zones && s.zones[z].index < |s.lists|
    ensures |Relisted(s, z)| > 1 <==>
              exists y :: y in s.zones && y != z && s.zones[y].index == s.zones[z].index && s.zones[y].nfree > 0
  {
    var i := s.zones[z].index;
    var list := s.lists[i];
    assert ListOk(list, i, s.zones);
    assert s.zones[z].nfree >= 0 by {
      assert ZoneFits(s.zones[z], z, s.zonePages);
    }
    if y :| y in s.zones && y != z && s.zones[y].index == i && s.zones[y].nfree > 0 {
      assert y in list;
      if s.zones[z].nfree > 0 {
        assert z in list;
        var a: nat :| a < |list| && list[a] == y;
        var b: nat :| b < |list| && list[b] == z;
        assert a != b;
      }
    }
    if |Relisted(s, z)| > 1 {
      var y := if s.zones[z].nfree == 0 || list[0] != z then list[0] else list[1];
      assert y in list;
      assert s.zones[z].nfree == 0 ==> z !in list;
      assert list[0] == z ==> s.zones[z].nfree > 0 && |list| > 1 && list[1] != list[0];
    }
  }

  lemma GiveShape(z: Zone, ptr: nat, at: nat, zoneSize: nat)
    requires ZoneOk(z) && InZone(z, at, zoneSize)
    ensures var r := GiveChunk(z, ptr);
            && InZone(r, at, zoneSize) && r.index == z.index && r.chunkSize == z.chunkSize
            && r.nfree == z.nfree + 1 > 0 && r.nmax == z.nmax
  {
  }

  /** The list after the chunk came back: the zone is on it. */
  lemma GivenList(s: Slab, z: nat, zone: Zone)
    requires ListsOk(s.lists, s.zones) && z in s.zones
    requires s.zones[z].index < |s.lists| && zone.nfree > 0 && s.zones[z].nfree >= 0
    ensures var i, list := s.zones[z].index, Relisted(s, z);
            NoDup(list) && forall x :: x in list <==> x == z || x in s.lists[i]
  {
    var i := s.zones[z].index;
    assert ListOk(s.lists[i], i, s.zones);
    if s.zones[z].nfree == 0 {
      NoDupCons(z, s.lists[i]);
    }
  }

  /** Moving a zone to the spare list. */
  lemma RetireOk(s: Slab, z: nat, list: seq<nat>)
    requires SlabOk(s) && z in s.zones && s.zones[z].index < |s.lists|
    requires NoDup(list) && forall x :: x in list <==> x == z || x in s.lists[s.zones[z].index]
    ensures SlabOk(s.(zones := s.zones - {z}, lists := s.lists[s.zones[z].index := Dropped(list, z)],
                      spare := [z] + s.spare))
  {
    hide PagesOk, ListsOk, ZoneFits, Dropped, MarksZone, KindsOk;
    var i := s.zones[z].index;
    var r := s.(zones := s.zones - {z}, lists := s.lists[i := Dropped(list, z)], spare := [z] + s.spare);
    DroppedMembers(list, z);
    Relist(s.lists, s.zones, z, i, Dropped(list, z), r.zones);
    RetireKinds(s, z);
  }

  lemma RetireKinds(s: Slab, z: nat)
    requires KindsOk(s) && z in s.zones
    ensures z !in s.spare
    ensures forall lists :: KindsOk(s.(zones := s.zones - {z}, lists := lists, spare := [z] + s.spare))
  {
    ZoneTaken(s, z);
    NoDupCons(z, s.spare);
    assert Members([z] + s.spare) == Members(s.spare) + {z};
    assert (s.zones - {z}).Keys + {z} == s.zones.Keys;
  }

  lemma ZoneLess(s: Slab, r: Slab, z: nat, a: nat)
    requires SlabOk(s) && LiveChunk(s, z, a) && r.large == s.large && z in r.zones
    requires forall x :: x != z ==> (x in r.zones <==> x in s.zones) && (x in s.zones ==> r.zones[x] == s.zones[x])
    requires Live(r.zones[z]) == Live(s.zones[z]) - {a}
    ensures Subtracts(s, r, a)
  {
    hide SlabOk, Live;
    OnlyThere(s, z, a);
    forall x: nat
      ensures IsLive(r, x) <==> IsLive(s, x) && x != a
    {
      if exists y :: LiveChunk(s, y, x) {
        var y: nat :| LiveChunk(s, y, x);
        assert x == a || LiveChunk(r, y, x);
      }
      if exists y :: LiveChunk(r, y, x) {
        var y: nat :| LiveChunk(r, y, x);
        assert LiveChunk(s, y, x);
      }
    }
  }

  lemma ZoneGone(s: Slab, r: Slab, z: nat, a: nat)
    requires SlabOk(s) && LiveChunk(s, z, a) && r.large == s.large && r.zones == s.zones - {z}
    requires Live(s.zones[z]) - {a} == {}
    ensures Subtracts(s, r, a)
  {
    hide SlabOk, Live;
    OnlyThere(s, z, a);
    forall x: nat | LiveChunk(s, z, x)
      ensures x == a
    {
      assert x !in Live(s.zones[z]) - {a};
    }
    forall x: nat
      ensures IsLive(r, x) <==> IsLive(s, x) && x != a
    {
      if exists y :: LiveChunk(s, y, x) {
        var y: nat :| LiveChunk(s, y, x);
        assert x == a || LiveChunk(r, y, x);
      }
      if exists y :: LiveChunk(r, y, x) {
        var y: nat :| LiveChunk(r, y, x);
        assert LiveChunk(s, y, x);
      }
    }
  }

  /** A live chunk is live in no other zone and is no large block. */
  lemma OnlyThere(s: Slab, z: nat, a: nat)
    requires SlabOk(s) && LiveChunk(s, z, a)
    ensures !LiveLarge(s, a) && forall y :: LiveChunk(s, y, a) ==> y == z
  {
    hide SlabOk, Live;
    forall y | LiveChunk(s, y, a)
      ensures y == z
    {
      OneZone(s, y, z, a);
    }
    if LiveLarge(s, a) {
      NoLargeChunk(s, z, a);
    }
  }

  lemma NoLargeChunk(s: Slab, z: nat, a: nat)
    requires SlabOk(s) && LiveChunk(s, z, a)
    ensures !LiveLarge(s, a)
  {
    hide PagesOk, ListsOk, Live;
    ChunkPage(s, z, a);
  }

  lemma SubtractsFrom(s: Slab, m: Slab, r: Slab, a: nat)
    requires Subtracts(s, m, a) && r.zones == m.zones && r.large == m.large
    ensures Subtracts(s, r, a)
  {
    SameLive(m, r);
  }

  /** Giving the first spare zone back to the page allocator. */
  lemma ReleaseOk(s: Slab)
    requires SlabOk(s) && s.spare != []
    ensures SlabOk(ReleaseZone(s, s.spare[0]))
    ensures ReleaseZone(s, s.spare[0]).zones == s.zones && ReleaseZone(s, s.spare[0]).large == s.large
  {
    hide PagesOk, Free, ListsOk, ZonesOk, MarkFree, UsageOk, KindsOk;
    var z, r := s.spare[0], ReleaseZone(s, s.spare[0]);
    SpareKinds(s);
    GivePages(s.pages, s.taken, s.npages, z);
    MarkedFree(s.usage, z, s.zonePages);
    var less := s.(spare := s.spare[1..], taken := s.taken - {z});
    KindsFrame(less, r);
    SpareUsage(s);
    BlocksApart(s.pages, s.taken, s.npages, z);
    UsageElsewhere(less, r, z, s.zonePages);
  }

  lemma SpareUsage(s: Slab)
    requires UsageOk(s) && s.spare != []
    ensures forall taken :: UsageOk(s.(spare := s.spare[1..], taken := taken))
  {
    hide MarksZone;
  }

  lemma FreeLargeOk(s: Slab, ptr: nat)
    requires SlabOk(s) && LiveLarge(s, ptr)
    ensures SlabOk(FreeLarge(s, ptr / PAGE)) && Subtracts(s, FreeLarge(s, ptr / PAGE), ptr)
  {
    hide PagesOk, Free, ListsOk, ZonesOk, UsageOk, KindsOk, IsLive;
    var b := ptr / PAGE;
    var r := FreeLarge(s, b);
    LargePage(s, ptr);
    GivePages(s.pages, s.taken, s.npages, b);
    LessKinds(s, r, b);
    BlocksApart(s.pages, s.taken, s.npages, b);
    LessUsage(s, r, b);
    LargeLess(s, r, ptr);
  }

  lemma LessKinds(s: Slab, r: Slab, b: nat)
    requires KindsOk(s) && b in s.large
    requires r == s.(pages := r.pages, usage := r.usage, taken := s.taken - {b}, large := s.large - {b})
    ensures KindsOk(r)
  {
    assert b !in Members(s.spare);
    assert r.taken.Keys == s.taken.Keys - {b} && r.large.Keys == s.large.Keys - {b};
  }

  lemma LessUsage(s: Slab, r: Slab, b: nat)
    requires KindsOk(s) && UsageOk(s) && b in s.large
    requires r == s.(pages := r.pages, taken := r.taken, large := s.large - {b}, usage := s.usage[b := Large(0)])
    requires forall c :: c in s.taken && c != b ==> s.taken[c] > 0 && (c + s.taken[c] <= b || b < c)
    ensures UsageOk(r)
  {
    forall y | y in r.zones || y in r.spare
      ensures MarksZone(r.usage, y, r.zonePages)
    {
      assert y in s.taken && y != b && MarksZone(s.usage, y, s.zonePages) by {
        assert y in s.zones || y in Members(s.spare);
      }
    }
  }

  lemma LargeLess(s: Slab, r: Slab, ptr: nat)
    requires SlabOk(s) && LiveLarge(s, ptr) && r.zones == s.zones && r.large == s.large - {ptr / PAGE}
    ensures Subtracts(s, r, ptr)
  {
    hide SlabOk, Live;
    forall z | LiveChunk(s, z, ptr)
      ensures false
    {
      NoLargeChunk(s, z, ptr);
    }
    forall x: nat
      ensures IsLive(r, x) <==> IsLive(s, x) && x != ptr
    {
      assert forall z :: LiveChunk(r, z, x) <==> LiveChunk(s, z, x);
      assert x % PAGE == 0 && x / PAGE == ptr / PAGE ==> x == ptr;
    }
  }

  /** rt_free of a live pointer finds its block through the usage of its page. */
  ghost function FreeLive(s: Slab, ptr: nat): Slab
    requires SlabOk(s) && IsLive(s, ptr)
  {
    UsageFinds(s, ptr);
    match s.usage[ptr / PAGE]
    case Large(_) => FreeLarge(s, ptr / PAGE)
    case Small(off) => FreeSmall(s, ptr / PAGE - off, ptr)
    case FreePage => s
  }

  /** The usage of the page of a live pointer names its block. */
  lemma UsageFinds(s: Slab, ptr: nat)
    requires SlabOk(s) && IsLive(s, ptr)
    ensures var page := ptr / PAGE;
            && page in s.usage && !s.usage[page].FreePage?
            && (s.usage[page].Large? ==> LiveLarge(s, ptr))
            && (s.usage[page].Small? ==>
                  page >= s.usage[page].off && LiveChunk(s, page - s.usage[page].off, ptr)
                  && s.zones[page - s.usage[page].off].index < |s.lists|)
  {
    hide SlabOk, LiveChunk;
    if LiveLarge(s, ptr) {
      LargePage(s, ptr);
    } else {
      var z: nat :| LiveChunk(s, z, ptr);
      ChunkPage(s, z, ptr);
      IndexInLists(s, z, ptr);
    }
  }

  lemma IndexInLists(s: Slab, z: nat, ptr: nat)
    requires SlabOk(s) && LiveChunk(s, z, ptr)
    ensures z in s.zones && s.zones[z].index < |s.lists|
  {
    hide PagesOk, KindsOk, UsageOk, Live;
    assert ZoneFits(s.zones[z], z, s.zonePages);
  }

  /** Main result for rt_free: the invariant holds, and exactly that pointer is no longer live. */
  lemma FreeOk(s: Slab, ptr: nat)
    requires SlabOk(s) && IsLive(s, ptr)
    ensures SlabOk(FreeLive(s, ptr)) && Subtracts(s, FreeLive(s, ptr), ptr)
  {
    hide SlabOk, IsLive, LiveChunk, LiveLarge, FreeSmall, FreeLarge, Subtracts;
    UsageFinds(s, ptr);
    match s.usage[ptr / PAGE] {
      case Large(_) => FreeLargeOk(s, ptr);
      case Small(off) => FreeSmallOk(s, ptr / PAGE - off, ptr);
      case FreePage =>
    }
  }

  // ---------------------------------------------------------------------------------
  // Runs
  // ---------------------------------------------------------------------------------

  datatype Call = Allocate(size: nat) | Release(ptr: nat)

  /** Only live pointers are freed. */
  ghost function Step(s: Slab, c: Call): Slab
    requires SlabOk(s)
  {
    match c
    case Allocate(size) => Malloc(s, size).0
    case Release(ptr) => if IsLive(s, ptr) then FreeLive(s, ptr) else s
  }

  lemma StepOk(s: Slab, c: Call)
    requires SlabOk(s)
    ensures SlabOk(Step(s, c)) && forall p: nat :: IsLive(s, p) && c != Release(p) ==> IsLive(Step(s, c), p)
  {
    hide SlabOk, IsLive, Malloc, FreeLive;
    match c {
      case Allocate(size) => MallocOk(s, size);
      case Release(ptr) =>
        if IsLive(s, ptr) {
          FreeOk(s, ptr);
        }
    }
  }

  /** Any run keeps pages conserved, zones counted and lists exact. */
  ghost function Run(s: Slab, calls: seq<Call>): (r: Slab)
    requires SlabOk(s)
    ensures SlabOk(r)
    decreases |calls|
  {
    if calls == [] then s
    else
      StepOk(s, calls[0]);
      Run(Step(s, calls[0]), calls[1..])
  }

  /** A pointer stays live over any run that does not free it. */
  lemma {:induction false} LiveStays(s: Slab, calls: seq<Call>, p: nat)
    requires SlabOk(s) && IsLive(s, p) && forall c :: c in calls ==> c != Release(p)
    ensures IsLive(Run(s, calls), p)
    decreases |calls|
  {
    hide SlabOk, IsLive, Step;
    if calls != [] {
      assert calls[0] in calls;
      assert forall c :: c in calls[1..] ==> c in calls;
      StepOk(s, calls[0]);
      LiveStays(Step(s, calls[0]), calls[1..], p);
    }
  }
}
