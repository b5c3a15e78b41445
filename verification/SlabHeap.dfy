/** The slab allocator of rt-thread/src/slab.c in place. */
module SlabHeap {
  import opened PageList
  import opened ZoneSpec
  import opened SlabSpec
  import Spec = SlabSpec
  import P = Pages

  class SlabHeap {
    const pager: P.Pages
    const zonePages: nat             // zone_page_cnt
    const lists: array<seq<nat>>     // zone_array: zones by their first page
    var usage: map<nat, Usage>       // memusage
    var zones: map<nat, Zone>        // the headers of zones in use
    var zoneFree: seq<nat>           // zone_free
    var zoneFreeCnt: int
    ghost var taken: map<nat, nat>
    ghost var large: map<nat, nat>
    ghost var reserved: map<nat, nat>

    ghost function Abstract(): Slab
      reads this, pager, lists
    {
      Slab(pager.runs, taken, usage, zones, lists[..], zoneFree, large, reserved, zonePages, pager.next.Length)
    }

    ghost predicate Valid()
      reads this, pager, pager.next, pager.count, lists
    {
      Loose() && SlabOk(Abstract())
    }

    /** The page list and the count of spare zones are right, whatever the zones look like. */
    ghost predicate Loose()
      reads this, pager, pager.next, pager.count
    {
      pager.Valid() && zoneFreeCnt == |zoneFree|
    }

    /** rt_system_heap_init on npages whole pages: the first ones hold the memusage table. */
    constructor (npages: nat)
      requires 0 < npages * PAGE < SIZE_SPAN
      ensures Valid() && fresh(pager) && fresh(pager.next) && fresh(pager.count) && fresh(lists)
      ensures pager.next.Length == npages && zones == map[] && zoneFree == [] && large == map[]
      ensures reserved == map[0 := (4 * npages + PAGE - 1) / PAGE]
    {
      var zoneSize := MIN_ZONE;
      while zoneSize < 4 * MIN_ZONE && zoneSize * 2 < npages * PAGE / 1024
        invariant ZoneSizeOk(zoneSize)
        decreases 4 * MIN_ZONE - zoneSize
      {
        zoneSize := zoneSize * 2;
      }
      zonePages := zoneSize / PAGE;
      lists := new seq<nat>[ZONES](_ => []);
      usage, zones, zoneFree, zoneFreeCnt := map[], map[], [], 0;
      var table := (4 * npages + PAGE - 1) / PAGE;
      pager := new P.Pages(npages);
      taken, large, reserved := map[0 := table], map[], map[0 := table];
      new;
      var _ := pager.Alloc(table);
      InitialPages(npages, table);
      InitialOk(Abstract(), table);
    }

    /** Takes a chunk from a zone: never-used ones first. */
    method TakeOne(from: Zone) returns (zone: Zone, chunk: nat)
      requires from.uindex + 1 != from.nmax || from.freeChunks != []
      ensures (zone, chunk) == TakeChunk(from)
    {
      zone := from.(nfree := from.nfree - 1);
      if zone.uindex + 1 != zone.nmax {
        zone := zone.(uindex := zone.uindex + 1);
        chunk := zone.base + zone.uindex * zone.chunkSize;
      } else {
        chunk := zone.freeChunks[0];
        zone := zone.(freeChunks := zone.freeChunks[1..]);
      }
    }

    /** A zone with a free chunk gives one up, and leaves its list when that was the last. */
    method TakeFrom(i: nat) returns (chunk: nat)
      requires Valid() && i < lists.Length && lists[i] != []
      modifies this`zones, lists
      ensures Valid() && ListHeadOk(old(Abstract()), i)
      ensures (Abstract(), Some(chunk)) == Spec.TakeFrom(old(Abstract()), i)
    {
      hide SlabOk, ZoneOk, InZone, Chunks, Live, TakeChunk, Adds;
      ghost var s := Abstract();
      TakeFromOk(s, i);
      var z := lists[i][0];
      var zone, c := TakeOne(zones[z]);
      chunk := c;
      zones := zones[z := zone];
      if zone.nfree == 0 {
        lists[i] := lists[i][1..];
      }
      assert Abstract() == Spec.TakeFrom(s, i).0;
    }

    /** A whole zone: from the spare list, else from the page allocator. */
    method GetZone() returns (z: Option<nat>)
      requires Valid()
      modifies this`zoneFree, this`zoneFreeCnt, this`usage, this`taken, pager, pager.next, pager.count
      ensures z.None? ==>
              Valid() && Abstract() == old(Abstract()) && zoneFree == [] && Alloc(pager.runs, zonePages).1.None?
      ensures z.Some? ==> pager.Valid() && zoneFreeCnt == |zoneFree| && ZoneReady(Abstract(), z.value)
      ensures z.Some? ==> Abstract() == if old(zoneFree) != [] then old(Abstract()).(spare := old(zoneFree)[1..])
                                        else Claimed(old(Abstract()), Alloc(old(pager.runs), zonePages).0, z.value)
      ensures z.Some? ==>
              z == if old(zoneFree) != [] then Some(old(zoneFree)[0]) else Alloc(old(pager.runs), zonePages).1
    {
      hide SlabOk, ZoneReady, Alloc;
      ghost var s := Abstract();
      if zoneFree != [] {
        SpareReady(s);
        z := Some(zoneFree[0]);
        zoneFree := zoneFree[1..];
        zoneFreeCnt := zoneFreeCnt - 1;
        return;
      }
      z := pager.Alloc(zonePages);
      if z.None? {
        AllocNone(s.pages, zonePages);
        return;
      }
      PagesReady(s);
      taken := taken[z.value := zonePages];
      var off := 0;
      while off < zonePages
        invariant off <= zonePages && usage == MarkSmall(s.usage, z.value, off)
        modifies this`usage
      {
        usage := usage[z.value + off := Small(off)];
        off := off + 1;
      }
    }

    /** The zone branch of rt_malloc. */
    method MallocSmall(i: nat, size: nat) returns (chunk: Option<nat>)
      requires Valid() && i < lists.Length && size == ClassSize(i) && 8 <= size <= zonePages * PAGE / 4 && size % 8 == 0
      modifies this`zones, this`zoneFree, this`zoneFreeCnt, this`usage, this`taken, lists, pager, pager.next,
          pager.count
      ensures Valid() && ListHeadOk(old(Abstract()), i) && Offset(size) <= zonePages * PAGE
      ensures (Abstract(), chunk) == Spec.MallocSmall(old(Abstract()), i, size)
    {
      hide SlabOk, ZoneReady, Alloc, Spec.TakeFrom, Offset, ClassSize, Adds;
      ghost var s := Abstract();
      MallocSmallOk(s, i);
      if lists[i] != [] {
        var c := TakeFrom(i);
        return Some(c);
      }
      var z := GetZone();
      if z.None? {
        return None;
      }
      ghost var m := Abstract();
      InstallOk(m, z.value, i);
      var c := SetUp(z.value, i, size);
      chunk := Some(c);
    }

    /** The header of a new zone, and its first chunk. */
    method SetUp(z: nat, i: nat, size: nat) returns (chunk: nat)
      requires i < lists.Length && size > 0 && Offset(size) <= zonePages * PAGE
      modifies this`zones, lists
      ensures (Abstract(), Some(chunk)) == Install(old(Abstract()), z, i, size)
    {
      hide Offset;
      ghost var m := Abstract();
      var base := z * PAGE;
      var nmax := (zonePages * PAGE - Offset(size)) / size;
      var zone := Zone(nmax - 1, nmax, 0, size, i, base + Offset(size), []);
      lists[i] := [z] + lists[i];
      zones := zones[z := zone];
      chunk := zone.base + zone.uindex * size;
      assert Abstract() == Install(m, z, i, size).0;
    }

    /** rt_malloc. */
    method Malloc(size: nat) returns (p: Option<nat>)
      requires Valid()
      modifies this, lists, pager, pager.next, pager.count
      ensures Valid() && (Abstract(), p) == Spec.Malloc(old(Abstract()), size)
    {
      hide SlabOk, Alloc, Spec.MallocSmall, Adds, ClassSize, ZoneIndex;
      ghost var s := Abstract();
      MallocOk(s, size);
      if size == 0 {
        return None;
      }
      if size >= Limit(zonePages * PAGE) {
        var n := PagesFor(size);
        var b := pager.Alloc(n);
        if b.None? {
          AllocNone(s.pages, n);
          return None;
        }
        usage := usage[b.value := Large(n)];
        taken, large := taken[b.value := n], large[b.value := n];
        assert Abstract() == MallocLarge(s, size).0;
        return Some(b.value * PAGE);
      }
      ClassFits(s, size);
      var zi := ZoneIndex(size);
      p := MallocSmall(zi.1, zi.0);
    }

    /** The end of rt_free for a zone that is whole again: off its list, onto the spare list, and
        one spare zone too many back to the pages. */
    method Shelve(z: nat, i: nat)
      requires Loose() && i < lists.Length && SlabOk(Retired(Abstract(), z, i))
      modifies this`zones, this`zoneFree, this`zoneFreeCnt, this`usage, this`taken, lists, pager, pager.next,
          pager.count
      ensures Valid()
      ensures var r := Retired(old(Abstract()), z, i);
              Abstract() == if |r.spare| > RELEASE then ReleaseZone(r, z) else r
    {
      hide SlabOk, Dropped, ReleaseZone, P.Linked, WellFormed;
      ghost var r := Retired(Abstract(), z, i);
      lists[i] := Dropped(lists[i], z);
      zones := zones - {z};
      zoneFree := [z] + zoneFree;
      zoneFreeCnt := zoneFreeCnt + 1;
      assert Abstract() == r;
      if zoneFreeCnt > RELEASE {
        GiveBack();
      }
    }

    /** The start of rt_free for a chunk: onto the zone's free chunks, and a full zone onto its list. */
    method PutBack(z: nat, ptr: nat)
      requires Loose() && z in zones && zones[z].index < lists.Length
      modifies this`zones, lists
      ensures Loose() && Abstract() == Given(old(Abstract()), z, ptr)
    {
      ghost var s := Abstract();
      var i := zones[z].index;
      var was := zones[z].nfree;
      zones := zones[z := zones[z].(freeChunks := [ptr] + zones[z].freeChunks, nfree := was + 1)];
      if was == 0 {
        lists[i] := [z] + lists[i];
      }
      assert Abstract() == Given(s, z, ptr);
    }

    /** The zone branch of rt_free. */
    method FreeSmall(z: nat, ptr: nat)
      requires Valid() && LiveChunk(Abstract(), z, ptr) && zones[z].index < lists.Length
      modifies this`zones, this`zoneFree, this`zoneFreeCnt, this`usage, this`taken, lists, pager, pager.next,
          pager.count
      ensures Valid() && Abstract() == Spec.FreeSmall(old(Abstract()), z, ptr)
    {
      ghost var s := Abstract();
      FreeSmallParts(s, z, ptr);
      hide SlabOk, Live, Dropped, Spec.FreeSmall, ReleaseZone, Given, Retired, P.Linked, WellFormed;
      PutBack(z, ptr);
      ghost var g := Given(s, z, ptr);
      assert Abstract() == g;
      var i := zones[z].index;
      assert zones[z] == g.zones[z] && lists[i] == g.lists[i];
      hide LiveChunk, Dropped, GiveChunk, Loose;
      if zones[z].nfree == zones[z].nmax && |lists[i]| > 1 {
        Shelve(z, i);
      }
    }

    /** Gives the first spare zone back to the page allocator. */
    method GiveBack()
      requires Valid() && zoneFree != []
      modifies this`zoneFree, this`zoneFreeCnt, this`usage, this`taken, pager, pager.next, pager.count
      ensures Valid() && Abstract() == ReleaseZone(old(Abstract()), old(zoneFree)[0])
    {
      hide SlabOk, Free, WellFormed, Holds;
      ghost var m := Abstract();
      ReleaseOk(m);
      var z := zoneFree[0];
      SpareHeld(m);
      zoneFree := zoneFree[1..];
      zoneFreeCnt := zoneFreeCnt - 1;
      var k := 0;
      while k < zonePages
        invariant k <= zonePages && usage == MarkFree(m.usage, z, k)
        modifies this`usage
      {
        usage := usage[z + k := FreePage];
        k := k + 1;
      }
      taken := taken - {z};
      pager.Free(z, zonePages);
    }

    /** rt_free of NULL or of a live pointer. */
    method FreePtr(ptr: Option<nat>)
      requires Valid() && (ptr.Some? ==> IsLive(Abstract(), ptr.value))
      modifies this, lists, pager, pager.next, pager.count
      ensures Valid() && Abstract() == if ptr.None? then old(Abstract()) else FreeLive(old(Abstract()), ptr.value)
    {
      hide SlabOk, IsLive, FreeLive;
      if ptr.Some? {
        FreeLivePtr(ptr.value);
      }
    }

    method FreeLivePtr(ptr: nat)
      requires Valid() && IsLive(Abstract(), ptr)
      modifies this, lists, pager, pager.next, pager.count
      ensures Valid() && Abstract() == FreeLive(old(Abstract()), ptr)
    {
      hide SlabOk, IsLive, LiveChunk, LiveLarge, Spec.FreeSmall, Subtracts, Free, WellFormed, Holds;
      ghost var s := Abstract();
      FreeOk(s, ptr);
      UsageFinds(s, ptr);
      var page := ptr / PAGE;
      match usage[page] {
        case Large(n) =>
          LargeHeld(s, ptr);
          usage := usage[page := Large(0)];
          taken, large := taken - {page}, large - {page};
          pager.Free(page, n);
        case Small(off) =>
          FreeSmall(page - off, ptr);
      }
    }
  }

  /** Chunk ptr back in zone z, and the zone listed. */
  function Given(s: Slab, z: nat, ptr: nat): Slab
    requires z in s.zones && s.zones[z].index < |s.lists|
  {
    s.(zones := s.zones[z := GiveChunk(s.zones[z], ptr)], lists := s.lists[s.zones[z].index := Relisted(s, z)])
  }

  /** rt_free of a chunk, step by step; each step keeps what the next one needs. */
  lemma FreeSmallParts(s: Slab, z: nat, ptr: nat)
    requires SlabOk(s) && LiveChunk(s, z, ptr) && s.zones[z].index < |s.lists|
    ensures var g, i := Given(s, z, ptr), s.zones[z].index;
            && g.zones[z].index == i
            && (!Whole(g, z, i) ==> SlabOk(g) && Spec.FreeSmall(s, z, ptr) == g)
            && (Whole(g, z, i) ==>
                  var r := Retired(g, z, i);
                  SlabOk(r) && Spec.FreeSmall(s, z, ptr) == if |r.spare| > RELEASE then ReleaseZone(r, z) else r)
  {
    assert SlabOk(Spec.FreeSmall(s, z, ptr)) by {
      FreeSmallOk(s, z, ptr);
    }
    FreeSmallIs(s, z, ptr);
    if Whole(Given(s, z, ptr), z, s.zones[z].index) {
      RetiredOk(s, z, ptr);
    }
    hide SlabOk, Live, Spec.FreeSmall, Given, Retired, ReleaseZone;
  }

  predicate Whole(s: Slab, z: nat, i: nat)
    requires i < |s.lists| && z in s.zones
  {
    s.zones[z].nfree == s.zones[z].nmax && |s.lists[i]| > 1
  }

  lemma RetiredIs(s: Slab, z: nat, ptr: nat)
    requires z in s.zones && s.zones[z].index < |s.lists|
    ensures var i := s.zones[z].index;
            Retired(Given(s, z, ptr), z, i)
            == s.(zones := s.zones - {z}, lists := s.lists[i := Dropped(Relisted(s, z), z)], spare := [z] + s.spare)
  {
    hide Dropped, GiveChunk, Relisted;
  }

  lemma FreeSmallIs(s: Slab, z: nat, ptr: nat)
    requires z in s.zones && s.zones[z].index < |s.lists|
    ensures var g, i := Given(s, z, ptr), s.zones[z].index;
            && g.zones[z].index == i
            && (!Whole(g, z, i) ==> Spec.FreeSmall(s, z, ptr) == g)
            && (Whole(g, z, i) ==>
                  var r := Retired(g, z, i);
                  Spec.FreeSmall(s, z, ptr) == if |r.spare| > RELEASE then ReleaseZone(r, z) else r)
  {
    RetiredIs(s, z, ptr);
    hide Dropped, ReleaseZone, Retired;
  }

  lemma RetiredOk(s: Slab, z: nat, ptr: nat)
    requires SlabOk(s) && LiveChunk(s, z, ptr) && s.zones[z].index < |s.lists|
    ensures SlabOk(Retired(Given(s, z, ptr), z, s.zones[z].index))
  {
    RetiredIs(s, z, ptr);
    ListWith(s, z, ptr) by {
      SlabParts(s);
    }
    hide SlabOk, Live, Dropped, Retired, Given, Relisted;
    RetireOk(s, z, Relisted(s, z));
  }

  /** Zone z taken off list i and made spare. */
  function Retired(s: Slab, z: nat, i: nat): Slab
    requires i < |s.lists|
  {
    s.(zones := s.zones - {z}, lists := s.lists[i := Dropped(s.lists[i], z)], spare := [z] + s.spare)
  }

  lemma InitialPages(npages: nat, table: nat)
    requires 0 < table <= npages
    ensures Alloc([Run(0, npages)], table).1 == Some(0)
    ensures PagesOk(Alloc([Run(0, npages)], table).0, map[0 := table], npages)
  {
    hide Alloc;
    var runs := [Run(0, npages)];
    assert runs[1..] == [];
    AllFree(npages);
    TakePages(runs, map[], npages, table);
    FirstFits(npages, table);
    assert map[][0 := table] == map[0 := table];
  }

  lemma AllFree(npages: nat)
    requires npages > 0
    ensures PagesOk([Run(0, npages)], map[], npages)
  {
    var runs := [Run(0, npages)];
    assert runs[1..] == [];
    forall p: nat
      ensures Holds(runs, p) <==> p < npages
    {
      assert !Holds(runs[1..], p);
    }
  }

  lemma FirstFits(npages: nat, table: nat)
    requires 0 < table <= npages
    ensures Alloc([Run(0, npages)], table).1 == Some(0)
  {
  }

  /** With nothing handed out but the table, the invariant holds. */
  lemma InitialOk(s: Slab, table: nat)
    requires ZoneSizeOk(s.zonePages * PAGE) && PagesOk(s.pages, s.taken, s.npages)
    requires s.taken == s.reserved == map[0 := table] && s.zones == map[] && s.spare == [] && s.large == map[]
    requires |s.lists| == ZONES && forall i :: 0 <= i < ZONES ==> s.lists[i] == []
    ensures SlabOk(s)
  {
    hide PagesOk;
    assert Members(s.spare) == {};
    forall i | 0 <= i < |s.lists|
      ensures ListOk(s.lists[i], i, s.zones)
    {
    }
  }

  lemma AllocNone(runs: seq<Run>, n: nat)
    ensures Alloc(runs, n).1.None? ==> Alloc(runs, n).0 == runs
  {
  }

  lemma ListWith(s: Slab, z: nat, ptr: nat)
    requires ZonesOk(s.zones, s.zonePages) && ListsOk(s.lists, s.zones)
    requires LiveChunk(s, z, ptr) && s.zones[z].index < |s.lists|
    ensures NoDup(Relisted(s, z)) && forall x :: x in Relisted(s, z) <==> x == z || x in s.lists[s.zones[z].index]
  {
    hide InZone, Live, Chunks;
    assert ZoneFits(s.zones[z], z, s.zonePages);
    GivenList(s, z, GiveChunk(s.zones[z], ptr));
  }

  /** The pages of a spare zone are in use, and in range. */
  lemma SpareHeld(s: Slab)
    requires SlabOk(s) && s.spare != []
    ensures NoneHeld(s.pages, s.spare[0], s.zonePages) && s.spare[0] + s.zonePages <= s.npages && s.zonePages > 0
  {
    hide WellFormed, Holds, ListsOk, ZonesOk, UsageOk, NoneHeld;
    assert s.spare[0] in s.spare;
    assert s.spare[0] in Members(s.spare);
    assert s.spare[0] in s.taken && s.taken[s.spare[0]] == s.zonePages;
  }

  lemma LargeHeld(s: Slab, ptr: nat)
    requires SlabOk(s) && LiveLarge(s, ptr)
    ensures var b := ptr / PAGE;
            && b in s.large && b in s.usage && s.usage[b] == Large(s.large[b])
            && NoneHeld(s.pages, b, s.large[b]) && b + s.large[b] <= s.npages && s.large[b] > 0
  {
    hide WellFormed, Holds, ListsOk, ZonesOk, NoneHeld;
    LargePage(s, ptr);
  }
}
