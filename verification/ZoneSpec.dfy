/** Zones of the slab allocator (rt-thread/src/slab.c): the size classes, the layout of a zone,
    and the chunks that one zone hands out and takes back. */
module ZoneSpec {

  const ZONES: nat := 72           // NZONES
  const HEADER: nat := 36          // sizeof(slab_zone)
  const ZONE_LIMIT: nat := 16384   // ZALLOC_ZONE_LIMIT
  const MIN_ZONE: nat := 32768     // ZALLOC_MIN_ZONE_SIZE

  // ---------------------------------------------------------------------------------
  // Size classes
  // ---------------------------------------------------------------------------------

  function RoundUp(n: nat, k: nat): (r: nat)
    requires k > 0
  {
    Quotient(n + k - 1, k) * k
  }

  function Quotient(a: nat, b: nat): nat
    requires b > 0
  {
    a / b
  }

  /** zoneindex: the chunk size and the zone index of a request. */
  function ZoneIndex(n: nat): (nat, int) {
    if n < 128 then (RoundUp(n, 8), RoundUp(n, 8) / 8 - 1)
    else if n < 256 then (RoundUp(n, 16), RoundUp(n, 16) / 16 + 7)
    else if n < 512 then (RoundUp(n, 32), RoundUp(n, 32) / 32 + 15)
    else if n < 1024 then (RoundUp(n, 64), RoundUp(n, 64) / 64 + 23)
    else if n < 2048 then (RoundUp(n, 128), RoundUp(n, 128) / 128 + 31)
    else if n < 4096 then (RoundUp(n, 256), RoundUp(n, 256) / 256 + 39)
    else if n < 8192 then (RoundUp(n, 512), RoundUp(n, 512) / 512 + 47)
    else if n < 16384 then (RoundUp(n, 1024), RoundUp(n, 1024) / 1024 + 55)
    else (n, 0)
  }

  /** The chunk size of class i, by counting: sixteen classes 8 apart, then eight classes for each
      doubling. */
  function ClassSize(i: nat): nat
    requires i < ZONES
  {
    if i < 16 then 8 * (i + 1)
    else if i < 24 then 16 * (i - 7)
    else if i < 32 then 32 * (i - 15)
    else if i < 40 then 64 * (i - 23)
    else if i < 48 then 128 * (i - 31)
    else if i < 56 then 256 * (i - 39)
    else if i < 64 then 512 * (i - 47)
    else 1024 * (i - 55)
  }

  /** Every request below the limit gets the smallest class that holds it, and wastes at most
      seven bytes or an eighth. */
  lemma ZoneIndexIsLeast(n: nat)
    requires 0 < n < ZONE_LIMIT
    ensures LeastClass(n)
  {
    if n < 1024 {
      LowClasses(n);
    } else {
      HighClasses(n);
    }
  }

  predicate LeastClass(n: nat) {
    var (size, i) := ZoneIndex(n);
    && 0 <= i < ZONES && size == ClassSize(i) && size >= n && size % 8 == 0
    && (i > 0 ==> ClassSize(i - 1) < n)
    && (size - n <= 7 || 8 * (size - n) <= n)
  }

  lemma LowClasses(n: nat)
    requires 0 < n < 1024
    ensures LeastClass(n)
  {
    hide RoundUp;
    if n < 128 {
      Rounds(n, 8, 1);
    } else if n < 256 {
      Rounds(n, 16, 2);
    } else if n < 512 {
      Rounds(n, 32, 4);
    } else {
      Rounds(n, 64, 8);
    }
  }

  lemma HighClasses(n: nat)
    requires 1024 <= n < ZONE_LIMIT
    ensures LeastClass(n)
  {
    hide RoundUp;
    if n < 2048 {
      Rounds(n, 128, 16);
    } else if n < 4096 {
      Rounds(n, 256, 32);
    } else if n < 8192 {
      Rounds(n, 512, 64);
    } else {
      Rounds(n, 1024, 128);
    }
  }

  lemma Rounds(n: nat, k: nat, m: nat)
    requires k == 8 * m && m > 0
    ensures n <= RoundUp(n, k) < n + k && RoundUp(n, k) % 8 == 0 && RoundUp(n, k) == k * (RoundUp(n, k) / k)
  {
    var q := (n + k - 1) / k;
    assert n + k - 1 == q * k + (n + k - 1) % k;
    Multiple(q, k);
    assert q * k == 8 * (q * m) by {
      Regroup(q, m);
    }
    EightTimes(q * m);
  }

  lemma Multiple(q: nat, k: nat)
    requires k > 0
    ensures q * k / k == q
  {
    var d := q * k / k;
    assert q * k == d * k + q * k % k;
    Steps(d, q, k);
    Steps(q, d, k);
  }

  lemma Steps(j: nat, k: nat, c: nat)
    ensures j < k ==> j * c + c <= k * c
  {
    if j < k {
      StepsApart(j, k, c);
    }
  }

  lemma Regroup(q: nat, m: nat)
    ensures q * (8 * m) == 8 * (q * m)
  {
  }

  lemma EightTimes(n: nat)
    ensures 8 * n % 8 == 0
  {
  }

  /** zone_limit for a zone size. */
  function Limit(zoneSize: nat): nat {
    if zoneSize / 4 > ZONE_LIMIT then ZONE_LIMIT else zoneSize / 4
  }

  // ---------------------------------------------------------------------------------
  // One zone
  // ---------------------------------------------------------------------------------

  /** nfree, nmax, uindex, chunkSize, index, base, freeChunks are z_nfree .. z_freechunk. */
  datatype Zone = Zone(nfree: int, nmax: nat, uindex: nat, chunkSize: nat, index: nat, base: nat, freeChunks: seq<nat>)

  predicate PowerOfTwo(n: nat) {
    n == 1 || (n > 1 && n % 2 == 0 && PowerOfTwo(n / 2))
  }

  /** Where the chunks start: power-of-two chunks are aligned to their size. */
  function Offset(size: nat): nat
    requires size > 0
  {
    if PowerOfTwo(size) then RoundUp(HEADER, size) else RoundUp(HEADER, 8)
  }

  /** A new zone at address z, its first chunk already handed out. */
  function Fresh(z: nat, zoneSize: nat, size: nat, index: nat): Zone
    requires 0 < size && Offset(size) <= zoneSize
  {
    var nmax := Quotient(zoneSize - Offset(size), size);
    Zone(nmax - 1, nmax, 0, size, index, z + Offset(size), [])
  }

  function Addr(z: Zone, k: nat): nat {
    z.base + k * z.chunkSize
  }

  /** The chunks handed out at least once. */
  ghost function Chunks(z: Zone): set<nat> {
    set k: nat | 0 <= k <= z.uindex :: Addr(z, k)
  }

  ghost function Members(s: seq<nat>): (r: set<nat>)
    ensures forall x :: x in r <==> x in s
  {
    set x | x in s
  }

  ghost function Live(z: Zone): set<nat> {
    Chunks(z) - Members(z.freeChunks)
  }

  ghost predicate NoDup(s: seq<nat>) {
    forall i, j :: 0 <= i < j < |s| ==> s[i] != s[j]
  }

  ghost predicate ZoneOk(z: Zone) {
    && z.nmax >= 2 && z.uindex < z.nmax && z.chunkSize > 0
    && z.nfree == (z.nmax - 1 - z.uindex) + |z.freeChunks|
    && NoDup(z.freeChunks) && forall a :: a in z.freeChunks ==> a in Chunks(z)
  }

  // ---------------------------------------------------------------------------------
  // Taking and returning a chunk
  // ---------------------------------------------------------------------------------

  /** The chunk that rt_malloc takes from a zone that has one: never-used ones first. */
  function TakeChunk(z: Zone): (Zone, nat)
    requires z.uindex + 1 != z.nmax || z.freeChunks != []
  {
    if z.uindex + 1 != z.nmax then
      (z.(nfree := z.nfree - 1, uindex := z.uindex + 1), Addr(z, z.uindex + 1))
    else
      (z.(nfree := z.nfree - 1, freeChunks := z.freeChunks[1..]), z.freeChunks[0])
  }

  function GiveChunk(z: Zone, ptr: nat): Zone {
    z.(nfree := z.nfree + 1, freeChunks := [ptr] + z.freeChunks)
  }

  lemma ChunksDistinct(z: Zone, j: nat, k: nat)
    requires j < k && z.chunkSize > 0
    ensures Addr(z, j) + z.chunkSize <= Addr(z, k)
  {
    StepsApart(j, k, z.chunkSize);
  }

  lemma {:induction false} StepsApart(j: nat, k: nat, c: nat)
    requires j < k
    ensures j * c + c <= k * c
    decreases k
  {
    assert k * c == (k - 1) * c + c;
    if j < k - 1 {
      StepsApart(j, k - 1, c);
    }
  }

  lemma ChunkIs(z: Zone, a: nat) returns (k: nat)
    requires a in Chunks(z)
    ensures k <= z.uindex && a == Addr(z, k)
  {
    k :| 0 <= k <= z.uindex && a == Addr(z, k);
  }

  lemma ChunkAt(z: Zone, k: nat)
    requires k <= z.uindex
    ensures Addr(z, k) in Chunks(z)
  {
  }

  /** One more chunk in use. */
  lemma ChunksGrow(z: Zone)
    requires z.chunkSize > 0
    ensures var r := z.(uindex := z.uindex + 1);
            Chunks(r) == Chunks(z) + {Addr(z, z.uindex + 1)} && Addr(z, z.uindex + 1) !in Chunks(z)
  {
    var r := z.(uindex := z.uindex + 1);
    forall a
      ensures a in Chunks(r) <==> a in Chunks(z) || a == Addr(z, z.uindex + 1)
    {
      if a in Chunks(r) {
        var k := ChunkIs(r, a);
        assert a == Addr(z, k);
        if k <= z.uindex {
          ChunkAt(z, k);
        }
      }
      if a in Chunks(z) {
        var k := ChunkIs(z, a);
        assert a == Addr(r, k);
        ChunkAt(r, k);
      }
      if a == Addr(z, z.uindex + 1) {
        assert a == Addr(r, z.uindex + 1);
        ChunkAt(r, z.uindex + 1);
      }
    }
    if Addr(z, z.uindex + 1) in Chunks(z) {
      var k := ChunkIs(z, Addr(z, z.uindex + 1));
      ChunksDistinct(z, k, z.uindex + 1);
    }
  }

  lemma {:induction false} ChunkCount(z: Zone)
    requires z.chunkSize > 0
    ensures |Chunks(z)| == z.uindex + 1
    decreases z.uindex
  {
    hide Chunks;
    if z.uindex == 0 {
      OnlyChunk(z);
    } else {
      var less := z.(uindex := z.uindex - 1);
      ChunkCount(less);
      ChunksGrow(less);
      assert less.(uindex := less.uindex + 1) == z;
    }
  }

  lemma OnlyChunk(z: Zone)
    requires z.uindex == 0
    ensures Chunks(z) == {Addr(z, 0)}
  {
  }

  lemma {:induction false} MemberCount(s: seq<nat>)
    requires NoDup(s)
    ensures |Members(s)| == |s|
  {
    if s == [] {
      assert Members(s) == {};
    } else {
      MemberCount(s[1..]);
      assert s == [s[0]] + s[1..];
      assert Members(s) == Members(s[1..]) + {s[0]};
    }
  }

  /** Main result for one zone: z_nfree counts exactly the chunks that are not live. */
  lemma LiveCount(z: Zone)
    requires ZoneOk(z)
    ensures |Live(z)| == z.nmax - z.nfree
    ensures z.nfree == z.nmax <==> Live(z) == {}
  {
    hide Chunks;
    ChunkCount(z);
    MemberCount(z.freeChunks);
    assert Members(z.freeChunks) <= Chunks(z);
    CardinalityLess(Chunks(z), Members(z.freeChunks));
  }

  lemma {:induction false} CardinalityLess(a: set<nat>, b: set<nat>)
    requires b <= a
    ensures |a - b| == |a| - |b|
  {
    assert a == (a - b) + b;
  }

  /** A chunk taken was not live and is now; nothing else changes. */
  lemma TakeLives(z: Zone)
    requires ZoneOk(z) && z.nfree > 0
    ensures z.uindex + 1 != z.nmax || z.freeChunks != []
    ensures var (r, a) := TakeChunk(z); ZoneOk(r) && a !in Live(z) && Live(r) == Live(z) + {a}
  {
    hide Chunks;
    var (r, a) := TakeChunk(z);
    if z.uindex + 1 != z.nmax {
      ChunksGrow(z);
      ChunksSame(z.(uindex := z.uindex + 1), r);
    } else {
      ChunksSame(z, r);
      assert z.freeChunks == [a] + r.freeChunks;
    }
  }

  lemma ChunksSame(z: Zone, r: Zone)
    requires r.uindex == z.uindex && r.base == z.base && r.chunkSize == z.chunkSize
    ensures Chunks(r) == Chunks(z)
  {
    assert forall k: nat :: Addr(r, k) == Addr(z, k);
  }

  /** A live chunk given back is no longer live; nothing else changes. */
  lemma GiveLives(z: Zone, a: nat)
    requires ZoneOk(z) && a in Live(z)
    ensures var r := GiveChunk(z, a); ZoneOk(r) && Live(r) == Live(z) - {a}
  {
    hide Chunks;
    ChunksSame(z, GiveChunk(z, a));
  }

  // ---------------------------------------------------------------------------------
  // Fresh zones
  // ---------------------------------------------------------------------------------

  lemma OffsetBound(size: nat)
    requires 8 <= size && size % 8 == 0
    ensures HEADER <= Offset(size) < HEADER + (if size < 64 then 64 else size)
    ensures size >= 64 && PowerOfTwo(size) ==> Offset(size) == size
  {
    hide PowerOfTwo;
    if PowerOfTwo(size) {
      RoundUpIs(size);
    }
  }

  lemma RoundUpIs(size: nat)
    requires size > 0
    ensures HEADER <= RoundUp(HEADER, size) < HEADER + size
    ensures size >= HEADER ==> RoundUp(HEADER, size) == size
  {
    if size >= HEADER {
      assert (HEADER + size - 1) / size == 1 by {
        QuotientOne(HEADER + size - 1, size);
      }
    } else {
      SmallRound(size);
    }
  }

  lemma QuotientOne(a: nat, b: nat)
    requires 0 < b <= a < 2 * b
    ensures a / b == 1
  {
  }

  lemma SmallRound(size: nat)
    requires 0 < size < HEADER
    ensures HEADER <= (HEADER + size - 1) / size * size < HEADER + size
  {
    var q := (HEADER + size - 1) / size;
    assert HEADER + size - 1 == q * size + (HEADER + size - 1) % size;
  }

  /** A new zone has room for at least two chunks, all inside it, and one is live. */
  lemma FreshZone(z: nat, zoneSize: nat, size: nat, index: nat)
    requires 8 <= size <= zoneSize / 4 && size % 8 == 0 && zoneSize >= MIN_ZONE
    ensures Offset(size) <= zoneSize
    ensures var r := Fresh(z, zoneSize, size, index);
            && ZoneOk(r) && r.nfree > 0 && Live(r) == {r.base} && InZone(r, z, zoneSize)
  {
    hide PowerOfTwo, Offset, Chunks;
    OffsetBound(size);
    var room := zoneSize - Offset(size);
    assert room >= 2 * size;
    Fits(room, size);
    var r := Fresh(z, zoneSize, size, index);
    OnlyChunk(r);
    assert Addr(r, 0) == r.base;
  }

  /** A new zone holds as many chunks as fit behind its header, which takes no more than the
      alignment needs: the chunk size for a power of two, else eight bytes. */
  lemma FreshZoneIsFull(z: nat, zoneSize: nat, size: nat, index: nat)
    requires 8 <= size <= zoneSize / 4 && size % 8 == 0 && zoneSize >= MIN_ZONE
    ensures Offset(size) <= zoneSize
    ensures var r := Fresh(z, zoneSize, size, index);
            var grain := if PowerOfTwo(size) then size else 8;
            && r.chunkSize == size && r.nfree == r.nmax - 1 && r.uindex == 0 && r.freeChunks == []
            && (r.base - z) % grain == 0 && z + 36 <= r.base < z + 36 + grain
            && r.base + r.nmax * size <= z + zoneSize < r.base + (r.nmax + 1) * size
  {
    hide PowerOfTwo;
    FreshZone(z, zoneSize, size, index);
    var grain := if PowerOfTwo(size) then size else 8;
    assert Offset(size) == RoundUp(HEADER, grain);
    RoundUpGrain(grain);
    hide RoundUp;
    WholeQuotient(zoneSize - Offset(size), size);
  }

  lemma RoundUpGrain(grain: nat)
    requires grain > 0
    ensures RoundUp(HEADER, grain) % grain == 0 && HEADER <= RoundUp(HEADER, grain) < HEADER + grain
  {
    RoundUpIs(grain);
    MultipleRest((HEADER + grain - 1) / grain, grain);
  }

  lemma MultipleRest(q: nat, k: nat)
    requires k > 0
    ensures q * k % k == 0
  {
    Multiple(q, k);
  }

  lemma WholeQuotient(room: nat, size: nat)
    requires size > 0
    ensures Quotient(room, size) * size <= room < (Quotient(room, size) + 1) * size
  {
    var q := room / size;
    assert room == q * size + room % size;
    assert (q + 1) * size == q * size + size;
  }

  lemma Fits(room: nat, size: nat)
    requires 0 < size && room >= 2 * size
    ensures room / size >= 2 && room / size * size <= room
  {
    var q := room / size;
    assert room == q * size + room % size;
    MulMono(q, 1, size);
  }

  /** All nmax chunks lie behind the zone header and within the zone. */
  ghost predicate InZone(r: Zone, z: nat, zoneSize: nat) {
    z + HEADER <= r.base && r.base + r.nmax * r.chunkSize <= z + zoneSize
  }

  /** Live chunks are within the zone and pairwise disjoint. */
  lemma LiveInZone(r: Zone, z: nat, zoneSize: nat, a: nat)
    requires ZoneOk(r) && InZone(r, z, zoneSize) && a in Live(r)
    ensures z + HEADER <= a && a + r.chunkSize <= z + zoneSize
  {
    var k := ChunkIs(r, a);
    assert (k + 1) * r.chunkSize <= r.nmax * r.chunkSize by {
      MulLess(k + 1, r.nmax, r.chunkSize);
    }
    assert k * r.chunkSize >= 0;
  }

  lemma MulMono(a: nat, b: nat, c: nat)
    ensures a <= b ==> a * c <= b * c
  {
  }

  lemma MulLess(a: nat, b: nat, c: nat)
    requires a <= b
    ensures a * c <= b * c
  {
  }

  lemma LiveDisjoint(r: Zone, a: nat, b: nat)
    requires ZoneOk(r) && a in Live(r) && b in Live(r) && a != b
    ensures a + r.chunkSize <= b || b + r.chunkSize <= a
  {
    var j := ChunkIs(r, a);
    var k := ChunkIs(r, b);
    if j < k {
      ChunksDistinct(r, j, k);
    } else {
      ChunksDistinct(r, k, j);
    }
  }
}
