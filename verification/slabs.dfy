/** The sixteen `kmalloc` caches: slabs of equal blocks, one frame a slab. Values and their laws;
    the allocator itself is in module Kmalloc. */
module Slabs {
  import opened Words
  import opened Frames

  const CLASSES: nat := 16

  const LARGEST: nat := 1048576

  /** `sizeof(struct Slab)` */
  const SLAB_BYTES: nat := 72

  /** Slabs of the classes below this one keep their header and colour map inside their frame. */
  const FIRST_LARGE: nat := 5

  /** `struct Slab`. Its list links are the position in the ring of its cache; `self` is the address
      of the structure and `mapAt` that of the colour map. Addresses count from the start of the
      kernel's linear mapping. */
  datatype Slab = Slab(self: nat, mapAt: nat, page: nat, usingCount: nat, freeCount: nat, vaddress: nat,
                       colorLength: nat, colorCount: nat, colorMap: seq<Word>)

  /** `struct Slab_cache`; `ring[0]` is `cache_pool`. */
  datatype Cache = Cache(size: nat, totalUsing: nat, totalFree: nat, ring: seq<Slab>)

  /** Why a block is taken inside the allocator: it is the header or the colour map of the slab
      of frame `page`. */
  datatype Tag = Tag(cls: nat, page: nat, isMap: bool)

  /** The block sizes of `kmalloc_cache_size`. */
  function Size(c: nat): (s: nat)
    requires c < CLASSES
    ensures 32 <= s <= LARGEST
  {
    match c
    case 0 => 32
    case 1 => 64
    case 2 => 128
    case 3 => 256
    case 4 => 512
    case 5 => 1024
    case 6 => 2048
    case 7 => 4096
    case 8 => 8192
    case 9 => 16384
    case 10 => 32768
    case 11 => 65536
    case 12 => 131072
    case 13 => 262144
    case 14 => 524288
    case _ => 1048576
  }

  /** The first class, from `c` on, whose blocks can hold `size` bytes. */
  function ClassFor(size: nat, c: nat := 0): (r: nat)
    requires c <= CLASSES
    ensures c <= r <= CLASSES
    ensures r < CLASSES ==> size <= Size(r)
    ensures forall i :: c <= i < r ==> Size(i) < size
    decreases CLASSES - c
  {
    if c == CLASSES || Size(c) >= size then c else ClassFor(size, c + 1)
  }

  function Words64(count: nat): nat {
    (count + 63) / 64
  }

  /** The bytes at the end of an in-page slab's frame that hold its header and map. */
  function StructBytes(c: nat): nat
    requires c < CLASSES
  {
    SLAB_BYTES + FRAME_BYTES / Size(c) / 8
  }

  function Capacity(c: nat, inPage: bool): nat
    requires c < CLASSES
  {
    if inPage then (FRAME_BYTES - FRAME_BYTES / Size(c) / 8 - SLAB_BYTES) / Size(c) else FRAME_BYTES / Size(c)
  }

  predicate InPage(c: nat, k: nat) {
    k > 0 && c < FIRST_LARGE
  }

  /** Blocks of a slab whose header is elsewhere fill the frame. */
  lemma FullLayout(c: nat)
    requires c < CLASSES
    ensures Capacity(c, false) > 0 && Size(c) * Capacity(c, false) == FRAME_BYTES
  {
  }

  /** Blocks of an in-page slab end before its header, and its map fits between the header and the
      end of the frame. */
  lemma InPageLayout(c: nat)
    requires c < FIRST_LARGE
    ensures Capacity(c, true) > 0 && Size(c) * Capacity(c, true) + StructBytes(c) <= FRAME_BYTES
    ensures SLAB_BYTES + 8 * Words64(Capacity(c, true)) <= StructBytes(c)
  {
    match c {
      case 0 => assert Capacity(0, true) == 65277 && StructBytes(0) == 8264;
      case 1 => assert Capacity(1, true) == 32702 && StructBytes(1) == 4168;
      case 2 => assert Capacity(2, true) == 16367 && StructBytes(2) == 2120;
      case 3 => assert Capacity(3, true) == 8187 && StructBytes(3) == 1096;
      case _ => assert Capacity(4, true) == 4094 && StructBytes(4) == 584;
    }
  }

  function MapBytes(c: nat): nat
    requires c < CLASSES
  {
    8 * Words64(Capacity(c, false))
  }

  /** The header and the map of a large class come from the first four classes. */
  lemma LargeLayout(c: nat)
    requires FIRST_LARGE <= c < CLASSES
    ensures ClassFor(SLAB_BYTES) == 2 && ClassFor(MapBytes(c)) < 4
  {
    assert ClassFor(SLAB_BYTES, 2) == 2;
    assert MapBytes(c) <= Size(3);
  }

  // ---- one slab ----

  predicate SlabOk(c: nat, k: nat, s: Slab)
    requires c < CLASSES
  {
    && s.vaddress == s.page * FRAME_BYTES
    && s.colorCount == Capacity(c, InPage(c, k))
    && s.colorLength == 8 * Words64(s.colorCount) && |s.colorMap| == Words64(s.colorCount)
    && (InPage(c, k) ==> s.self == s.vaddress + FRAME_BYTES - StructBytes(c) && s.mapAt == s.self + SLAB_BYTES)
  }

  ghost predicate SlabCounts(s: Slab) {
    && s.colorCount <= 64 * |s.colorMap|
    && s.freeCount == ClearBits(s.colorMap, 0, s.colorCount)
    && s.usingCount + s.freeCount == s.colorCount
    && forall j: nat :: s.colorCount <= j < 64 * |s.colorMap| ==> Bit(s.colorMap, j)
  }

  /** Block `j` of the slab is handed out and starts at `a`. */
  ghost predicate Holds(c: nat, s: Slab, a: nat)
    requires c < CLASSES
  {
    exists j: nat :: HoldsAt(c, s, a, j)
  }

  ghost predicate HoldsAt(c: nat, s: Slab, a: nat, j: nat)
    requires c < CLASSES
  {
    j < s.colorCount <= 64 * |s.colorMap| && a == s.vaddress + Size(c) * j && Bit(s.colorMap, j)
  }

  function TakeColor(s: Slab, j: nat): Slab
    requires j < 64 * |s.colorMap| && s.freeCount > 0
  {
    s.(colorMap := WithBit(s.colorMap, j, true), usingCount := s.usingCount + 1, freeCount := s.freeCount - 1)
  }

  function DropColor(s: Slab, j: nat): Slab
    requires j < 64 * |s.colorMap| && s.usingCount > 0
  {
    s.(colorMap := WithBit(s.colorMap, j, false), usingCount := s.usingCount - 1, freeCount := s.freeCount + 1)
  }

  /** Taking a clear colour keeps the slab's account and hands out exactly that block. */
  lemma TakeColorLaw(c: nat, s: Slab, j: nat)
    requires c < CLASSES && SlabCounts(s) && j < s.colorCount && !Bit(s.colorMap, j)
    ensures s.freeCount > 0 && SlabCounts(TakeColor(s, j))
    ensures forall a: nat, i: nat :: HoldsAt(c, TakeColor(s, j), a, i) <==>
                (HoldsAt(c, s, a, i) || (i == j && a == s.vaddress + Size(c) * j))
  {
    ClearBitsPositive(s.colorMap, 0, s.colorCount);
    ClearBitsFlip(s.colorMap, 0, s.colorCount, j, true);
    WithBitBits(s.colorMap, j, true);
  }

  /** Releasing a set colour keeps the slab's account and takes back exactly that block. */
  lemma DropColorLaw(c: nat, s: Slab, j: nat)
    requires c < CLASSES && SlabCounts(s) && j < s.colorCount && Bit(s.colorMap, j)
    ensures s.usingCount > 0 && SlabCounts(DropColor(s, j))
    ensures forall a: nat, i: nat :: HoldsAt(c, DropColor(s, j), a, i) <==>
                (HoldsAt(c, s, a, i) && i != j)
  {
    ClearBitsFlip(s.colorMap, 0, s.colorCount, j, false);
    WithBitBits(s.colorMap, j, false);
  }

  /** The bookkeeping of `kfree` on block `j`, handed out or not: the bit is flipped and the counters, which
      are unsigned words, move. The account stays right exactly when the block was handed out. */
  lemma DropKeepsCountsIffUsed(s: Slab, j: nat)
    requires SlabCounts(s) && j < s.colorCount < MACHINE
    ensures var s' := s.(colorMap := WithBit(s.colorMap, j, !Bit(s.colorMap, j)),
                         usingCount := (s.usingCount + MACHINE - 1) % MACHINE,
                         freeCount := (s.freeCount + 1) % MACHINE);
            SlabCounts(s') <==> Bit(s.colorMap, j)
  {
    hide Bit;
    WithBitBits(s.colorMap, j, !Bit(s.colorMap, j));
    ClearBitsFlip(s.colorMap, 0, s.colorCount, j, !Bit(s.colorMap, j));
  }

  lemma SlabInUse(s: Slab, j: nat)
    requires SlabCounts(s) && j < s.colorCount && Bit(s.colorMap, j)
    ensures s.usingCount > 0
  {
    ClearBitsFlip(s.colorMap, 0, s.colorCount, j, false);
  }

  /** Blocks lie inside the frame of their slab, before its header when that is in the frame too. */
  lemma BlockInFrame(c: nat, k: nat, s: Slab, j: nat)
    requires c < CLASSES && SlabOk(c, k, s) && j < s.colorCount
    ensures s.page * FRAME_BYTES <= s.vaddress + Size(c) * j
    ensures s.vaddress + Size(c) * j + Size(c) <= (s.page + 1) * FRAME_BYTES
    ensures InPage(c, k) ==> s.vaddress + Size(c) * j + Size(c) <= s.self
    ensures (s.vaddress + Size(c) * j) / FRAME_BYTES == s.page
  {
    hide Size;
    if InPage(c, k) {
      InPageLayout(c);
    } else {
      FullLayout(c);
    }
    BlocksApart(c, j, s.colorCount);
  }

  /** The sizes are powers of two from 32 bytes to 1 MB, each twice the one before. */
  lemma SizesDouble(c: nat)
    requires c < CLASSES
    ensures c == 0 ==> Size(c) == 32
    ensures c + 1 < CLASSES ==> Size(c + 1) == 2 * Size(c)
    ensures c == 15 ==> Size(c) == 0x10_0000
  {
  }

  /** A request of at most 1 MB is served by the smallest class that is large enough. */
  lemma SmallestClass(size: nat, c: nat)
    requires c < CLASSES
    ensures ClassFor(size) == c <==> size <= Size(c) && forall d :: 0 <= d < c ==> Size(d) < size
  {
    hide Size;
  }

  /** No block more would fit: it would reach into the header of an in-page slab, or out of the frame. */
  lemma CapacityIsMost(c: nat)
    requires c < CLASSES
    ensures Size(c) * (Capacity(c, false) + 1) > FRAME_BYTES
    ensures c < FIRST_LARGE ==> Size(c) * (Capacity(c, true) + 1) > FRAME_BYTES - StructBytes(c)
    ensures c < FIRST_LARGE ==> StructBytes(c) == SLAB_BYTES + FRAME_BYTES / Size(c) / 8
  {
  }

  lemma MultiplyUp(n: nat, a: nat, b: nat)
    requires a <= b
    ensures n * a <= n * b && a * n <= b * n
  {
  }

  /** Two blocks of one slab are apart. */
  lemma BlocksApart(c: nat, i: nat, j: nat)
    requires c < CLASSES && i < j
    ensures Size(c) * i + Size(c) <= Size(c) * j
  {
    MultiplyUp(Size(c), i + 1, j);
    assert Size(c) * (i + 1) == Size(c) * i + Size(c);
  }

  // ---- the caches ----

  function SumFree(ring: seq<Slab>): nat {
    if ring == [] then 0 else SumFree(ring[..|ring| - 1]) + ring[|ring| - 1].freeCount
  }

  function SumUsing(ring: seq<Slab>): nat {
    if ring == [] then 0 else SumUsing(ring[..|ring| - 1]) + ring[|ring| - 1].usingCount
  }

  lemma {:induction false} SumsAfterUpdate(ring: seq<Slab>, k: nat, s: Slab)
    requires k < |ring|
    ensures SumFree(ring[k := s]) == SumFree(ring) - ring[k].freeCount + s.freeCount
    ensures SumUsing(ring[k := s]) == SumUsing(ring) - ring[k].usingCount + s.usingCount
  {
    var n := |ring| - 1;
    if k == n {
      assert ring[k := s][..n] == ring[..n];
    } else {
      assert ring[k := s][..n] == ring[..n][k := s];
      SumsAfterUpdate(ring[..n], k, s);
    }
  }

  lemma SumsAfterAppend(ring: seq<Slab>, s: Slab)
    ensures SumFree(ring + [s]) == SumFree(ring) + s.freeCount
    ensures SumUsing(ring + [s]) == SumUsing(ring) + s.usingCount
  {
    assert (ring + [s])[..|ring|] == ring;
  }

  function Without<T>(xs: seq<T>, k: nat): seq<T>
    requires k < |xs|
  {
    xs[..k] + xs[k + 1..]
  }

  lemma {:induction false} SumsAfterRemove(ring: seq<Slab>, k: nat)
    requires k < |ring|
    ensures SumFree(Without(ring, k)) == SumFree(ring) - ring[k].freeCount
    ensures SumUsing(Without(ring, k)) == SumUsing(ring) - ring[k].usingCount
  {
    var n := |ring| - 1;
    if k == n {
      assert Without(ring, k) == ring[..n];
    } else {
      SumsAfterRemove(ring[..n], k);
      assert Without(ring, k) == Without(ring[..n], k) + [ring[n]];
      SumsAfterAppend(Without(ring[..n], k), ring[n]);
    }
  }

  /** Only an empty sum has no slab with a free block: the ring walk of `kmalloc` must succeed. */
  lemma {:induction false} SomeSlabFree(ring: seq<Slab>)
    requires SumFree(ring) != 0
    ensures exists k :: 0 <= k < |ring| && ring[k].freeCount != 0
  {
    var n := |ring| - 1;
    if ring[n].freeCount == 0 {
      SomeSlabFree(ring[..n]);
      var k :| 0 <= k < n && ring[..n][k].freeCount != 0;
      assert ring[k].freeCount != 0;
    }
  }

  ghost predicate CacheOk(c: nat, cache: Cache)
    requires c < CLASSES
  {
    && cache.size == Size(c) && |cache.ring| > 0
    && (forall k :: 0 <= k < |cache.ring| ==> SlabOk(c, k, cache.ring[k]) && SlabCounts(cache.ring[k]))
    && cache.totalFree == SumFree(cache.ring) && cache.totalUsing == SumUsing(cache.ring)
  }

  ghost predicate At(caches: seq<Cache>, c: nat, k: nat) {
    c < |caches| && k < |caches[c].ring|
  }

  ghost predicate HasPage(caches: seq<Cache>, page: nat) {
    exists c: nat, k: nat :: At(caches, c, k) && caches[c].ring[k].page == page
  }

  /** Every slab has its own frame. */
  ghost predicate PagesDistinct(caches: seq<Cache>) {
    forall c: nat, k: nat, c': nat, k': nat ::
      At(caches, c, k) && At(caches, c', k') && caches[c].ring[k].page == caches[c'].ring[k'].page ==>
      c == c' && k == k'
  }

  ghost predicate CachesOk(caches: seq<Cache>) {
    && |caches| == CLASSES
    && (forall c: nat :: c < CLASSES ==> CacheOk(c, caches[c]))
    && PagesDistinct(caches)
  }

  /** A block of class `c` that starts at `a` is handed out. */
  ghost predicate Live(caches: seq<Cache>, c: nat, a: nat) {
    c < |caches| && c < CLASSES && exists k: nat :: At(caches, c, k) && Holds(c, caches[c].ring[k], a)
  }

  // ---- what the blocks are used for ----

  ghost predicate Entry(user: map<nat, nat>, owned: map<nat, Tag>, c: nat, a: nat) {
    (a in user && user[a] == c) || (a in owned && owned[a].cls == c)
  }

  /** The set colour bits are exactly the blocks that callers hold or that slabs own. */
  ghost predicate BlocksAgree(caches: seq<Cache>, user: map<nat, nat>, owned: map<nat, Tag>) {
    && user.Keys !! owned.Keys
    && (forall a :: a in user ==> user[a] < CLASSES)
    && (forall a :: a in owned ==> owned[a].cls < CLASSES)
    && (forall c: nat, a: nat :: Live(caches, c, a) <==> Entry(user, owned, c, a))
  }

  function HeaderTag(s: Slab): Tag {
    Tag(2, s.page, false)
  }

  function MapTag(c: nat, s: Slab): Tag
    requires c < CLASSES
  {
    Tag(ClassFor(MapBytes(c)), s.page, true)
  }

  ghost predicate OwnsStructs(c: nat, s: Slab, owned: map<nat, Tag>)
    requires c < CLASSES
  {
    && s.self in owned && owned[s.self] == HeaderTag(s)
    && s.mapAt in owned && owned[s.mapAt] == MapTag(c, s)
  }

  /** Every slab of a large class but the first owns the blocks of its header and its map. */
  ghost predicate StructsOwned(caches: seq<Cache>, owned: map<nat, Tag>) {
    forall c: nat, k: nat :: FIRST_LARGE <= c < CLASSES && k > 0 && At(caches, c, k) ==>
                               OwnsStructs(c, caches[c].ring[k], owned)
  }

  ghost predicate HeapOk(caches: seq<Cache>, user: map<nat, nat>, owned: map<nat, Tag>) {
    CachesOk(caches) && BlocksAgree(caches, user, owned) && StructsOwned(caches, owned)
  }

  // ---- the four changes that the allocator makes ----

  function TakeBlock(caches: seq<Cache>, c: nat, k: nat, j: nat): seq<Cache>
    requires c < |caches| && k < |caches[c].ring| && caches[c].totalFree > 0
    requires j < 64 * |caches[c].ring[k].colorMap| && caches[c].ring[k].freeCount > 0
  {
    var cache := caches[c];
    caches[c := cache.(totalFree := cache.totalFree - 1, totalUsing := cache.totalUsing + 1,
                       ring := cache.ring[k := TakeColor(cache.ring[k], j)])]
  }

  function DropBlock(caches: seq<Cache>, c: nat, k: nat, j: nat): seq<Cache>
    requires c < |caches| && k < |caches[c].ring| && caches[c].totalUsing > 0
    requires j < 64 * |caches[c].ring[k].colorMap| && caches[c].ring[k].usingCount > 0
  {
    var cache := caches[c];
    caches[c := cache.(totalFree := cache.totalFree + 1, totalUsing := cache.totalUsing - 1,
                       ring := cache.ring[k := DropColor(cache.ring[k], j)])]
  }

  function AppendSlab(caches: seq<Cache>, c: nat, s: Slab): seq<Cache>
    requires c < |caches|
  {
    var cache := caches[c];
    caches[c := cache.(totalFree := cache.totalFree + s.colorCount, ring := cache.ring + [s])]
  }

  function RemoveSlab(caches: seq<Cache>, c: nat, k: nat): seq<Cache>
    requires c < |caches| && k < |caches[c].ring| && caches[c].totalFree >= caches[c].ring[k].colorCount
  {
    var cache := caches[c];
    caches[c := cache.(totalFree := cache.totalFree - cache.ring[k].colorCount, ring := Without(cache.ring, k))]
  }

  /** A live block belongs to the one slab whose frame it is in. */
  lemma LiveIsHere(caches: seq<Cache>, c: nat, k: nat, c': nat, a: nat)
    requires CachesOk(caches) && At(caches, c, k) && Live(caches, c', a)
    requires a / FRAME_BYTES == caches[c].ring[k].page
    ensures c == c' && Holds(c, caches[c].ring[k], a)
  {
    hide SlabCounts;
    var k': nat :| At(caches, c', k') && Holds(c', caches[c'].ring[k'], a);
    var j: nat :| HoldsAt(c', caches[c'].ring[k'], a, j);
    assert CacheOk(c', caches[c']);
    BlockInFrame(c', k', caches[c'].ring[k'], j);
  }

  // ---- new slabs ----

  /** A colour map whose bits below `count` are clear and whose other bits are set. */
  function FreshMap(count: nat): (r: seq<Word>)
    ensures |r| == Words64(count)
  {
    seq(Words64(count), w requires w >= 0 => seq(64, b requires b >= 0 => 64 * w + b >= count))
  }

  lemma FreshMapBits(count: nat)
    ensures forall j: nat :: j < 64 * Words64(count) ==> Bit(FreshMap(count), j) == (j >= count)
    ensures ClearBits(FreshMap(count), 0, count) == count
  {
    forall j: nat | j < 64 * Words64(count)
      ensures Bit(FreshMap(count), j) == (j >= count)
    {
      assert 64 * (j / 64) + j % 64 == j;
    }
    ClearBitsAllClear(FreshMap(count), 0, count);
  }

  function NewSlab(self: nat, mapAt: nat, page: nat, count: nat): Slab {
    Slab(self, mapAt, page, 0, count, page * FRAME_BYTES, 8 * Words64(count), count, FreshMap(count))
  }

  lemma NewSlabIsUnused(self: nat, mapAt: nat, page: nat, count: nat)
    ensures SlabCounts(NewSlab(self, mapAt, page, count)) && NewSlab(self, mapAt, page, count).usingCount == 0
  {
    FreshMapBits(count);
  }

  /** The state that `slab_init` leaves: one unused slab a class, its header and map in the
      kernel image. */
  function FirstCache(c: nat, self: nat, mapAt: nat, page: nat): Cache
    requires c < CLASSES
  {
    Cache(Size(c), 0, Capacity(c, false), [NewSlab(self, mapAt, page, Capacity(c, false))])
  }

  lemma FirstCacheOk(c: nat, self: nat, mapAt: nat, page: nat)
    requires c < CLASSES
    ensures CacheOk(c, FirstCache(c, self, mapAt, page))
    ensures forall a: nat :: !Holds(c, FirstCache(c, self, mapAt, page).ring[0], a)
  {
    hide Size;
    var s := NewSlab(self, mapAt, page, Capacity(c, false));
    NewSlabIsUnused(self, mapAt, page, Capacity(c, false));
    assert SumFree([s]) == SumFree([]) + s.freeCount && SumUsing([s]) == 0;
    forall a: nat, j: nat
      ensures !HoldsAt(c, s, a, j)
    {
      if HoldsAt(c, s, a, j) {
        SlabInUse(s, j);
      }
    }
  }

  function FirstCaches(selfs: seq<nat>, maps: seq<nat>, pages: seq<nat>): seq<Cache>
    requires |selfs| == |maps| == |pages| == CLASSES
  {
    seq(CLASSES, c requires 0 <= c < CLASSES => FirstCache(c, selfs[c], maps[c], pages[c]))
  }

  lemma FirstCachesOk(selfs: seq<nat>, maps: seq<nat>, pages: seq<nat>)
    requires |selfs| == |maps| == |pages| == CLASSES
    requires forall i, j :: 0 <= i < j < CLASSES ==> pages[i] != pages[j]
    ensures HeapOk(FirstCaches(selfs, maps, pages), map[], map[])
    ensures forall p: nat :: HasPage(FirstCaches(selfs, maps, pages), p) ==> p in pages
  {
    hide Holds, CacheOk, Capacity, Size;
    var caches := FirstCaches(selfs, maps, pages);
    forall c: nat | c < CLASSES
      ensures CacheOk(c, caches[c]) && forall a: nat :: !Holds(c, caches[c].ring[0], a)
    {
      FirstCacheOk(c, selfs[c], maps[c], pages[c]);
    }
  }
}
