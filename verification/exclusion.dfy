/** What callers of `kmalloc` may rely on: in every well-formed heap, and so after every sequence of
    `kmalloc` and `kfree` calls, blocks and the allocator's own structures do not overlap. */
module Exclusion {
  import opened Words
  import opened Frames
  import opened Slabs
  import opened SlabLaws
  import opened Ownership

  /** The byte ranges `[a, a + n)` and `[b, b + m)` have no byte in common. */
  predicate Apart(a: nat, n: nat, b: nat, m: nat) {
    a + n <= b || b + m <= a
  }

  /** A live block lies in the frame of its slab. */
  lemma LiveBlockPlace(caches: seq<Cache>, c: nat, a: nat) returns (k: nat, j: nat)
    requires CachesOk(caches) && Live(caches, c, a)
    ensures At(caches, c, k) && HoldsAt(c, caches[c].ring[k], a, j) && SlabOk(c, k, caches[c].ring[k])
    ensures caches[c].ring[k].page * FRAME_BYTES <= a && a + Size(c) <= (caches[c].ring[k].page + 1) * FRAME_BYTES
    ensures InPage(c, k) ==> a + Size(c) <= caches[c].ring[k].self
  {
    hide SlabCounts, PagesDistinct, Size, CacheOk, SlabOk;
    k :| At(caches, c, k) && Holds(c, caches[c].ring[k], a);
    j :| HoldsAt(c, caches[c].ring[k], a, j);
    SlabFacts(caches, c, k);
    BlockInFrame(c, k, caches[c].ring[k], j);
  }

  lemma LiveBlockInOneFrame(caches: seq<Cache>, c: nat, a: nat)
    requires CachesOk(caches) && Live(caches, c, a)
    ensures a / FRAME_BYTES == (a + Size(c) - 1) / FRAME_BYTES
  {
    hide SlabCounts, Size, CacheOk, SlabOk, Live, PagesDistinct;
    var k, j := LiveBlockPlace(caches, c, a);
    SameFrame(caches[c].ring[k].page, a, a + Size(c) - 1);
  }

  lemma SameFrame(p: nat, a: nat, b: nat)
    requires p * FRAME_BYTES <= a <= b < (p + 1) * FRAME_BYTES
    ensures a / FRAME_BYTES == b / FRAME_BYTES
  {
  }

  /** A caller's block has no byte in common with the header and the map of a slab. */
  lemma StructsMissLiveBlock(caches: seq<Cache>, user: map<nat, nat>, owned: map<nat, Tag>, c: nat, a: nat, d: nat,
                             l: nat)
    requires HeapOk(caches, user, owned) && Live(caches, c, a) && a !in owned && At(caches, d, l) && l > 0
    ensures Apart(a, Size(c), caches[d].ring[l].self, SLAB_BYTES)
    ensures Apart(a, Size(c), caches[d].ring[l].mapAt, caches[d].ring[l].colorLength)
  {
    hide CachesOk, BlocksAgree, StructsOwned, Live, Size;
    SlabFacts(caches, d, l);
    if d < FIRST_LARGE {
      LiveBlockMissesInPage(caches, c, a, d, l);
    } else {
      LargeStructsAreLive(caches, user, owned, d, l);
      LiveBlocksApart(caches, c, a, 2, caches[d].ring[l].self);
      LiveBlocksApart(caches, c, a, ClassFor(MapBytes(d)), caches[d].ring[l].mapAt);
    }
  }

  lemma FramesApart(p: nat, q: nat)
    requires p < q
    ensures (p + 1) * FRAME_BYTES <= q * FRAME_BYTES
  {
  }

  /** Two live blocks overlap only if they are the same block. */
  lemma LiveBlocksApart(caches: seq<Cache>, c: nat, a: nat, d: nat, b: nat)
    requires CachesOk(caches) && Live(caches, c, a) && Live(caches, d, b)
    ensures (c == d && a == b) || Apart(a, Size(c), b, Size(d))
  {
    hide SlabCounts, Size, CacheOk, SlabOk, Live;
    var k, i := LiveBlockPlace(caches, c, a);
    var l, j := LiveBlockPlace(caches, d, b);
    var s, t := caches[c].ring[k], caches[d].ring[l];
    if s.page < t.page {
      FramesApart(s.page, t.page);
    } else if t.page < s.page {
      FramesApart(t.page, s.page);
    } else {
      assert c == d && k == l;
      if i < j {
        BlocksApart(c, i, j);
      } else if j < i {
        BlocksApart(c, j, i);
      }
    }
  }

  /** No live block reaches into the header and map at the end of an in-page slab's frame. */
  lemma LiveBlockMissesInPage(caches: seq<Cache>, c: nat, a: nat, d: nat, l: nat)
    requires CachesOk(caches) && Live(caches, c, a) && At(caches, d, l) && InPage(d, l)
    ensures var t := caches[d].ring[l];
            Apart(a, Size(c), t.self, SLAB_BYTES) && Apart(a, Size(c), t.mapAt, t.colorLength)
    ensures caches[d].ring[l].mapAt + caches[d].ring[l].colorLength <= (caches[d].ring[l].page + 1) * FRAME_BYTES
    ensures caches[d].ring[l].page * FRAME_BYTES <= caches[d].ring[l].self
  {
    hide SlabCounts, Size, CacheOk, Live;
    var k, i := LiveBlockPlace(caches, c, a);
    var s, t := caches[c].ring[k], caches[d].ring[l];
    SlabFacts(caches, d, l);
    InPageLayout(d);
    if s.page < t.page {
      FramesApart(s.page, t.page);
    } else if t.page < s.page {
      FramesApart(t.page, s.page);
    } else {
      assert c == d && k == l;
    }
  }

  /** The header and the map of a large slab are live blocks that are large enough. */
  lemma LargeStructsAreLive(caches: seq<Cache>, user: map<nat, nat>, owned: map<nat, Tag>, d: nat, l: nat)
    requires HeapOk(caches, user, owned) && FIRST_LARGE <= d < CLASSES && At(caches, d, l) && l > 0
    ensures var t := caches[d].ring[l];
            && t.self in owned && t.mapAt in owned && t.self != t.mapAt
            && Live(caches, 2, t.self) && SLAB_BYTES <= Size(2)
            && ClassFor(MapBytes(d)) < CLASSES && Live(caches, ClassFor(MapBytes(d)), t.mapAt)
            && t.colorLength <= Size(ClassFor(MapBytes(d)))
  {
    hide SlabCounts, PagesDistinct, CacheOk, Live;
    var t := caches[d].ring[l];
    assert OwnsStructs(d, t, owned);
    LargeLayout(d);
    SlabFacts(caches, d, l);
    assert Entry(user, owned, 2, t.self) && Entry(user, owned, ClassFor(MapBytes(d)), t.mapAt);
  }

  /** A live block has no byte in common with what lies outside all slab frames. */
  lemma LiveBlockMissesKernel(caches: seq<Cache>, words: seq<Word>, c: nat, a: nat, b: nat, n: nat)
    requires CachesOk(caches) && Live(caches, c, a) && OutsideSlabs(caches, words, b, n)
    ensures Apart(a, Size(c), b, n)
  {
    hide SlabCounts, Size, CacheOk, SlabOk, Live, PagesDistinct, InKernel;
    var k, j := LiveBlockPlace(caches, c, a);
    var p := caches[c].ring[k].page;
    assert HasPage(caches, p);
    NotKernel(caches, words, p);
    SharedFrame(p, a, Size(c), b, n);
  }

  lemma NotKernel(caches: seq<Cache>, words: seq<Word>, p: nat)
    requires HasPage(caches, p)
    ensures !InKernel(caches, words, p)
  {
  }

  /** Of two ranges that overlap, one of them inside frame `p`, the other reaches into it. */
  lemma SharedFrame(p: nat, a: nat, m: nat, b: nat, n: nat)
    requires p * FRAME_BYTES <= a && a + m <= (p + 1) * FRAME_BYTES
    ensures !Apart(a, m, b, n) ==> InRange(p, b, n)
  {
  }

  /** Between calls this holds of the first slabs too, whose headers and maps lie behind the kernel: no
      block that a caller holds has a byte in common with the header or the map of any slab. */
  lemma CallersBlocksMissAllStructs(caches: seq<Cache>, words: seq<Word>, user: map<nat, nat>, owned: map<nat, Tag>,
                                    a: nat, d: nat, l: nat)
    requires HeapOk(caches, user, owned) && FirstsApart(caches, words) && a in user && At(caches, d, l)
    ensures user[a] < CLASSES
    ensures Apart(a, Size(user[a]), caches[d].ring[l].self, SLAB_BYTES)
    ensures Apart(a, Size(user[a]), caches[d].ring[l].mapAt, caches[d].ring[l].colorLength)
  {
    hide CachesOk, Live, Size, OutsideSlabs;
    var c := user[a];
    assert Entry(user, owned, c, a);
    if l > 0 {
      StructsMissLiveBlock(caches, user, owned, c, a, d, l);
    } else {
      LiveBlockMissesKernel(caches, words, c, a, caches[d].ring[0].self, SLAB_BYTES);
      LiveBlockMissesKernel(caches, words, c, a, caches[d].ring[0].mapAt, caches[d].ring[0].colorLength);
    }
  }

  /** Every block that a caller holds lies inside one frame and has no byte in common with another
      caller's block, with a slab header or with a colour map. */
  lemma CallersBlocksAreTheirOwn(caches: seq<Cache>, user: map<nat, nat>, owned: map<nat, Tag>, a: nat)
    requires HeapOk(caches, user, owned) && a in user
    ensures user[a] < CLASSES && a / FRAME_BYTES == (a + Size(user[a]) - 1) / FRAME_BYTES
    ensures forall b :: b in user && b != a ==> user[b] < CLASSES && Apart(a, Size(user[a]), b, Size(user[b]))
    ensures forall d: nat, l: nat :: At(caches, d, l) && l > 0 ==>
              && Apart(a, Size(user[a]), caches[d].ring[l].self, SLAB_BYTES)
              && Apart(a, Size(user[a]), caches[d].ring[l].mapAt, caches[d].ring[l].colorLength)
  {
    hide CachesOk, Live, Size;
    var c := user[a];
    assert Entry(user, owned, c, a);
    LiveBlockInOneFrame(caches, c, a);
    forall b | b in user && b != a
      ensures user[b] < CLASSES && Apart(a, Size(c), b, Size(user[b]))
    {
      assert Entry(user, owned, user[b], b);
      LiveBlocksApart(caches, c, a, user[b], b);
    }
    forall d: nat, l: nat | At(caches, d, l) && l > 0
      ensures Apart(a, Size(c), caches[d].ring[l].self, SLAB_BYTES)
      ensures Apart(a, Size(c), caches[d].ring[l].mapAt, caches[d].ring[l].colorLength)
    {
      StructsMissLiveBlock(caches, user, owned, c, a, d, l);
    }
  }

  /** Headers and maps of two different large slabs do not overlap either. */
  lemma LargeStructsApart(caches: seq<Cache>, user: map<nat, nat>, owned: map<nat, Tag>, c: nat, k: nat, d: nat, l: nat)
    requires HeapOk(caches, user, owned) && FIRST_LARGE <= c < CLASSES && FIRST_LARGE <= d < CLASSES
    requires At(caches, c, k) && At(caches, d, l) && k > 0 && l > 0
    ensures var s, t := caches[c].ring[k], caches[d].ring[l];
            && (c != d || k != l ==>
                  Apart(s.self, SLAB_BYTES, t.self, SLAB_BYTES)
                    && Apart(s.mapAt, s.colorLength, t.mapAt, t.colorLength))
            && Apart(s.self, SLAB_BYTES, t.mapAt, t.colorLength)
  {
    hide Live, Size, Entry;
    var s, t := caches[c].ring[k], caches[d].ring[l];
    LargeStructsAreLive(caches, user, owned, c, k);
    LargeStructsAreLive(caches, user, owned, d, l);
    assert OwnsStructs(c, s, owned) && OwnsStructs(d, t, owned);
    LiveBlocksApart(caches, 2, s.self, 2, t.self);
    LiveBlocksApart(caches, ClassFor(MapBytes(c)), s.mapAt, ClassFor(MapBytes(d)), t.mapAt);
    LiveBlocksApart(caches, 2, s.self, ClassFor(MapBytes(d)), t.mapAt);
  }
}
