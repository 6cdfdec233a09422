/** What holds between calls of `kmalloc` and `kfree` besides the heap's own invariant: blocks that slabs
    own are headers and maps of slabs that exist, and the headers and maps of the first slabs lie outside
    all slab frames. */
module Ownership {
  import opened Words
  import opened Frames
  import opened Slabs
  import opened SlabLaws
  import opened HeapFacts

  // ---- no block is lost ----

  /** Block `b` is the header or the map, as the tag says, of slab `k` of large class `c`. */
  ghost predicate OwnerAt(caches: seq<Cache>, b: nat, tag: Tag, c: nat, k: nat) {
    && FIRST_LARGE <= c < CLASSES && k > 0 && At(caches, c, k) && caches[c].ring[k].page == tag.page
    && b == if tag.isMap then caches[c].ring[k].mapAt else caches[c].ring[k].self
  }

  ghost predicate HasOwner(caches: seq<Cache>, b: nat, tag: Tag) {
    exists c: nat, k: nat :: OwnerAt(caches, b, tag, c, k)
  }

  ghost predicate NoLeak(caches: seq<Cache>, owned: map<nat, Tag>) {
    forall b :: b in owned ==> HasOwner(caches, b, owned[b])
  }

  lemma OwnerStays(caches: seq<Cache>, caches': seq<Cache>, b: nat, tag: Tag)
    requires HasOwner(caches, b, tag) && StructsStay(caches, caches')
    ensures HasOwner(caches', b, tag)
  {
    var c: nat, k: nat :| OwnerAt(caches, b, tag, c, k);
    assert OwnerAt(caches', b, tag, c, k);
  }

  /** A request that owned no new block. */
  lemma NoLeakStays(caches: seq<Cache>, caches': seq<Cache>, owned: map<nat, Tag>)
    requires NoLeak(caches, owned) && StructsStay(caches, caches')
    ensures NoLeak(caches', owned)
  {
    hide HasOwner, StructsStay;
    forall b | b in owned
      ensures HasOwner(caches', b, owned[b])
    {
      OwnerStays(caches, caches', b, owned[b]);
    }
  }

  /** A request that opened slab `k` of large class `c`, with its header and map. */
  lemma NoLeakGrows(caches: seq<Cache>, caches': seq<Cache>, owned: map<nat, Tag>, owned': map<nat, Tag>,
                    c: nat, k: nat, s: Slab)
    requires NoLeak(caches, owned) && StructsStay(caches, caches')
    requires FIRST_LARGE <= c < CLASSES && k > 0 && At(caches', c, k) && SameStructs(caches'[c].ring[k], s)
    requires owned' == owned[s.self := HeaderTag(s)][s.mapAt := MapTag(c, s)]
    ensures NoLeak(caches', owned')
  {
    hide HasOwner, StructsStay, At, MapBytes, ClassFor;
    forall b | b in owned'
      ensures HasOwner(caches', b, owned'[b])
    {
      if b == s.mapAt || b == s.self {
        NewOwner(caches', b, owned'[b], c, k, s);
      } else {
        OwnerStays(caches, caches', b, owned[b]);
      }
    }
  }

  lemma NewOwner(caches: seq<Cache>, b: nat, tag: Tag, c: nat, k: nat, s: Slab)
    requires FIRST_LARGE <= c < CLASSES && k > 0 && At(caches, c, k) && SameStructs(caches[c].ring[k], s)
    requires tag.page == s.page && b == if tag.isMap then s.mapAt else s.self
    ensures HasOwner(caches, b, tag)
  {
    assert OwnerAt(caches, b, tag, c, k);
  }

  /** A release that changed no large class. */
  lemma NoLeakSameLarge(caches: seq<Cache>, caches': seq<Cache>, owned: map<nat, Tag>)
    requires NoLeak(caches, owned) && |caches'| == |caches| == CLASSES
    requires forall c :: FIRST_LARGE <= c < CLASSES ==> caches'[c] == caches[c]
    ensures NoLeak(caches', owned)
  {
    forall b | b in owned
      ensures HasOwner(caches', b, owned[b])
    {
      var c: nat, k: nat :| OwnerAt(caches, b, owned[b], c, k);
      assert OwnerAt(caches', b, owned[b], c, k);
    }
  }

  /** A release that removed slab `k` of large class `c`, whose header and map are owned no more. */
  lemma NoLeakShrinks(caches: seq<Cache>, caches': seq<Cache>, owned: map<nat, Tag>, c: nat, k: nat)
    requires NoLeak(caches, owned) && |caches'| == |caches| == CLASSES && FIRST_LARGE <= c < CLASSES
    requires k > 0 && At(caches, c, k) && |caches'[c].ring| == |caches[c].ring| - 1
    requires forall l :: 0 <= l < k ==> caches'[c].ring[l] == caches[c].ring[l]
    requires forall l :: k < l < |caches[c].ring| ==> caches'[c].ring[l - 1] == caches[c].ring[l]
    requires forall d :: FIRST_LARGE <= d < CLASSES && d != c ==> caches'[d] == caches[d]
    ensures NoLeak(caches', owned - {caches[c].ring[k].self, caches[c].ring[k].mapAt})
  {
    var s := caches[c].ring[k];
    var owned' := owned - {s.self, s.mapAt};
    forall b | b in owned'
      ensures HasOwner(caches', b, owned'[b])
    {
      var d: nat, l: nat :| OwnerAt(caches, b, owned[b], d, l);
      assert d == c ==> l != k;
      assert OwnerAt(caches', b, owned'[b], d, if d == c && l > k then l - 1 else l);
    }
  }

  // ---- the first slabs ----

  /** Frame `f` holds a byte of `[a, a + n)`. */
  predicate InRange(f: nat, a: nat, n: nat) {
    a / FRAME_BYTES <= f && f * FRAME_BYTES < a + n
  }

  /** The bytes `[a, a + n)` lie in frames that are in use and are no slab's. */
  ghost predicate OutsideSlabs(caches: seq<Cache>, words: seq<Word>, a: nat, n: nat) {
    forall f: nat :: InRange(f, a, n) ==> InKernel(caches, words, f)
  }

  ghost predicate InKernel(caches: seq<Cache>, words: seq<Word>, f: nat) {
    f < 64 * |words| && Bit(words, f) && !HasPage(caches, f)
  }

  ghost predicate FirstsApart(caches: seq<Cache>, words: seq<Word>) {
    forall c: nat :: At(caches, c, 0) ==>
      && OutsideSlabs(caches, words, caches[c].ring[0].self, SLAB_BYTES)
      && OutsideSlabs(caches, words, caches[c].ring[0].mapAt, caches[c].ring[0].colorLength)
  }

  lemma StillInKernel(caches: seq<Cache>, words: seq<Word>, caches': seq<Cache>, words': seq<Word>)
    requires FirstsApart(caches, words) && FirstsStay(caches, caches') && |caches'| == |caches|
    requires forall c: nat :: At(caches', c, 0) ==> At(caches, c, 0)
    requires forall f: nat :: InKernel(caches, words, f) ==> InKernel(caches', words', f)
    ensures FirstsApart(caches', words')
  {
    hide InKernel;
    forall c: nat | At(caches', c, 0)
      ensures OutsideSlabs(caches', words', caches'[c].ring[0].self, SLAB_BYTES)
      ensures OutsideSlabs(caches', words', caches'[c].ring[0].mapAt, caches'[c].ring[0].colorLength)
    {
      assert SameStructs(caches[c].ring[0], caches'[c].ring[0]);
      assert OutsideSlabs(caches, words, caches[c].ring[0].self, SLAB_BYTES);
    }
  }

  lemma KernelAfterGrowth(caches: seq<Cache>, words: seq<Word>, zones: seq<Zone>, pages: seq<Page>,
                          caches': seq<Cache>, words': seq<Word>, zones': seq<Zone>, pages': seq<Page>)
    requires Evolved(caches, words, zones, pages, caches', words', zones', pages')
    ensures forall f: nat :: InKernel(caches, words, f) ==> InKernel(caches', words', f)
  {
    hide HasPage, Bit, SameOwners, StructsStay;
  }

  lemma KernelAfterRelease(caches: seq<Cache>, words: seq<Word>, zones: seq<Zone>, pages: seq<Page>,
                           caches': seq<Cache>, words': seq<Word>, zones': seq<Zone>, pages': seq<Page>)
    requires Shrunk(caches, words, zones, pages, caches', words', zones', pages')
    ensures forall f: nat :: InKernel(caches, words, f) ==> InKernel(caches', words', f)
  {
    hide HasPage, Bit, SameOwners, FirstsStay;
  }

  lemma GrowthKeepsFirsts(caches: seq<Cache>, words: seq<Word>, zones: seq<Zone>, pages: seq<Page>,
                          caches': seq<Cache>, words': seq<Word>, zones': seq<Zone>, pages': seq<Page>)
    requires Evolved(caches, words, zones, pages, caches', words', zones', pages') && FirstsApart(caches, words)
    requires forall c: nat :: c < |caches| ==> |caches[c].ring| > 0
    ensures FirstsApart(caches', words')
  {
    hide FirstsApart, InKernel, FirstsStay;
    KernelAfterGrowth(caches, words, zones, pages, caches', words', zones', pages');
    StayingFirsts(caches, caches');
    StillInKernel(caches, words, caches', words');
  }

  lemma ReleaseKeepsFirsts(caches: seq<Cache>, words: seq<Word>, zones: seq<Zone>, pages: seq<Page>,
                           caches': seq<Cache>, words': seq<Word>, zones': seq<Zone>, pages': seq<Page>)
    requires Shrunk(caches, words, zones, pages, caches', words', zones', pages') && FirstsApart(caches, words)
    requires forall c: nat :: c < |caches| ==> |caches[c].ring| > 0
    ensures FirstsApart(caches', words')
  {
    hide FirstsApart, InKernel;
    KernelAfterRelease(caches, words, zones, pages, caches', words', zones', pages');
    StillInKernel(caches, words, caches', words');
  }

  /** The bytes `[a, a + n)` lie in frames that are in use and are none of `pages`. */
  ghost predicate BehindKernel(words: seq<Word>, pages: seq<nat>, a: nat, n: nat) {
    forall f: nat :: InRange(f, a, n) ==> f < 64 * |words| && Bit(words, f) && f !in pages
  }

  /** What `slab_init` has arranged. */
  lemma FirstCachesSettled(selfs: seq<nat>, maps: seq<nat>, pages: seq<nat>, words: seq<Word>)
    requires |selfs| == |maps| == |pages| == CLASSES
    requires forall c: nat :: c < CLASSES ==>
               && BehindKernel(words, pages, selfs[c], SLAB_BYTES)
               && BehindKernel(words, pages, maps[c], 8 * Words64(Capacity(c, false)))
    ensures NoLeak(FirstCaches(selfs, maps, pages), map[]) && FirstsApart(FirstCaches(selfs, maps, pages), words)
  {
    hide Bit, Capacity;
    var caches := FirstCaches(selfs, maps, pages);
    forall f: nat | f < 64 * |words| && Bit(words, f) && f !in pages
      ensures InKernel(caches, words, f)
    {
    }
    forall c: nat | At(caches, c, 0)
      ensures OutsideSlabs(caches, words, caches[c].ring[0].self, SLAB_BYTES)
      ensures OutsideSlabs(caches, words, caches[c].ring[0].mapAt, caches[c].ring[0].colorLength)
    {
      assert BehindKernel(words, pages, selfs[c], SLAB_BYTES);
    }
  }
}
