/** Each change that the allocator makes to its caches keeps the heap well formed. */
module SlabLaws {
  import opened Words
  import opened Frames
  import opened Slabs

  /** Live in a slab other than slab `k` of class `c`. */
  ghost predicate LiveElsewhere(caches: seq<Cache>, c: nat, k: nat, c': nat, a: nat) {
    c' < |caches| && c' < CLASSES &&
    exists k': nat :: At(caches, c', k') && (c' != c || k' != k) && Holds(c', caches[c'].ring[k'], a)
  }

  /** The caches differ in slab `k` of class `c` alone, whose frame stays the same. */
  ghost predicate Replaced(caches: seq<Cache>, caches': seq<Cache>, c: nat, k: nat, s': Slab) {
    && |caches| == |caches'| == CLASSES && At(caches, c, k)
    && caches' == caches[c := caches'[c]]
    && caches'[c].ring == caches[c].ring[k := s']
    && s'.page == caches[c].ring[k].page
  }

  lemma ReplacedAt(caches: seq<Cache>, caches': seq<Cache>, c: nat, k: nat, s': Slab, c': nat, k': nat)
    requires Replaced(caches, caches', c, k, s')
    ensures At(caches, c', k') <==> At(caches', c', k')
    ensures At(caches, c', k') ==>
              && caches'[c'].ring[k'] == (if c' == c && k' == k then s' else caches[c'].ring[k'])
              && caches'[c'].ring[k'].page == caches[c'].ring[k'].page
  {
  }

  lemma ReplacedPages(caches: seq<Cache>, caches': seq<Cache>, c: nat, k: nat, s': Slab)
    requires Replaced(caches, caches', c, k, s')
    ensures PagesDistinct(caches) ==> PagesDistinct(caches')
    ensures forall p: nat :: HasPage(caches', p) <==> HasPage(caches, p)
  {
    forall c': nat, k': nat
      ensures At(caches, c', k') <==> At(caches', c', k')
      ensures At(caches, c', k') ==> caches'[c'].ring[k'].page == caches[c'].ring[k'].page
    {
      ReplacedAt(caches, caches', c, k, s', c', k');
    }
  }

  lemma LiveSplits(caches: seq<Cache>, c: nat, k: nat, c': nat, a: nat)
    requires CachesOk(caches) && At(caches, c, k)
    ensures Live(caches, c', a) <==> (c' == c && Holds(c, caches[c].ring[k], a)) || LiveElsewhere(caches, c, k, c', a)
    ensures LiveElsewhere(caches, c, k, c', a) ==> a / FRAME_BYTES != caches[c].ring[k].page
  {
    if LiveElsewhere(caches, c, k, c', a) {
      var k': nat :| At(caches, c', k') && (c' != c || k' != k) && Holds(c', caches[c'].ring[k'], a);
      LiveFrame(caches, c', k', a);
    }
  }

  lemma LiveFrame(caches: seq<Cache>, c: nat, k: nat, a: nat)
    requires CachesOk(caches) && At(caches, c, k) && Holds(c, caches[c].ring[k], a)
    ensures a / FRAME_BYTES == caches[c].ring[k].page
  {
    hide SlabCounts, PagesDistinct;
    assert CacheOk(c, caches[c]);
    var j: nat :| HoldsAt(c, caches[c].ring[k], a, j);
    BlockInFrame(c, k, caches[c].ring[k], j);
  }

  lemma LiveAfterReplace(caches: seq<Cache>, caches': seq<Cache>, c: nat, k: nat, s': Slab, c': nat, a: nat)
    requires Replaced(caches, caches', c, k, s')
    ensures Live(caches', c', a) <==> (c' == c && Holds(c, s', a)) || LiveElsewhere(caches, c, k, c', a)
  {
    hide Holds;
    forall k': nat
      ensures At(caches, c', k') <==> At(caches', c', k')
      ensures At(caches, c', k') ==>
                caches'[c'].ring[k'] == (if c' == c && k' == k then s' else caches[c'].ring[k'])
    {
      ReplacedAt(caches, caches', c, k, s', c', k');
    }
    if c' == c && Holds(c, s', a) {
      assert At(caches', c, k) && caches'[c].ring[k] == s';
    }
  }

  lemma CachesOkAfterReplace(caches: seq<Cache>, caches': seq<Cache>, c: nat, k: nat, s': Slab)
    requires CachesOk(caches) && Replaced(caches, caches', c, k, s')
    requires SlabOk(c, k, s') && SlabCounts(s')
    requires var s := caches[c].ring[k];
             && caches'[c].size == caches[c].size
             && caches'[c].totalFree == caches[c].totalFree - s.freeCount + s'.freeCount
             && caches'[c].totalUsing == caches[c].totalUsing - s.usingCount + s'.usingCount
    ensures CachesOk(caches')
  {
    hide SlabOk, SlabCounts, PagesDistinct;
    ReplacedPages(caches, caches', c, k, s');
    SumsAfterUpdate(caches[c].ring, k, s');
    assert CacheOk(c, caches[c]);
    assert CacheOk(c, caches'[c]);
  }

  lemma OwnershipAfterReplace(caches: seq<Cache>, caches': seq<Cache>, c: nat, k: nat, s': Slab, owned: map<nat, Tag>)
    requires Replaced(caches, caches', c, k, s') && StructsOwned(caches, owned)
    requires s'.self == caches[c].ring[k].self && s'.mapAt == caches[c].ring[k].mapAt
    ensures StructsOwned(caches', owned)
  {
    forall c': nat, k': nat | FIRST_LARGE <= c' < CLASSES && k' > 0 && At(caches', c', k')
      ensures OwnsStructs(c', caches'[c'].ring[k'], owned)
    {
      ReplacedAt(caches, caches', c, k, s', c', k');
      assert OwnsStructs(c', caches[c'].ring[k'], owned);
    }
  }

  lemma SlabFacts(caches: seq<Cache>, c: nat, k: nat)
    requires CachesOk(caches) && At(caches, c, k)
    ensures |caches| == CLASSES && SlabOk(c, k, caches[c].ring[k]) && SlabCounts(caches[c].ring[k])
    ensures caches[c].size == Size(c)
    ensures caches[c].ring[k].freeCount <= caches[c].totalFree && caches[c].ring[k].usingCount <= caches[c].totalUsing
  {
    hide SlabOk, SlabCounts, PagesDistinct;
    assert CacheOk(c, caches[c]);
    SumsAfterRemove(caches[c].ring, k);
  }

  lemma TakeReplaces(caches: seq<Cache>, c: nat, k: nat, j: nat)
    requires |caches| == CLASSES && At(caches, c, k) && caches[c].totalFree > 0 && caches[c].ring[k].freeCount > 0
    requires j < 64 * |caches[c].ring[k].colorMap|
    ensures Replaced(caches, TakeBlock(caches, c, k, j), c, k, TakeColor(caches[c].ring[k], j))
  {
  }

  lemma DropReplaces(caches: seq<Cache>, c: nat, k: nat, j: nat)
    requires |caches| == CLASSES && At(caches, c, k) && caches[c].totalUsing > 0 && caches[c].ring[k].usingCount > 0
    requires j < 64 * |caches[c].ring[k].colorMap|
    ensures Replaced(caches, DropBlock(caches, c, k, j), c, k, DropColor(caches[c].ring[k], j))
  {
  }

  /** Handing out block `j` of slab `k` keeps the caches and adds exactly that block. */
  lemma TakeKeepsCaches(caches: seq<Cache>, owned: map<nat, Tag>, c: nat, k: nat, j: nat)
      returns (caches': seq<Cache>, a: nat)
    requires CachesOk(caches) && StructsOwned(caches, owned) && c < CLASSES && At(caches, c, k)
    requires j < caches[c].ring[k].colorCount && j < 64 * |caches[c].ring[k].colorMap|
    requires !Bit(caches[c].ring[k].colorMap, j)
    ensures caches[c].ring[k].freeCount > 0 && caches[c].totalFree > 0 && caches' == TakeBlock(caches, c, k, j)
    ensures a == caches[c].ring[k].vaddress + Size(c) * j
    ensures CachesOk(caches') && StructsOwned(caches', owned)
    ensures forall p: nat :: HasPage(caches', p) <==> HasPage(caches, p)
    ensures forall c': nat :: !Live(caches, c', a)
    ensures forall c': nat, a': nat :: Live(caches', c', a') <==> Live(caches, c', a') || (c' == c && a' == a)
  {
    hide SlabOk, SlabCounts, PagesDistinct, CacheOk, HoldsAt, Holds, LiveElsewhere, Live, CachesOk, Size,
         StructsOwned, Replaced, HasPage;
    var s := caches[c].ring[k];
    a := s.vaddress + Size(c) * j;
    SlabFacts(caches, c, k);
    TakeColorLaw(c, s, j);
    var s' := TakeColor(s, j);
    caches' := TakeBlock(caches, c, k, j);
    TakeReplaces(caches, c, k, j);
    TakeColorKeepsShape(c, k, s, j);
    CachesOkAfterReplace(caches, caches', c, k, s');
    OwnershipAfterReplace(caches, caches', c, k, s', owned);
    ReplacedPages(caches, caches', c, k, s');
    BlockInFrame(c, k, s, j);
    ClearIsNotHeld(c, s, a, j);
    forall c': nat, a': nat
      ensures Live(caches', c', a') <==> Live(caches, c', a') || (c' == c && a' == a)
      ensures Live(caches, c', a') ==> a' != a
    {
      LiveSplits(caches, c, k, c', a');
      LiveAfterReplace(caches, caches', c, k, s', c', a');
      TakeColorHolds(c, s, j, a');
    }
  }

  /** Releasing block `j` of slab `k` keeps the caches and removes exactly that block. */
  lemma DropKeepsCaches(caches: seq<Cache>, owned: map<nat, Tag>, c: nat, k: nat, j: nat)
      returns (caches': seq<Cache>, a: nat)
    requires CachesOk(caches) && StructsOwned(caches, owned) && c < CLASSES && At(caches, c, k)
    requires j < caches[c].ring[k].colorCount && j < 64 * |caches[c].ring[k].colorMap|
    requires Bit(caches[c].ring[k].colorMap, j)
    ensures caches[c].ring[k].usingCount > 0 && caches[c].totalUsing > 0 && caches' == DropBlock(caches, c, k, j)
    ensures a == caches[c].ring[k].vaddress + Size(c) * j
    ensures CachesOk(caches') && StructsOwned(caches', owned)
    ensures forall p: nat :: HasPage(caches', p) <==> HasPage(caches, p)
    ensures forall c': nat, a': nat :: Live(caches', c', a') <==> Live(caches, c', a') && !(c' == c && a' == a)
  {
    hide SlabOk, SlabCounts, PagesDistinct, CacheOk, HoldsAt, Holds, LiveElsewhere, Live, CachesOk, Size,
         StructsOwned, Replaced, HasPage;
    var s := caches[c].ring[k];
    a := s.vaddress + Size(c) * j;
    SlabFacts(caches, c, k);
    DropColorLaw(c, s, j);
    var s' := DropColor(s, j);
    caches' := DropBlock(caches, c, k, j);
    DropReplaces(caches, c, k, j);
    DropColorKeepsShape(c, k, s, j);
    CachesOkAfterReplace(caches, caches', c, k, s');
    OwnershipAfterReplace(caches, caches', c, k, s', owned);
    ReplacedPages(caches, caches', c, k, s');
    BlockInFrame(c, k, s, j);
    forall c': nat, a': nat
      ensures Live(caches', c', a') <==> Live(caches, c', a') && !(c' == c && a' == a)
    {
      LiveSplits(caches, c, k, c', a');
      LiveAfterReplace(caches, caches', c, k, s', c', a');
      DropColorHolds(c, s, j, a');
    }
  }

  lemma NotLiveNotUsed(caches: seq<Cache>, user: map<nat, nat>, owned: map<nat, Tag>, a: nat)
    requires BlocksAgree(caches, user, owned) && forall c: nat :: !Live(caches, c, a)
    ensures a !in user && a !in owned
  {
    hide Live;
    assert a in user ==> Entry(user, owned, user[a], a);
    assert a in owned ==> Entry(user, owned, owned[a].cls, a);
  }

  /** Handing out a block to a caller: the address is new, and nothing else changes hands. */
  lemma TakeKeepsHeap(caches: seq<Cache>, user: map<nat, nat>, owned: map<nat, Tag>, c: nat, k: nat, j: nat)
      returns (caches': seq<Cache>, a: nat)
    requires HeapOk(caches, user, owned) && c < CLASSES && At(caches, c, k)
    requires j < caches[c].ring[k].colorCount && j < 64 * |caches[c].ring[k].colorMap|
    requires !Bit(caches[c].ring[k].colorMap, j)
    ensures caches[c].ring[k].freeCount > 0 && caches[c].totalFree > 0 && caches' == TakeBlock(caches, c, k, j)
    ensures a == caches[c].ring[k].vaddress + Size(c) * j && a !in user && a !in owned
    ensures HeapOk(caches', user[a := c], owned)
    ensures forall p: nat :: HasPage(caches', p) <==> HasPage(caches, p)
  {
    hide CachesOk, StructsOwned, Live, HasPage, Size, TakeBlock;
    caches', a := TakeKeepsCaches(caches, owned, c, k, j);
    NotLiveNotUsed(caches, user, owned, a);
  }

  /** Taking a block back from a caller. */
  lemma DropKeepsHeap(caches: seq<Cache>, user: map<nat, nat>, owned: map<nat, Tag>, c: nat, k: nat, j: nat)
      returns (caches': seq<Cache>, a: nat)
    requires HeapOk(caches, user, owned) && c < CLASSES && At(caches, c, k)
    requires j < caches[c].ring[k].colorCount && j < 64 * |caches[c].ring[k].colorMap|
    requires Bit(caches[c].ring[k].colorMap, j)
    requires var a := caches[c].ring[k].vaddress + Size(c) * j; a in user && user[a] == c
    ensures caches[c].ring[k].usingCount > 0 && caches[c].totalUsing > 0 && caches' == DropBlock(caches, c, k, j)
    ensures a == caches[c].ring[k].vaddress + Size(c) * j
    ensures HeapOk(caches', user - {a}, owned)
    ensures forall p: nat :: HasPage(caches', p) <==> HasPage(caches, p)
  {
    hide CachesOk, StructsOwned, Live, HasPage, Size, DropBlock;
    caches', a := DropKeepsCaches(caches, owned, c, k, j);
  }

  lemma TakeColorKeepsShape(c: nat, k: nat, s: Slab, j: nat)
    requires c < CLASSES && SlabOk(c, k, s) && j < 64 * |s.colorMap| && s.freeCount > 0
    ensures SlabOk(c, k, TakeColor(s, j))
  {
  }

  lemma DropColorKeepsShape(c: nat, k: nat, s: Slab, j: nat)
    requires c < CLASSES && SlabOk(c, k, s) && j < 64 * |s.colorMap| && s.usingCount > 0
    ensures SlabOk(c, k, DropColor(s, j))
  {
  }

  lemma ClearIsNotHeld(c: nat, s: Slab, a: nat, j: nat)
    requires c < CLASSES && j < s.colorCount <= 64 * |s.colorMap|
    requires !Bit(s.colorMap, j) && a == s.vaddress + Size(c) * j
    ensures !Holds(c, s, a)
  {
    forall i: nat
      ensures !HoldsAt(c, s, a, i)
    {
      if HoldsAt(c, s, a, i) {
        SameBlock(c, s, i, j);
      }
    }
  }

  lemma SameBlock(c: nat, s: Slab, i: nat, j: nat)
    requires c < CLASSES && s.vaddress + Size(c) * i == s.vaddress + Size(c) * j
    ensures i == j
  {
    if i < j {
      BlocksApart(c, i, j);
    } else if j < i {
      BlocksApart(c, j, i);
    }
  }

  lemma TakeColorHolds(c: nat, s: Slab, j: nat, a: nat)
    requires c < CLASSES && SlabCounts(s) && j < s.colorCount && j < 64 * |s.colorMap| && !Bit(s.colorMap, j)
             && s.freeCount > 0
    ensures Holds(c, TakeColor(s, j), a) <==> Holds(c, s, a) || a == s.vaddress + Size(c) * j
  {
    hide SlabCounts, HoldsAt, Size, TakeColor;
    TakeColorLaw(c, s, j);
    if Holds(c, s, a) {
      var i: nat :| HoldsAt(c, s, a, i);
      assert HoldsAt(c, TakeColor(s, j), a, i);
    } else if a == s.vaddress + Size(c) * j {
      assert HoldsAt(c, TakeColor(s, j), a, j);
    }
  }

  lemma DropColorHolds(c: nat, s: Slab, j: nat, a: nat)
    requires c < CLASSES && SlabCounts(s) && j < s.colorCount && j < 64 * |s.colorMap| && Bit(s.colorMap, j)
             && s.usingCount > 0
    ensures Holds(c, DropColor(s, j), a) <==> Holds(c, s, a) && a != s.vaddress + Size(c) * j
  {
    hide SlabCounts, HoldsAt, Size, DropColor;
    DropColorLaw(c, s, j);
    if Holds(c, DropColor(s, j), a) {
      var i: nat :| HoldsAt(c, DropColor(s, j), a, i);
      assert HoldsAt(c, s, a, i);
      HeldAddress(c, s, a, i);
      if a == s.vaddress + Size(c) * j {
        SameBlock(c, s, i, j);
      }
    } else if Holds(c, s, a) {
      var i: nat :| HoldsAt(c, s, a, i);
      HeldAddress(c, s, a, i);
      assert i == j;
    }
  }

  lemma HeldAddress(c: nat, s: Slab, a: nat, j: nat)
    requires c < CLASSES && HoldsAt(c, s, a, j)
    ensures a == s.vaddress + Size(c) * j
  {
  }

  /** A block that a caller holds becomes the header or the map of slab frame `page`. */
  lemma AdoptKeepsHeap(caches: seq<Cache>, user: map<nat, nat>, owned: map<nat, Tag>, a: nat, tag: Tag)
    requires HeapOk(caches, user, owned) && a in user && user[a] == tag.cls
    ensures HeapOk(caches, user - {a}, owned[a := tag])
  {
    hide CachesOk, Live, OwnsStructs;
    forall c: nat, k: nat | FIRST_LARGE <= c < CLASSES && k > 0 && At(caches, c, k)
      ensures OwnsStructs(c, caches[c].ring[k], owned[a := tag])
    {
      StillOwned(c, caches[c].ring[k], owned, a, tag);
    }
  }

  lemma StillOwned(c: nat, s: Slab, owned: map<nat, Tag>, a: nat, tag: Tag)
    requires c < CLASSES && OwnsStructs(c, s, owned) && a !in owned
    ensures OwnsStructs(c, s, owned[a := tag])
  {
  }

  /** A slab with all colours clear and a frame of its own joins the ring of its class. */
  ghost predicate Joinable(caches: seq<Cache>, owned: map<nat, Tag>, c: nat, s: Slab)
    requires c < CLASSES
  {
    && SlabOk(c, 1, s) && SlabCounts(s) && s.usingCount == 0 && !HasPage(caches, s.page)
    && (c >= FIRST_LARGE ==> OwnsStructs(c, s, owned))
  }

  lemma UnusedSlabHoldsNothing(c: nat, s: Slab)
    requires c < CLASSES && SlabCounts(s) && s.usingCount == 0
    ensures forall a: nat :: !Holds(c, s, a)
  {
    forall a: nat, j: nat
      ensures !HoldsAt(c, s, a, j)
    {
      if HoldsAt(c, s, a, j) {
        SlabInUse(s, j);
      }
    }
  }

  lemma AppendedAt(caches: seq<Cache>, c: nat, s: Slab, c': nat, k': nat)
    requires c < |caches|
    ensures At(AppendSlab(caches, c, s), c', k') <==> At(caches, c', k') || (c' == c && k' == |caches[c].ring|)
    ensures At(AppendSlab(caches, c, s), c', k') ==>
              AppendSlab(caches, c, s)[c'].ring[k'] == if c' == c
                && k' == |caches[c].ring| then s else caches[c'].ring[k']
  {
  }

  lemma AppendKeepsPages(caches: seq<Cache>, c: nat, s: Slab)
    requires c < |caches| && PagesDistinct(caches) && !HasPage(caches, s.page)
    ensures PagesDistinct(AppendSlab(caches, c, s))
    ensures forall p: nat :: HasPage(AppendSlab(caches, c, s), p) <==> HasPage(caches, p) || p == s.page
  {
    hide AppendSlab;
    var caches' := AppendSlab(caches, c, s);
    forall c': nat, k': nat
      ensures At(caches', c', k') <==> At(caches, c', k') || (c' == c && k' == |caches[c].ring|)
      ensures At(caches', c', k') ==>
                caches'[c'].ring[k'] == if c' == c && k' == |caches[c].ring| then s else caches[c'].ring[k']
    {
      AppendedAt(caches, c, s, c', k');
    }
    assert At(caches', c, |caches[c].ring|);
    assert forall p: nat :: HasPage(caches, p) ==> HasPage(caches', p) by {
      forall p: nat | HasPage(caches, p)
        ensures HasPage(caches', p)
      {
        var c': nat, k': nat :| At(caches, c', k') && caches[c'].ring[k'].page == p;
        assert At(caches', c', k') && caches'[c'].ring[k'].page == p;
      }
    }
  }

  lemma AppendKeepsHeap(caches: seq<Cache>, user: map<nat, nat>, owned: map<nat, Tag>, c: nat, s: Slab)
      returns (caches': seq<Cache>)
    requires HeapOk(caches, user, owned) && c < CLASSES && Joinable(caches, owned, c, s)
    ensures caches' == AppendSlab(caches, c, s) && HeapOk(caches', user, owned)
    ensures forall p: nat :: HasPage(caches', p) <==> HasPage(caches, p) || p == s.page
  {
    hide SlabCounts, PagesDistinct, HasPage, Holds, OwnsStructs, AppendSlab;
    caches' := AppendSlab(caches, c, s);
    AppendKeepsPages(caches, c, s);
    AppendKeepsCache(caches, c, s);
    UnusedSlabHoldsNothing(c, s);
    AppendIsElsewhereTheSame(caches, c, s);
    forall c': nat, a: nat
      ensures Live(caches', c', a) <==> Live(caches, c', a)
    {
      forall k': nat
        ensures At(caches', c', k') <==> At(caches, c', k') || (c' == c && k' == |caches[c].ring|)
        ensures At(caches', c', k') ==>
                  caches'[c'].ring[k'] == if c' == c && k' == |caches[c].ring| then s else caches[c'].ring[k']
      {
        AppendedAt(caches, c, s, c', k');
      }
    }
    forall c': nat, k': nat | FIRST_LARGE <= c' < CLASSES && k' > 0 && At(caches', c', k')
      ensures OwnsStructs(c', caches'[c'].ring[k'], owned)
    {
      AppendedAt(caches, c, s, c', k');
    }
  }

  lemma AppendIsElsewhereTheSame(caches: seq<Cache>, c: nat, s: Slab)
    requires c < |caches|
    ensures |AppendSlab(caches, c, s)| == |caches|
    ensures forall c' :: 0 <= c' < |caches| && c' != c ==> AppendSlab(caches, c, s)[c'] == caches[c']
  {
  }

  lemma AppendKeepsCache(caches: seq<Cache>, c: nat, s: Slab)
    requires c < |caches| && c < CLASSES && CacheOk(c, caches[c])
    requires SlabOk(c, 1, s) && SlabCounts(s) && s.usingCount == 0
    ensures |AppendSlab(caches, c, s)| == |caches| && CacheOk(c, AppendSlab(caches, c, s)[c])
  {
    hide SlabCounts;
    SumsAfterAppend(caches[c].ring, s);
    FreeWhenUnused(s);
  }

  lemma FreeWhenUnused(s: Slab)
    requires SlabCounts(s) && s.usingCount == 0
    ensures s.freeCount == s.colorCount
  {
  }

  // ---- unlinking a slab ----

  lemma RemovedAt(caches: seq<Cache>, c: nat, k: nat, c': nat, k': nat)
    requires c < |caches| && k < |caches[c].ring| && caches[c].totalFree >= caches[c].ring[k].colorCount
    ensures var from := if c' == c && k' >= k then k' + 1 else k';
            && (At(RemoveSlab(caches, c, k), c', k') <==> At(caches, c', from))
            && (At(caches, c', from) ==> RemoveSlab(caches, c, k)[c'].ring[k'] == caches[c'].ring[from])
  {
  }

  /** Slab `k'` of class `c'` where it was before slab `k` of class `c` left. */
  function From(c: nat, k: nat, c': nat, k': nat): nat {
    if c' == c && k' >= k then k' + 1 else k'
  }

  lemma RemoveKeepsPages(caches: seq<Cache>, c: nat, k: nat) returns (caches': seq<Cache>)
    requires CachesOk(caches) && At(caches, c, k) && caches[c].totalFree >= caches[c].ring[k].colorCount
    ensures caches' == RemoveSlab(caches, c, k) && PagesDistinct(caches')
    ensures forall p: nat :: HasPage(caches', p) <==> HasPage(caches, p) && p != caches[c].ring[k].page
  {
    hide RemoveSlab, CacheOk;
    caches' := RemoveSlab(caches, c, k);
    forall c': nat, k': nat
      ensures At(caches', c', k') <==> At(caches, c', From(c, k, c', k'))
      ensures At(caches', c', k') ==> caches'[c'].ring[k'] == caches[c'].ring[From(c, k, c', k')]
    {
      RemovedAt(caches, c, k, c', k');
    }
    forall p: nat
      ensures HasPage(caches', p) <==> HasPage(caches, p) && p != caches[c].ring[k].page
    {
      if HasPage(caches', p) {
        var c': nat, k': nat :| At(caches', c', k') && caches'[c'].ring[k'].page == p;
        assert At(caches, c', From(c, k, c', k'));
      }
      if HasPage(caches, p) && p != caches[c].ring[k].page {
        var c': nat, k': nat :| At(caches, c', k') && caches[c'].ring[k'].page == p;
        var to := if c' == c && k' > k then k' - 1 else k';
        assert From(c, k, c', to) == k' && At(caches', c', to);
      }
    }
  }

  lemma RemoveKeepsLive(caches: seq<Cache>, c: nat, k: nat, c': nat, a: nat)
    requires CachesOk(caches) && At(caches, c, k) && caches[c].totalFree >= caches[c].ring[k].colorCount
    requires !Holds(c, caches[c].ring[k], a)
    ensures Live(RemoveSlab(caches, c, k), c', a) <==> Live(caches, c', a)
  {
    hide RemoveSlab, CacheOk, Holds;
    var caches' := RemoveSlab(caches, c, k);
    forall k': nat
      ensures At(caches', c', k') <==> At(caches, c', From(c, k, c', k'))
      ensures At(caches', c', k') ==> caches'[c'].ring[k'] == caches[c'].ring[From(c, k, c', k')]
    {
      RemovedAt(caches, c, k, c', k');
    }
    RemovedLength(caches, c, k);
    if Live(caches, c', a) {
      var k': nat :| At(caches, c', k') && Holds(c', caches[c'].ring[k'], a);
      var to := if c' == c && k' > k then k' - 1 else k';
      assert From(c, k, c', to) == k' && At(caches', c', to);
    }
  }

  lemma RemovedLength(caches: seq<Cache>, c: nat, k: nat)
    requires c < |caches| && k < |caches[c].ring| && caches[c].totalFree >= caches[c].ring[k].colorCount
    ensures |RemoveSlab(caches, c, k)| == |caches|
    ensures forall c' :: 0 <= c' < |caches| && c' != c ==> RemoveSlab(caches, c, k)[c'] == caches[c']
  {
  }

  lemma RemoveKeepsCache(caches: seq<Cache>, c: nat, k: nat)
    requires c < |caches| && c < CLASSES && CacheOk(c, caches[c]) && 0 < k < |caches[c].ring|
    requires caches[c].ring[k].usingCount == 0
    ensures caches[c].totalFree >= caches[c].ring[k].colorCount
    ensures |RemoveSlab(caches, c, k)| == |caches| && CacheOk(c, RemoveSlab(caches, c, k)[c])
  {
    hide SlabCounts;
    SumsAfterRemove(caches[c].ring, k);
    FreeWhenUnused(caches[c].ring[k]);
  }

  /** An unused slab leaves its ring; for a large class its header and map stop being owned and
      are in the caller's hands, to be released. */
  lemma RemoveKeepsHeap(caches: seq<Cache>, user: map<nat, nat>, owned: map<nat, Tag>, c: nat, k: nat)
      returns (caches': seq<Cache>, user': map<nat, nat>, owned': map<nat, Tag>)
    requires HeapOk(caches, user, owned) && c < CLASSES && 0 < k && At(caches, c, k)
    requires caches[c].ring[k].usingCount == 0
    ensures caches[c].totalFree >= caches[c].ring[k].colorCount && caches' == RemoveSlab(caches, c, k)
    ensures c < FIRST_LARGE ==> user' == user && owned' == owned
    ensures c >= FIRST_LARGE ==>
              var s := caches[c].ring[k];
              && s.self in owned && s.mapAt in owned && s.self != s.mapAt
              && user' == user[s.self := 2][s.mapAt := ClassFor(MapBytes(c))]
              && owned' == owned - {s.self, s.mapAt}
    ensures HeapOk(caches', user', owned')
    ensures forall p: nat :: HasPage(caches', p) <==> HasPage(caches, p) && p != caches[c].ring[k].page
  {
    hide SlabCounts, SlabOk, HasPage, Holds, RemoveSlab, From, Size;
    var s := caches[c].ring[k];
    assert CacheOk(c, caches[c]);
    RemoveKeepsCache(caches, c, k);
    caches' := RemoveKeepsPages(caches, c, k);
    RemovedLength(caches, c, k);
    UnusedSlabHoldsNothing(c, s);
    forall c': nat, a: nat
      ensures Live(caches', c', a) <==> Live(caches, c', a)
    {
      RemoveKeepsLive(caches, c, k, c', a);
    }
    if c < FIRST_LARGE {
      user', owned' := user, owned;
    } else {
      assert OwnsStructs(c, s, owned);
      LargeLayout(c);
      user' := user[s.self := 2][s.mapAt := ClassFor(MapBytes(c))];
      owned' := owned - {s.self, s.mapAt};
    }
    forall c': nat, k': nat | FIRST_LARGE <= c' < CLASSES && k' > 0 && At(caches', c', k')
      ensures OwnsStructs(c', caches'[c'].ring[k'], owned')
    {
      RemovedAt(caches, c, k, c', k');
      var k'' := if c' == c && k' >= k then k' + 1 else k';
      assert OwnsStructs(c', caches[c'].ring[k''], owned);
      assert caches[c'].ring[k''].page != s.page;
    }
  }
}
