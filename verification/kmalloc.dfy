/** `kmalloc` and `kfree`: the sixteen caches on top of the page allocator. Large classes take the
    headers and colour maps of their slabs from the small ones, so both operations call themselves. */
module Kmalloc {
  import opened Options
  import opened Words
  import opened Frames
  import opened Slabs
  import opened SlabLaws
  import opened HeapFacts
  import opened Ownership

  /** The colour scan of `kmalloc`, which skips words that are all ones: the lowest clear colour. */
  method FirstClear(colorMap: seq<Word>, colorCount: nat) returns (color: Option<nat>)
    requires colorCount <= 64 * |colorMap|
    requires forall j: nat :: colorCount <= j < 64 * |colorMap| ==> Bit(colorMap, j)
    ensures color.None? ==> forall i: nat :: i < colorCount ==> Bit(colorMap, i)
    ensures color.Some? ==> color.value < colorCount && !Bit(colorMap, color.value)
    ensures color.Some? ==> forall i: nat :: i < color.value ==> Bit(colorMap, i)
  {
    var j := 0;
    while j < colorCount
      invariant j <= 64 * |colorMap|
      invariant j % 64 != 0 ==> colorMap[j / 64] != Ones()
      invariant forall i: nat :: i < j ==> Bit(colorMap, i)
    {
      if colorMap[j / 64] == Ones() {
        j := j + 63;
      } else if !colorMap[j / 64][j % 64] {
        return Some(j);
      }
      j := j + 1;
    }
    return None;
  }

  class KernelHeap {
    const frames: FrameAllocator
    var caches: seq<Cache>
    ghost var user: map<nat, nat>  // the class of every block that a caller holds, by address
    ghost var owned: map<nat, Tag>  // the blocks that hold headers and colour maps of slabs

    /** The state after `slab_init`, which has put the headers and maps of the first slabs behind the kernel,
        marked the frames that hold them, and then marked the frames of the first slabs. */
    constructor (allocator: FrameAllocator, selfs: seq<nat>, maps: seq<nat>, firstPages: seq<nat>)
      requires allocator.Valid() && |selfs| == |maps| == |firstPages| == CLASSES
      requires forall i, j :: 0 <= i < j < CLASSES ==> firstPages[i] != firstPages[j]
      requires forall p :: p in firstPages ==>
               InUse(allocator.bitsMap[..], allocator.zones[..], allocator.pages[..], p, 1)
      requires forall c: nat :: c < CLASSES ==>
                 && BehindKernel(allocator.bitsMap[..], firstPages, selfs[c], SLAB_BYTES)
                 && BehindKernel(allocator.bitsMap[..], firstPages, maps[c], 8 * Words64(Capacity(c, false)))
      ensures Valid() && Settled() && frames == allocator && caches == FirstCaches(selfs, maps, firstPages)
      ensures user == map[] && owned == map[]
    {
      hide HeapOk, HasPage, InUse, Tables, NoLeak, FirstsApart, BehindKernel, Capacity;
      FirstCachesOk(selfs, maps, firstPages);
      FirstCachesSettled(selfs, maps, firstPages, allocator.bitsMap[..]);
      frames, caches, user, owned := allocator, FirstCaches(selfs, maps, firstPages), map[], map[];
    }

    ghost predicate Valid()
      reads this, frames, frames.bitsMap, frames.zones, frames.pages
    {
      && frames.Valid()
      && HeapOk(caches, user, owned)
      && FramesHeld(caches, frames.bitsMap[..], frames.zones[..], frames.pages[..])
    }

    /** What holds between calls besides: no block is lost, and the first slabs' headers and maps are
        outside all slab frames. */
    ghost predicate Settled()
      reads this, frames, frames.bitsMap
    {
      NoLeak(caches, owned) && FirstsApart(caches, frames.bitsMap[..])
    }

    function FreeNormal(): nat
      reads frames, frames.bitsMap, frames.zones, frames.pages
      requires frames.zones.Length > 0
    {
      FreeIn(frames.zones[..], frames.Selection(Normal).0, frames.Selection(Normal).1)
    }

    /** No frame is free for a slab exactly when no zone from the DMA zone to the normal zone has one. */
    lemma NoneFree()
      requires frames.normalIndex < frames.zones.Length
      ensures FreeNormal() == 0 <==>
                forall i :: frames.dmaIndex <= i <= frames.normalIndex ==> frames.zones[i].freeCount == 0
    {
      NothingIn(frames.zones[..], frames.dmaIndex, frames.normalIndex + 1);
      assert forall i :: 0 <= i < frames.zones.Length ==> frames.zones[..][i] == frames.zones[i];
    }

    /** Frames in use stay in use, except perhaps frame `but`, and keep their owners. */
    twostate predicate FramesKept(but: int)
      reads frames, frames.bitsMap, frames.zones, frames.pages
    {
      && BitsGrew(old(frames.bitsMap[..]), frames.bitsMap[..], but)
      && SameOwners(old(frames.zones[..]), frames.zones[..], old(frames.pages[..]), frames.pages[..])
    }

    twostate predicate FramesSame()
      reads frames, frames.bitsMap, frames.zones, frames.pages
    {
      && frames.bitsMap[..] == old(frames.bitsMap[..])
      && frames.zones[..] == old(frames.zones[..])
      && frames.pages[..] == old(frames.pages[..])
    }

    /** `alloc_pages(ZONE_NORMAL, 1)` followed by `page_init`. */
    method TakeFrame() returns (page: Option<nat>)
      requires Valid()
      modifies frames.bitsMap, frames.zones, frames.pages
      ensures Valid() && FramesKept(-1)
      ensures PagesTaken(old(frames.bitsMap[..]), old(frames.pages[..]), frames.bitsMap[..], frames.pages[..])
      ensures page.None? ==> FramesSame() && FreeNormal() == 0
      ensures page.Some? ==>
                && page.value < frames.pages.Length
                && frames.pages[page.value].attribute == {PTableMaped, Kernel}
                && frames.pages[page.value].referenceCount ==
                   (if old(frames.pages[..])[page.value].referenceCount == 0 then 1
                    else old(frames.pages[..])[page.value].referenceCount)
      ensures page.Some? ==>
                && FreeNormal() == old(FreeNormal()) - 1
                && page.value < 64 * frames.bitsMap.Length
                && !old(frames.Used(page.value))
                && !HasPage(caches, page.value)
                && InUse(frames.bitsMap[..], frames.zones[..], frames.pages[..], page.value, 1)
    {
      hide Tables, HeapOk, HasPage, NoRunInZones, NoRunIn, Run, After, MoveFrames, InUse, FramesHeld, Owned,
           SameOwners, BitsGrew;
      ghost var words, zs, ps := frames.bitsMap[..], frames.zones[..], frames.pages[..];
      ghost var lo, hi := frames.Selection(Normal).0, frames.Selection(Normal).1;
      page := frames.AllocPages(Normal, 1);
      ghost var words', zs', ps' := frames.bitsMap[..], frames.zones[..], frames.pages[..];
      if page.None? {
        TablesParts(words, zs, ps);
        NoRunNoFree(words, zs, lo, hi);
        NothingMoved(words, zs, ps);
        NoPageMoved(words, ps);
        return;
      }
      ghost var i: nat :| IsFirstFit(words, zs, lo, hi, 1, i, page.value) && zs' == MoveFrames(zs, i, 1);
      OneFrameTaken(words, zs, ps, lo, hi, page.value, i, {PTableMaped}, words', zs', ps');
      FrameNotHeld(caches, words, zs, ps, page.value, words', zs', ps');
      OwnersAt(zs, ps, zs', ps', page.value);
      frames.PageInit(page.value, {Kernel});
      ghost var zs'', ps'' := frames.zones[..], frames.pages[..];
      FreeInFrame(zs', zs'', lo, hi);
      OwnersChain(zs, zs', zs'', ps, ps', ps'');
      FramesStayHeld(caches, words, zs, ps, caches, words', zs'', ps'', -1);
      assert {PTableMaped} + {Kernel} == {PTableMaped, Kernel};
      assert ps'' == ps[page.value := TakenPage(ps[page.value])];
      OnePageTaken(words, ps, page.value, words', ps'');
    }

    /** `page_clean` followed by `free_pages(page, 1)`. */
    method ReleaseFrame(p: nat)
      requires Valid() && !HasPage(caches, p)
      requires InUse(frames.bitsMap[..], frames.zones[..], frames.pages[..], p, 1)
      modifies frames.bitsMap, frames.zones, frames.pages
      ensures Valid() && FramesKept(p)
      ensures OnlyCleared(old(frames.bitsMap[..]), frames.bitsMap[..], p)
      ensures PagesReleased(old(frames.bitsMap[..]), old(frames.pages[..]), frames.bitsMap[..], frames.pages[..])
      ensures p < frames.pages.Length && frames.pages[p].attribute == {}
      ensures frames.pages[p].referenceCount == (old(frames.pages[..])[p].referenceCount + MACHINE - 1) % MACHINE
    {
      hide Tables, HeapOk, HasPage, After, InUse, FramesHeld, Owned, SameOwners, BitsGrew;
      ghost var words, zs, ps := frames.bitsMap[..], frames.zones[..], frames.pages[..];
      InUseAt(words, zs, ps, p, 1, p);
      frames.PageClean(p);
      ghost var zs', ps' := frames.zones[..], frames.pages[..];
      NothingMoved(words, zs, ps);
      StillInUse(words, zs, ps, words, zs', ps', p, -1);
      frames.FreePages(Some(p), 1);
      ghost var words'', zs'', ps'' := frames.bitsMap[..], frames.zones[..], frames.pages[..];
      OneFrameReleased(words, zs', ps', p, words'', zs'', ps'');
      OwnersChain(zs, zs', zs'', ps, ps', ps'');
      AllButOne(words, words'', p);
      FramesStayHeld(caches, words, zs, ps, caches, words'', zs'', ps'', p);
      assert ps'' == ps[p := ReleasedPage(ps[p])];
      OnePageReleased(words, ps, p, words'', ps'');
    }

    /** The ring walk of `kmalloc`: the first slab with a free block. */
    method FindFreeSlab(c: nat) returns (k: nat)
      requires c < |caches| && caches[c].totalFree == SumFree(caches[c].ring) && caches[c].totalFree != 0
      ensures k < |caches[c].ring| && caches[c].ring[k].freeCount != 0
      ensures forall i :: 0 <= i < k ==> caches[c].ring[i].freeCount == 0
    {
      var ring := caches[c].ring;
      SomeSlabFree(ring);
      k := 0;
      while ring[k].freeCount == 0
        invariant k < |ring|
        invariant forall i :: 0 <= i < k ==> ring[i].freeCount == 0
        decreases |ring| - k
      {
        k := k + 1;
      }
    }

    /** The loop that clears the colours of a new map after the `memset` with ones. */
    method FreshColors(count: nat) returns (map': seq<Word>)
      ensures map' == FreshMap(count)
    {
      map' := seq(Words64(count), _ => Ones());
      for i := 0 to count
        invariant |map'| == Words64(count)
        invariant forall j: nat :: j < 64 * |map'| ==> Bit(map', j) == (j >= i)
      {
        BitOperators(map'[i / 64], i % 64);
        ghost var before := map';
        assert Bit(map', i);
        map' := map'[i / 64 := Xor(map'[i / 64], Single(i % 64))];
        assert map' == WithBit(before, i, false);
        WithBitBits(before, i, false);
      }
      FreshMapBits(count);
      SameBits(map', FreshMap(count));
    }

    twostate predicate Grew()
      reads this, frames, frames.bitsMap, frames.zones, frames.pages
    {
      Evolved(old(caches), old(frames.bitsMap[..]), old(frames.zones[..]), old(frames.pages[..]),
              caches, frames.bitsMap[..], frames.zones[..], frames.pages[..])
    }

    /** Blocks that slabs own keep their owner; more may be owned. */
    twostate predicate OwnedGrew()
      reads this
    {
      forall b: nat :: b in old(owned) ==> b in owned && owned[b] == old(owned)[b]
    }

    /** The frames that the two nested requests for a slab of large class `c` take: one for each of their
        classes that has no block left when its turn comes. Headers come from class 2; a map of that class
        too finds no block if the header took the last one. */
    ghost function Needed(c: nat): nat
      reads this
      requires FIRST_LARGE <= c < CLASSES && |caches| == CLASSES
    {
      MapIsSmall(c);
      NeededFor(caches[2].totalFree, caches[ClassFor(MapBytes(c))].totalFree, ClassFor(MapBytes(c)))
    }

    /** When a request opens a slab of a large class, the page allocator must be able to serve it and the
        two nested requests, or not serve it at all: their results are not checked. */
    ghost predicate EnoughFrames(c: nat)
      reads this, frames, frames.bitsMap, frames.zones, frames.pages
      requires frames.zones.Length > 0 && |caches| == CLASSES
    {
      FIRST_LARGE <= c < CLASSES && caches[c].totalFree == 0 ==> FreeNormal() == 0 || FreeNormal() > Needed(c)
    }

    /** What a request to small class `c` that was served has done to the totals and the free frames. */
    twostate predicate BlockTaken(c: nat)
      reads this, frames, frames.bitsMap, frames.zones, frames.pages
      requires c < FIRST_LARGE && |old(caches)| == CLASSES && frames.zones.Length > 0
    {
      && |caches| == CLASSES
      && (forall d :: 0 <= d < CLASSES && d != c ==> caches[d].totalFree == old(caches)[d].totalFree)
      && (if old(caches)[c].totalFree > 0 then
            caches[c].totalFree == old(caches)[c].totalFree - 1 && FreeNormal() == old(FreeNormal())
          else
            caches[c].totalFree == Capacity(c, true) - 1 && FreeNormal() == old(FreeNormal()) - 1)
    }

    /** `kmalloc_create` for the block size of class `c`. */
    method KmallocCreate(size: nat, c: nat) returns (slab: Option<Slab>)
      requires Valid() && c < CLASSES && size == Size(c)
      requires |caches| == CLASSES && (c < FIRST_LARGE || FreeNormal() == 0 || FreeNormal() > Needed(c))
      modifies this, frames.bitsMap, frames.zones, frames.pages
      decreases c, 3
      ensures Valid() && Grew() && OwnedGrew() && user == old(user)
      ensures slab.None? <==> old(FreeNormal()) == 0
      ensures slab.None? ==> FramesSame() && unchanged(this)
      ensures slab.Some? ==>
                && Joinable(caches, owned, c, slab.value)
                && InUse(frames.bitsMap[..], frames.zones[..], frames.pages[..], slab.value.page, 1)
                && slab.value.page < 64 * frames.bitsMap.Length && !old(frames.Used(slab.value.page))
      ensures slab.Some? && c < FIRST_LARGE ==>
                unchanged(this) && FreeNormal() == old(FreeNormal()) - 1 && slab.value.colorCount == Capacity(c, true)
      ensures slab.Some? && c >= FIRST_LARGE ==>
                owned == old(owned)[slab.value.self := HeaderTag(slab.value)][slab.value.mapAt := MapTag(c, slab.value)]
    {
      hide Tables, HeapOk, HasPage, InUse, FramesHeld, SameOwners, BitsGrew, Size, Joinable, Owned, Evolved, Bit;
      ghost var caches0, words0, zs0, ps0 := caches, frames.bitsMap[..], frames.zones[..], frames.pages[..];
      var page := TakeFrame();
      ghost var words, zs, ps := frames.bitsMap[..], frames.zones[..], frames.pages[..];
      NothingStirred(caches);
      EvolvedParts(caches, words0, zs0, ps0, caches, words, zs, ps);
      if page.None? {
        return None;
      }
      if size <= 512 {
        SmallSizes(c);
        var s := CreateInPage(size, c, page.value);
        return Some(s);
      }
      LargeSizes(c);
      var s := CreateLarge(size, c, page.value);
      EvolvedChain(caches0, words0, zs0, ps0, caches0, words, zs, ps, caches, frames.bitsMap[..], frames.zones[..],
                   frames.pages[..]);
      return Some(s);
    }

    /** Header and map at the end of the frame. */
    method CreateInPage(size: nat, c: nat, p: nat) returns (s: Slab)
      requires Valid() && c < FIRST_LARGE && size == Size(c) && !HasPage(caches, p)
      ensures Joinable(caches, owned, c, s) && s.page == p && s.colorCount == Capacity(c, true)
    {
      var structSize := SLAB_BYTES + FRAME_BYTES / size / 8;
      var self := p * FRAME_BYTES + FRAME_BYTES - structSize;
      var count := (FRAME_BYTES - FRAME_BYTES / size / 8 - SLAB_BYTES) / size;
      var colors := FreshColors(count);
      s := Slab(self, self + SLAB_BYTES, p, 0, count, p * FRAME_BYTES, 8 * Words64(count), count, colors);
      NewSlabJoinable(caches, owned, c, s);
    }

    /** Header and map in blocks of smaller classes. */
    method CreateLarge(size: nat, c: nat, p: nat) returns (s: Slab)
      requires Valid() && FIRST_LARGE <= c < CLASSES && size == Size(c) && !HasPage(caches, p)
      requires InUse(frames.bitsMap[..], frames.zones[..], frames.pages[..], p, 1)
      requires |caches| == CLASSES && FreeNormal() >= Needed(c)
      requires ClassFor(SLAB_BYTES) == 2 && ClassFor(MapBytes(c)) < 4
      modifies this, frames.bitsMap, frames.zones, frames.pages
      decreases c, 2
      ensures Valid() && Grew() && OwnedGrew() && user == old(user)
      ensures Joinable(caches, owned, c, s) && s.page == p
      ensures owned == old(owned)[s.self := HeaderTag(s)][s.mapAt := MapTag(c, s)]
      ensures InUse(frames.bitsMap[..], frames.zones[..], frames.pages[..], p, 1)
    {
      hide Tables, HeapOk, HasPage, InUse, FramesHeld, SameOwners, BitsGrew, Size, Joinable, Owned, Evolved, Bit,
           FreshMap, ClassFor, Words64;
      var count := FRAME_BYTES / size;
      var length := 8 * Words64(count);
      var self, mapAt := TakeStructs(length, c, p);
      var colors := FreshColors(count);
      s := Slab(self.value, mapAt.value, p, 0, count, p * FRAME_BYTES, length, count, colors);
      NewSlabJoinable(caches, owned, c, s);
    }

    /** The two nested requests for a slab of class `c` on frame `p`, in the order of the source, which
        writes through the first result before it makes the second request. Both are served exactly when
        as many frames are free as they need. */
    method TakeStructs(length: nat, c: nat, p: nat) returns (self: Option<nat>, mapAt: Option<nat>)
      requires Valid() && FIRST_LARGE <= c < CLASSES && length == MapBytes(c) && |caches| == CLASSES
      requires ClassFor(SLAB_BYTES) == 2 && ClassFor(MapBytes(c)) < 4
      requires !HasPage(caches, p) && InUse(frames.bitsMap[..], frames.zones[..], frames.pages[..], p, 1)
      modifies this, frames.bitsMap, frames.zones, frames.pages
      decreases c, 1
      ensures Valid() && Grew() && OwnedGrew() && user == old(user)
      ensures self.Some? && mapAt.Some? <==> old(FreeNormal()) >= old(Needed(c))
      ensures !HasPage(caches, p) && InUse(frames.bitsMap[..], frames.zones[..], frames.pages[..], p, 1)
      ensures self.Some? && mapAt.Some? ==>
                && self.value != mapAt.value && self.value !in old(owned) && mapAt.value !in old(owned)
                && owned == old(owned)[self.value := Tag(2, p, false)][mapAt.value := Tag(ClassFor(length), p, true)]
    {
      hide Tables, HeapOk, HasPage, InUse, FramesHeld, SameOwners, BitsGrew, Size, Joinable, Owned, Evolved, Bit,
           ClassFor;
      ghost var caches0, words0, zs0, ps0 := caches, frames.bitsMap[..], frames.zones[..], frames.pages[..];
      MapIsSmall(c);
      SecondBlock();
      self := TakeStruct(SLAB_BYTES, 2, p, false);
      if self.None? {
        return self, None;
      }
      ghost var caches1, words1, zs1, ps1 := caches, frames.bitsMap[..], frames.zones[..], frames.pages[..];
      mapAt := TakeStruct(length, ClassFor(length), p, true);
      EvolvedChain(caches0, words0, zs0, ps0, caches1, words1, zs1, ps1, caches, frames.bitsMap[..],
                   frames.zones[..], frames.pages[..]);
    }

    /** All three requests that opening a slab of large class `c` makes, in the order of the source and
        with whatever is free: with some frames free, but no more than the nested requests need, one of
        these gets nothing, and the source goes on with a null header or map. */
    method LargeRequests(c: nat) returns (page: Option<nat>, self: Option<nat>, mapAt: Option<nat>)
      requires Valid() && FIRST_LARGE <= c < CLASSES && |caches| == CLASSES
      modifies this, frames.bitsMap, frames.zones, frames.pages
      ensures Valid()
      ensures page.None? <==> old(FreeNormal()) == 0
      ensures page.Some? ==> (self.Some? && mapAt.Some? <==> old(FreeNormal()) > old(Needed(c)))
    {
      hide Tables, HeapOk, HasPage, InUse, FramesHeld, SameOwners, BitsGrew, Size, Owned, Evolved, Bit, ClassFor,
           MapBytes;
      LargeLayout(c);
      MapIsSmall(c);
      page := TakeFrame();
      self, mapAt := None, None;
      if page.Some? {
        self, mapAt := TakeStructs(MapBytes(c), c, page.value);
      }
    }

    /** From every valid heap with a free frame, a run of requests to one in which the requests of a large
        slab fail: blocks of the header's class until none is left, and frames until one is left. */
    method RunShort(c: nat) returns (page: Option<nat>, self: Option<nat>, mapAt: Option<nat>)
      requires Valid() && FIRST_LARGE <= c < CLASSES && |caches| == CLASSES && FreeNormal() > 0
      modifies this, frames.bitsMap, frames.zones, frames.pages
      ensures Valid() && page.Some? && (self.None? || mapAt.None?)
    {
      hide Tables, HeapOk, HasPage, InUse, FramesHeld, SameOwners, BitsGrew, Size, Owned, Evolved, Bit, ClassFor,
           MapBytes,
           Capacity, Settled;
      HeaderClass();
      while caches[2].totalFree > 0
        invariant Valid() && |caches| == CLASSES && FreeNormal() > 0
        decreases caches[2].totalFree
      {
        var block := Kmalloc(SLAB_BYTES);
      }
      while FreeNormal() > 1
        invariant Valid() && |caches| == CLASSES && FreeNormal() > 0 && caches[2].totalFree == 0
        decreases FreeNormal()
      {
        var frame := TakeFrame();
      }
      page, self, mapAt := LargeRequests(c);
    }

    /** A nested request, whose block becomes the header or the map of the slab of frame `p`. */
    method TakeStruct(size: nat, ghost cls: nat, p: nat, ghost isMap: bool) returns (a: Option<nat>)
      requires Valid() && ClassFor(size) == cls < FIRST_LARGE && size <= LARGEST && |caches| == CLASSES
      requires !HasPage(caches, p) && InUse(frames.bitsMap[..], frames.zones[..], frames.pages[..], p, 1)
      modifies this, frames.bitsMap, frames.zones, frames.pages
      decreases FIRST_LARGE, 0
      ensures Valid() && Grew() && user == old(user)
      ensures a.None? <==> old(caches)[cls].totalFree == 0 && old(FreeNormal()) == 0
      ensures a.None? ==> unchanged(this) && FramesSame()
      ensures a.Some? ==>
                a.value !in old(owned) && owned == old(owned)[a.value := Tag(cls, p, isMap)] && BlockTaken(cls)
      ensures !HasPage(caches, p) && InUse(frames.bitsMap[..], frames.zones[..], frames.pages[..], p, 1)
    {
      hide Tables, HeapOk, HasPage, InUse, FramesHeld, SameOwners, BitsGrew, Size, Owned, Evolved, Bit, Capacity;
      ghost var caches0, words0, zs0, ps0, user0 := caches, frames.bitsMap[..], frames.zones[..], frames.pages[..],
                user;
      a := Kmalloc(size);
      if a.None? {
        return;
      }
      FrameSurvives(caches0, words0, zs0, ps0, caches, frames.bitsMap[..], frames.zones[..], frames.pages[..], p);
      Adopt(a.value, Tag(cls, p, isMap));
      assert user == user0;
    }

    /** A block becomes the header or the map of a slab. */
    ghost method Adopt(a: nat, tag: Tag)
      requires Valid() && a in user && user[a] == tag.cls
      modifies this`user, this`owned
      ensures Valid() && user == old(user) - {a} && owned == old(owned)[a := tag] && a !in old(owned)
    {
      hide CachesOk, FramesHeld, Tables;
      AdoptKeepsHeap(caches, user, owned, a, tag);
      user, owned := user - {a}, owned[a := tag];
    }

    /** `kmalloc` */
    method Kmalloc(size: nat) returns (address: Option<nat>)
      requires Valid() && |caches| == CLASSES && EnoughFrames(ClassFor(size))
      modifies this, frames.bitsMap, frames.zones, frames.pages
      decreases ClassFor(size), 4
      ensures Valid() && Grew() && OwnedGrew() && (old(Settled()) ==> Settled())
      ensures LinksFollow(old(frames.zones[..]), frames.zones[..], old(frames.pages[..]), frames.pages[..])
      ensures address.None? ==> FramesSame() && unchanged(this)
      ensures address.None? <==>
                || size > LARGEST
                || (ClassFor(size) < CLASSES && old(caches)[ClassFor(size)].totalFree == 0 && old(FreeNormal()) == 0)
      ensures address.None? && size <= LARGEST ==>
                forall i :: frames.dmaIndex <= i <= frames.normalIndex ==> frames.zones[i].freeCount == 0
      ensures address.Some? ==>
                && address.value !in old(user) && address.value !in old(owned)
                && user == old(user)[address.value := ClassFor(size)]
      ensures ClassFor(size) < FIRST_LARGE ==> owned == old(owned)
      ensures address.Some? && ClassFor(size) < FIRST_LARGE ==> BlockTaken(ClassFor(size))
    {
      hide Tables, HeapOk, HasPage, InUse, FramesHeld, SameOwners, BitsGrew, Size, Joinable, SlabOk, SlabCounts,
           CachesOk, Evolved, LinksFollow, Bit, AppendSlab, Owned, Capacity, Needed, ClassFor, StructsStay, NoLeak,
           FirstsApart, MapTag;
      ghost var caches0, words0, zs0, ps0, owned0 := caches, frames.bitsMap[..], frames.zones[..], frames.pages[..],
                owned;
      RingsNotEmpty(caches, user, owned);
      NothingMoved(words0, zs0, ps0);
      NoPageMoved(words0, ps0);
      NothingStirred(caches0);
      EvolvedParts(caches0, words0, zs0, ps0, caches0, words0, zs0, ps0);
      LinksOfEvolved(caches0, words0, zs0, ps0, caches0, words0, zs0, ps0);
      if size > LARGEST {
        return None;
      }
      HeapShape(caches, user, owned, 0);
      var i := FindClass(size);
      HeapShape(caches, user, owned, i);
      var k: nat;
      ghost var joined: Option<Slab> := None;
      if caches[i].totalFree != 0 {
        k := FindFreeSlab(i);
      } else {
        var slab := KmallocCreate(caches[i].size, i);
        if slab.None? {
          NoneFree();
          return None;
        }
        joined := slab;
        ghost var caches1 := caches;
        HeapShape(caches, user, owned, i);
        AppendTotals(caches, i, slab.value);
        AppendStays(caches, i, slab.value);
        k := Link(i, slab.value);
        LinkEvolves(caches0, words0, zs0, ps0, caches1, frames.bitsMap[..], frames.zones[..], frames.pages[..],
                    caches, slab.value.page);
      }
      ghost var caches2, words2, zs2, ps2 := caches, frames.bitsMap[..], frames.zones[..], frames.pages[..];
      var a := HandOut(i, k);
      NothingMoved(words2, zs2, ps2);
      NoPageMoved(words2, ps2);
      EvolvedParts(caches2, words2, zs2, ps2, caches, words2, zs2, ps2);
      EvolvedChain(caches0, words0, zs0, ps0, caches2, words2, zs2, ps2, caches, words2, zs2, ps2);
      LinksOfEvolved(caches0, words0, zs0, ps0, caches, words2, zs2, ps2);
      if old(Settled()) {
        GrowthKeepsFirsts(caches0, words0, zs0, ps0, caches, words2, zs2, ps2);
        StructsOfEvolved(caches0, words0, zs0, ps0, caches, words2, zs2, ps2);
        if i >= FIRST_LARGE && joined.Some? {
          NoLeakGrows(caches0, caches, owned0, owned, i, k, joined.value);
        } else {
          NoLeakStays(caches0, caches, owned);
        }
      }
      return Some(a);
    }

    /** The colour scan and the bookkeeping at the end of `kmalloc`. */
    method HandOut(i: nat, k: nat) returns (address: nat)
      requires Valid() && i < CLASSES && At(caches, i, k) && caches[i].ring[k].freeCount != 0
      modifies this`caches, this`user
      ensures Valid() && address !in old(user) && address !in owned && user == old(user)[address := i]
      ensures |caches| == |old(caches)| == CLASSES && caches[i].totalFree == old(caches)[i].totalFree - 1
      ensures forall d :: 0 <= d < CLASSES && d != i ==> caches[d].totalFree == old(caches)[d].totalFree
      ensures forall p: nat :: HasPage(caches, p) <==> old(HasPage(caches, p))
      ensures StructsStay(old(caches), caches)
      ensures At(caches, i, k) && SameStructs(old(caches)[i].ring[k], caches[i].ring[k])
    {
      hide Tables, HeapOk, HasPage, InUse, FramesHeld, SameOwners, BitsGrew, Size, SlabOk, SlabCounts, Live;
      SlabShape(caches, user, owned, i, k);
      ghost var before := caches;
      var s := caches[i].ring[k];
      var color := FirstClear(s.colorMap, s.colorCount);
      ClearColorExists(s, color);
      var j := color.value;
      ghost var caches', a := TakeKeepsHeap(caches, user, owned, i, k, j);
      BitOperators(s.colorMap[j / 64], j % 64);
      s := s.(colorMap := s.colorMap[j / 64 := Or(s.colorMap[j / 64], Single(j % 64))],
              usingCount := s.usingCount + 1, freeCount := s.freeCount - 1);
      caches := caches[i := caches[i].(totalFree := caches[i].totalFree - 1, totalUsing := caches[i].totalUsing + 1,
                                       ring := caches[i].ring[k := s])];
      assert caches == caches';
      ReplacedStays(before, i, k, caches[i], s);
      user := user[a := i];
      address := s.vaddress + caches[i].size * j;
      NothingMoved(frames.bitsMap[..], frames.zones[..], frames.pages[..]);
      FramesStayHeld(before, frames.bitsMap[..], frames.zones[..], frames.pages[..],
                     caches, frames.bitsMap[..], frames.zones[..], frames.pages[..], -1);
    }

    /** The search for the smallest class whose blocks are large enough. */
    method FindClass(size: nat) returns (i: nat)
      requires CachesOk(caches) && size <= LARGEST
      ensures i == ClassFor(size) && i < CLASSES
    {
      i := 0;
      LargestFits(size);
      while i < 16
        invariant i <= CLASSES && ClassFor(size) == ClassFor(size, i)
      {
        assert CacheOk(i, caches[i]);
        if caches[i].size >= size {
          break;
        }
        i := i + 1;
      }
    }

    /** `total_free` grows by the new slab's colours and the slab goes to the end of the ring. */
    method Link(i: nat, slab: Slab) returns (k: nat)
      requires Valid() && i < CLASSES && Joinable(caches, owned, i, slab)
      requires InUse(frames.bitsMap[..], frames.zones[..], frames.pages[..], slab.page, 1)
      modifies this`caches
      ensures Valid() && caches == AppendSlab(old(caches), i, slab)
      ensures At(caches, i, k) && k > 0 && caches[i].ring[k] == slab && slab.freeCount != 0
      ensures forall p: nat :: HasPage(caches, p) <==> old(HasPage(caches, p)) || p == slab.page
    {
      hide Tables, InUse, Joinable, HasPage, HeapOk;
      HeapShape(caches, user, owned, i);
      JoinableIsFree(caches, owned, i, slab);
      ghost var caches' := AppendKeepsHeap(caches, user, owned, i, slab);
      caches := caches[i := caches[i].(totalFree := caches[i].totalFree + slab.colorCount,
                                       ring := caches[i].ring + [slab])];
      k := |caches[i].ring| - 1;
    }

    /** The walk of `kfree` over all rings for the slab whose frame starts at `base`. */
    method FindSlab(base: nat) returns (found: bool, i: nat, k: nat)
      requires |caches| == CLASSES && forall c :: 0 <= c < CLASSES ==> |caches[c].ring| > 0
      ensures found ==> i < CLASSES && At(caches, i, k) && caches[i].ring[k].vaddress == base
      ensures !found ==> forall c: nat, l: nat :: At(caches, c, l) ==> caches[c].ring[l].vaddress != base
    {
      i, k := 0, 0;
      while i < 16
        invariant i <= CLASSES
        invariant forall c: nat, l: nat :: c < i && At(caches, c, l) ==> caches[c].ring[l].vaddress != base
      {
        k := 0;
        while k < |caches[i].ring|
          invariant k <= |caches[i].ring|
          invariant forall l :: 0 <= l < k ==> caches[i].ring[l].vaddress != base
        {
          if caches[i].ring[k].vaddress == base {
            return true, i, k;
          }
          k := k + 1;
        }
        i := i + 1;
      }
      return false, i, k;
    }

    /** What releasing does to slabs, frames and owned blocks. */
    twostate predicate Shrank()
      reads this, frames, frames.bitsMap, frames.zones, frames.pages
    {
      && Shrunk(old(caches), old(frames.bitsMap[..]), old(frames.zones[..]), old(frames.pages[..]),
                caches, frames.bitsMap[..], frames.zones[..], frames.pages[..])
      && OwnedShrunk(old(owned), owned, caches)
    }

    /** What releasing a block of class `c` in frame `p` does to the totals and, for a small class, to all the
        slabs and frames: the slab goes exactly when it is spare. */
    twostate predicate BlockReturned(c: nat, p: nat)
      reads this, frames, frames.bitsMap, frames.zones, frames.pages
      requires c < CLASSES && |old(caches)| == CLASSES
    {
      var spare := Spare(old(caches), c, p);
      && |caches| == CLASSES
      && caches[c].totalFree ==
         old(caches)[c].totalFree + 1 - (if spare then Capacity(c, c < FIRST_LARGE) else 0)
      && (forall d :: FIRST_LARGE <= d < CLASSES && d != c ==> caches[d] == old(caches)[d])
      && (c < FIRST_LARGE || !spare ==>
            && (forall d :: 0 <= d < CLASSES && d != c ==> caches[d] == old(caches)[d])
            && (forall q: nat :: HasPage(caches, q) <==> HasPage(old(caches), q) && !(spare && q == p))
            && (if spare then OnlyCleared(old(frames.bitsMap[..]), frames.bitsMap[..], p) else FramesSame()))
    }

    /** `kfree` on an address inside block `block`, which a caller holds, or in no slab's frame. The slab of
        the block goes exactly when this was the last block in use of a slab that is not the first one, and
        the class has blocks to spare; its frame is free then, and its header and map are owned no more. */
    method Kfree(address: nat, ghost block: nat) returns (ok: bool)
      requires Valid()
      requires || (block in user && user[block] < CLASSES && block <= address < block + Size(user[block]))
               || !HasPage(caches, address / FRAME_BYTES)
      modifies this, frames.bitsMap, frames.zones, frames.pages
      decreases if block in user then user[block] else 0, 1
      ensures Valid() && Shrank() && (old(Settled()) ==> Settled())
      ensures LinksFollow(old(frames.zones[..]), frames.zones[..], old(frames.pages[..]), frames.pages[..])
      ensures ok == old(HasPage(caches, address / FRAME_BYTES))
      ensures !ok ==> unchanged(this) && FramesSame()
      ensures ok ==> block in old(user) && old(user)[block] < CLASSES && user == old(user) - {block}
      ensures ok ==> |old(caches)| == CLASSES && BlockReturned(old(user)[block], address / FRAME_BYTES)
      ensures ok ==> (HasPage(caches, address / FRAME_BYTES) <==> !Spare(old(caches), old(user)[block],
                                                                         address / FRAME_BYTES))
      ensures ok && !HasPage(caches, address / FRAME_BYTES) ==>
                address / FRAME_BYTES < 64 * frames.bitsMap.Length && !frames.Used(address / FRAME_BYTES)
      ensures ok && (old(user)[block] < FIRST_LARGE || HasPage(caches, address / FRAME_BYTES)) ==> owned == old(owned)
      ensures ok && old(user)[block] >= FIRST_LARGE && !HasPage(caches, address / FRAME_BYTES) ==>
                forall k: nat :: IsSlabAt(old(caches), old(user)[block], k, address / FRAME_BYTES) ==>
                  owned == old(owned) - StructsOf(old(caches)[old(user)[block]].ring[k])
    {
      hide Tables, HeapOk, HasPage, InUse, FramesHeld, SameOwners, BitsGrew, Size, SlabOk, SlabCounts, Shrunk,
           OwnedShrunk, LinksFollow, Bit, Owned, Live, Holds, HoldsAt, Spare, SpareSlab, NoLeak, FirstsApart, Capacity,
           RemoveSlab, FirstsStay, StructsStay, PagesDistinct, CachesOk;
      ghost var caches0, words0, zs0, ps0, owned0 := caches, frames.bitsMap[..], frames.zones[..], frames.pages[..],
                owned;
      NothingShrunk(caches0, words0, zs0, ps0, owned0);
      LinksOfShrunk(caches0, words0, zs0, ps0, caches0, words0, zs0, ps0);
      RingsNotEmpty(caches, user, owned);
      BlockFrame(caches, user, owned, block, address);
      var base := address - address % FRAME_BYTES;
      var found, i, k := FindSlab(base);
      if !found {
        NoSlabThere(caches, user, owned, address);
        return false;
      }
      SlabThere(caches, user, owned, i, k, address, block);
      HeapShape(caches, user, owned, i);
      SlabShape(caches, user, owned, i, k);
      ColorsOf(i, k, caches[i].ring[k]);
      SpareHere(caches, i, k);
      TakeBack(address, block, i, k);
      ghost var caches1 := caches;
      var s := caches[i].ring[k];
      ReplacedStays(caches0, i, k, caches1[i], s);
      StayingFirsts(caches0, caches1);
      SpareAfter(caches0, caches1, i, k);
      SamePagesShrink(caches0, caches1, words0, zs0, ps0, owned0);
      if s.usingCount == 0 && caches[i].totalFree >= s.colorCount * 3 / 2 && k != 0 {
        Destroy(i, k);
        RemovedTotals(caches1, i, k);
        OnlySlab(caches0, i, k);
        ShrunkChain(caches0, words0, zs0, ps0, caches1, words0, zs0, ps0, caches, frames.bitsMap[..],
                    frames.zones[..], frames.pages[..]);
        LinksOfShrunk(caches0, words0, zs0, ps0, caches, frames.bitsMap[..], frames.zones[..], frames.pages[..]);
        if old(Settled()) {
          NoLeakStays(caches0, caches1, owned0);
          if i < FIRST_LARGE {
            NoLeakSameLarge(caches1, caches, owned0);
          } else {
            NoLeakShrinks(caches1, caches, owned0, i, k);
          }
        }
      } else if old(Settled()) {
        NoLeakStays(caches0, caches1, owned0);
      }
      if old(Settled()) {
        ReleaseKeepsFirsts(caches0, words0, zs0, ps0, caches, frames.bitsMap[..], frames.zones[..], frames.pages[..]);
      }
      return true;
    }

    /** The bookkeeping at the start of `kfree`: the colour is flipped back and the counters move. */
    method TakeBack(address: nat, ghost block: nat, i: nat, k: nat)
      requires Valid() && i < CLASSES && At(caches, i, k)
      requires block in user && user[block] == i && Holds(i, caches[i].ring[k], block)
      requires block <= address < block + Size(i)
      modifies this`caches, this`user
      ensures Valid() && user == old(user) - {block} && At(caches, i, k) && |caches| == |old(caches)| == CLASSES
      ensures forall p: nat :: HasPage(caches, p) <==> old(HasPage(caches, p))
      ensures var s, s' := old(caches)[i].ring[k], caches[i].ring[k];
              && SameStructs(s, s') && s'.colorCount == s.colorCount && s'.usingCount == s.usingCount - 1
              && caches == old(caches)[i := caches[i]] && caches[i].ring == old(caches)[i].ring[k := s']
              && caches[i].totalFree == old(caches)[i].totalFree + 1
    {
      hide Tables, HeapOk, HasPage, InUse, FramesHeld, SameOwners, BitsGrew, Size, SlabOk, SlabCounts, Live;
      SlabShape(caches, user, owned, i, k);
      ghost var before := caches;
      var s := caches[i].ring[k];
      ghost var j: nat :| HoldsAt(i, s, block, j);
      IndexOfBlock(i, s, block, address, j);
      var index := (address - s.vaddress) / caches[i].size;
      ghost var caches', a := DropKeepsHeap(caches, user, owned, i, k, index);
      BitOperators(s.colorMap[index / 64], index % 64);
      s := s.(colorMap := s.colorMap[index / 64 := Xor(s.colorMap[index / 64], Single(index % 64))],
              freeCount := s.freeCount + 1, usingCount := s.usingCount - 1);
      caches := caches[i := caches[i].(totalFree := caches[i].totalFree + 1, totalUsing := caches[i].totalUsing - 1,
                                       ring := caches[i].ring[k := s])];
      assert caches == caches';
      user := user - {a};
      NothingMoved(frames.bitsMap[..], frames.zones[..], frames.pages[..]);
      FramesStayHeld(before, frames.bitsMap[..], frames.zones[..], frames.pages[..],
                     caches, frames.bitsMap[..], frames.zones[..], frames.pages[..], -1);
    }

    /** `list_del` and the counter that goes with it. */
    method Unlink(i: nat, k: nat) returns (s: Slab)
      requires Valid() && i < CLASSES && At(caches, i, k) && 0 < k && caches[i].ring[k].usingCount == 0
      modifies this
      ensures Valid() && s == old(caches)[i].ring[k] && At(old(caches), i, k)
      ensures old(caches)[i].totalFree >= s.colorCount && caches == RemoveSlab(old(caches), i, k)
      ensures !HasPage(caches, s.page) && InUse(frames.bitsMap[..], frames.zones[..], frames.pages[..], s.page, 1)
      ensures forall p: nat :: HasPage(caches, p) <==> old(HasPage(caches, p)) && p != s.page
      ensures i < FIRST_LARGE ==> user == old(user) && owned == old(owned)
      ensures i >= FIRST_LARGE ==>
                && s.self != s.mapAt && s.self !in old(user) && s.mapAt !in old(user)
                && user == old(user)[s.self := 2][s.mapAt := ClassFor(MapBytes(i))]
                && owned == old(owned) - {s.self, s.mapAt}
      ensures forall b :: b in owned ==> b in old(owned) && owned[b] == old(owned)[b]
      ensures forall b :: b in old(owned) && b !in owned ==> old(owned)[b].page == s.page
    {
      hide Tables, HeapOk, HasPage, InUse, FramesHeld, SameOwners, BitsGrew, Size, SlabOk, SlabCounts, RemoveSlab,
           ClassFor, MapBytes;
      ghost var before := caches;
      s := caches[i].ring[k];
      SlabPageHeld(caches, i, k, frames.bitsMap[..], frames.zones[..], frames.pages[..]);
      StructFacts(caches, user, owned, i, k);
      ghost var caches', user', owned' := RemoveKeepsHeap(caches, user, owned, i, k);
      caches := RemoveSlab(caches, i, k);
      user, owned := user', owned';
      NothingMoved(frames.bitsMap[..], frames.zones[..], frames.pages[..]);
      FramesStayHeld(before, frames.bitsMap[..], frames.zones[..], frames.pages[..],
                     caches, frames.bitsMap[..], frames.zones[..], frames.pages[..], -1);
    }

    /** The removal of an unused slab, with its frame and, for a large class, its header and map: the slab is
        in no ring, its frame is free, and the blocks of its header and map are nobody's. */
    method Destroy(i: nat, k: nat)
      requires Valid() && i < CLASSES && At(caches, i, k) && 0 < k && caches[i].ring[k].usingCount == 0
      modifies this, frames.bitsMap, frames.zones, frames.pages
      decreases i, 0
      ensures Valid() && Shrank() && user == old(user)
      ensures |caches| == |old(caches)| == CLASSES && old(caches)[i].totalFree >= old(caches)[i].ring[k].colorCount
      ensures var s := old(caches)[i].ring[k];
              && !HasPage(caches, s.page) && s.page < 64 * frames.bitsMap.Length && !frames.Used(s.page)
              && (forall d :: FIRST_LARGE <= d < CLASSES ==> caches[d] == RemoveSlab(old(caches), i, k)[d])
              && (if i < FIRST_LARGE then
                    && owned == old(owned) && caches == RemoveSlab(old(caches), i, k)
                    && OnlyCleared(old(frames.bitsMap[..]), frames.bitsMap[..], s.page)
                    && forall p: nat :: HasPage(caches, p) <==> old(HasPage(caches, p)) && p != s.page
                  else owned == old(owned) - {s.self, s.mapAt})
    {
      hide Tables, HeapOk, HasPage, InUse, FramesHeld, SameOwners, BitsGrew, Size, SlabOk, SlabCounts, Shrunk,
           OwnedShrunk, Bit, Owned, MapBytes, ClassFor, Holds, Live, RemoveSlab, FirstsStay;
      ghost var caches0, words0, zs0, ps0, owned0, user0 := caches, frames.bitsMap[..], frames.zones[..],
                frames.pages[..], owned, user;
      SlabShape(caches, user, owned, i, k);
      var size := caches[i].size;
      var s := Unlink(i, k);
      ghost var caches1 := caches;
      RemovedKeepsFirsts(caches0, i, k);
      SubsetShrinks(caches0, caches1, words0, zs0, ps0);
      HasPageAt(caches0, i, k);
      if size <= 512 {
        SmallSizes(i);
        HeldBit(words0, zs0, ps0, s.page);
        ReleaseFrame(s.page);
        ReleaseShrinks(caches0, words0, zs0, ps0, caches1, words0, zs0, ps0, s.page, frames.bitsMap[..],
                       frames.zones[..], frames.pages[..]);
      } else {
        LargeSizes(i);
        DestroyLarge(i, s, caches0, words0, zs0, ps0, user0);
      }
      UnlinkedOwned(owned0, owned, caches, s.page);
    }

    /** The release of a large slab's map, frame and header, in the order of the source. */
    method DestroyLarge(ghost i: nat, s: Slab, ghost caches0: seq<Cache>, ghost words0: seq<Word>, ghost zs0: seq<Zone>,
                        ghost ps0: seq<Page>, ghost user0: map<nat, nat>)
      requires Valid() && FIRST_LARGE <= i < CLASSES && ClassFor(MapBytes(i)) < 4
      requires s.self != s.mapAt && s.self !in user0 && s.mapAt !in user0
      requires user == user0[s.self := 2][s.mapAt := ClassFor(MapBytes(i))]
      requires HasPage(caches0, s.page) && !HasPage(caches, s.page)
      requires InUse(frames.bitsMap[..], frames.zones[..], frames.pages[..], s.page, 1)
      requires Shrunk(caches0, words0, zs0, ps0, caches, frames.bitsMap[..], frames.zones[..], frames.pages[..])
      modifies this, frames.bitsMap, frames.zones, frames.pages
      decreases FIRST_LARGE, -1
      ensures Valid() && user == user0 && owned == old(owned) && !HasPage(caches, s.page)
      ensures s.page < 64 * frames.bitsMap.Length && !frames.Used(s.page)
      ensures |caches| == |old(caches)| == CLASSES
      ensures forall d :: FIRST_LARGE <= d < CLASSES ==> caches[d] == old(caches)[d]
      ensures Shrunk(caches0, words0, zs0, ps0, caches, frames.bitsMap[..], frames.zones[..], frames.pages[..])
    {
      hide Tables, HeapOk, HasPage, InUse, FramesHeld, SameOwners, BitsGrew, Shrunk, OwnedShrunk, Bit, Owned,
           MapBytes, ClassFor, Spare, NoLeak, FirstsApart, Capacity;
      ghost var caches1, words1, zs1, ps1 := caches, frames.bitsMap[..], frames.zones[..], frames.pages[..];
      SomeBytes(2);
      SomeBytes(ClassFor(MapBytes(i)));
      HeldByHeap(caches, user, owned, s.mapAt);
      var freed := Kfree(s.mapAt, s.mapAt);
      ghost var caches2, words2, zs2, ps2 := caches, frames.bitsMap[..], frames.zones[..], frames.pages[..];
      ShrunkSurvives(caches1, words1, zs1, ps1, caches2, words2, zs2, ps2, s.page);
      ShrunkChain(caches0, words0, zs0, ps0, caches1, words1, zs1, ps1, caches2, words2, zs2, ps2);
      HeldBit(words2, zs2, ps2, s.page);
      ReleaseFrame(s.page);
      ghost var words3, zs3, ps3 := frames.bitsMap[..], frames.zones[..], frames.pages[..];
      ReleaseShrinks(caches0, words0, zs0, ps0, caches2, words2, zs2, ps2, s.page, words3, zs3, ps3);
      HeldByHeap(caches, user, owned, s.self);
      freed := Kfree(s.self, s.self);
      ShrunkChain(caches0, words0, zs0, ps0, caches2, words3, zs3, ps3, caches, frames.bitsMap[..],
                  frames.zones[..], frames.pages[..]);
      ShrunkPages(caches2, words3, zs3, ps3, caches, frames.bitsMap[..], frames.zones[..], frames.pages[..], s.page);
      ShrunkBit(caches2, words3, zs3, ps3, caches, frames.bitsMap[..], frames.zones[..], frames.pages[..], s.page);
      assert user == user0;
    }
  }
}
