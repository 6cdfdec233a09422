/** What `kmalloc` and `kfree` rely on: how many frames are free, what allocation and release do to the
    frames as a whole, and facts that they read off the heap. */
module HeapFacts {
  import opened Options
  import opened Words
  import opened Frames
  import opened Slabs
  import opened SlabLaws

  // ---- counting free frames of a selection ----

  function FreeIn(zones: seq<Zone>, lo: nat, hi: nat): nat
    decreases hi
  {
    if hi <= lo then 0
    else FreeIn(zones, lo, hi - 1) + if hi - 1 < |zones| then zones[hi - 1].freeCount else 0
  }

  lemma {:induction false} FreeInFrame(zones: seq<Zone>, zones': seq<Zone>, lo: nat, hi: nat)
    requires |zones| == |zones'|
    requires forall i :: lo <= i < hi && i < |zones| ==> zones[i].freeCount == zones'[i].freeCount
    ensures FreeIn(zones, lo, hi) == FreeIn(zones', lo, hi)
    decreases hi
  {
    if lo < hi {
      FreeInFrame(zones, zones', lo, hi - 1);
    }
  }

  lemma {:induction false} NothingIn(zones: seq<Zone>, lo: nat, hi: nat)
    requires hi <= |zones|
    ensures FreeIn(zones, lo, hi) == 0 <==> forall i :: lo <= i < hi ==> zones[i].freeCount == 0
    decreases hi
  {
    if lo < hi {
      NothingIn(zones, lo, hi - 1);
    }
  }

  lemma {:induction false} FreeAfterMove(zones: seq<Zone>, lo: nat, hi: nat, i: nat)
    requires lo <= i < hi && i < |zones| && zones[i].freeCount > 0
    ensures FreeIn(MoveFrames(zones, i, 1), lo, hi) == FreeIn(zones, lo, hi) - 1
    decreases hi
  {
    if i == hi - 1 {
      FreeInFrame(zones, MoveFrames(zones, i, 1), lo, hi - 1);
    } else {
      FreeAfterMove(zones, lo, hi - 1, i);
    }
  }

  /** A selection without a run of one frame has no free frame. */
  lemma {:induction false} NoRunNoFree(words: seq<Word>, zones: seq<Zone>, lo: nat, hi: nat)
    requires ZoneCounts(words, zones) && NoRunInZones(words, zones, lo, hi, 1)
    ensures FreeIn(zones, lo, hi) == 0
    decreases hi
  {
    if lo < hi {
      NoRunNoFree(words, zones, lo, hi - 1);
      if hi - 1 < |zones| {
        var z := zones[hi - 1];
        ClearBitsPositive(words, z.start, z.end);
        forall f: nat | z.start <= f < z.end
          ensures Bit(words, f)
        {
          assert NoRunIn(words, z, z.start, z.end, 1);
          assert !Run(words, f, 1);
        }
      }
    }
  }

  ghost predicate FramesHeld(caches: seq<Cache>, words: seq<Word>, zones: seq<Zone>, pages: seq<Page>) {
    forall p: nat :: HasPage(caches, p) ==> InUse(words, zones, pages, p, 1)
  }

  /** What an `alloc_pages(ZONE_NORMAL, 1)` that found frame `p` has done. */
  lemma OneFrameTaken(words: seq<Word>, zones: seq<Zone>, pages: seq<Page>, lo: nat, hi: nat, p: nat, i: nat,
                      attribute: set<PageFlag>,
                      words': seq<Word>, zones': seq<Zone>, pages': seq<Page>)
    requires Tables(words, zones, pages)
    requires IsFirstFit(words, zones, lo, hi, 1, i, p) && zones' == MoveFrames(zones, i, 1)
    requires After(words, zones, pages, p, 1, true, attribute, words', zones', pages')
    ensures FreeIn(zones', lo, hi) == FreeIn(zones, lo, hi) - 1 && FreeIn(zones, lo, hi) > 0
    ensures |words'| == |words| && p < 64 * |words| && !Bit(words, p)
    ensures forall f: nat :: f < 64 * |words| ==> Bit(words', f) == (Bit(words, f) || f == p)
    ensures SameOwners(zones, zones', pages, pages') && Owned(zones, pages, p)
  {
    hide Tables, ZonesSeparate, ZoneCounts, Before, SameOwners;
    TablesParts(words, zones, pages);
    FrameFacts(words, zones, pages, i, p);
    RunBit(words, p, 1, p);
    WithRunBits(words, p, 1, true);
    FreeAfterMove(zones, lo, hi, i);
    LayoutFacts(zones, zones', pages, pages');
  }

  lemma OneFrameReleased(words: seq<Word>, zones: seq<Zone>, pages: seq<Page>, p: nat,
                         words': seq<Word>, zones': seq<Zone>, pages': seq<Page>)
    requires After(words, zones, pages, p, 1, false, {}, words', zones', pages')
    ensures |words'| == |words|
    ensures forall f: nat :: f < 64 * |words| ==> Bit(words', f) == (Bit(words, f) && f != p)
    ensures SameOwners(zones, zones', pages, pages')
  {
    hide SameOwners;
    WithRunBits(words, p, 1, false);
    LayoutFacts(zones, zones', pages, pages');
  }

  /** Every bit that was set still is, except perhaps that of frame `but`. */
  ghost predicate BitsGrew(words: seq<Word>, words': seq<Word>, but: int) {
    |words'| == |words| && forall f: nat :: f < 64 * |words| && f != but && Bit(words, f) ==> Bit(words', f)
  }

  /** Slabs that joined since hold frames that were free. */
  ghost predicate PagesWereFree(caches: seq<Cache>, words: seq<Word>, caches': seq<Cache>) {
    forall p: nat :: HasPage(caches', p) ==> HasPage(caches, p) || (p < 64 * |words| && !Bit(words, p))
  }

  /** The record of a page that a slab took: one more reference if there was none, and its attributes. */
  function TakenPage(p: Page): Page {
    p.(attribute := {PTableMaped, Kernel}, referenceCount := if p.referenceCount == 0 then 1 else p.referenceCount)
  }

  /** The record of a page that a slab gave back: one reference less, and no attributes. */
  function ReleasedPage(p: Page): Page {
    p.(attribute := {}, referenceCount := if p.referenceCount == 0 then MACHINE - 1
       else (p.referenceCount - 1) % MACHINE)
  }

  /** The records of exactly the frames that came into use changed. */
  ghost predicate PagesTaken(words: seq<Word>, pages: seq<Page>, words': seq<Word>, pages': seq<Page>) {
    && |pages'| == |pages| && |words'| == |words|
    && forall f: nat :: f < |pages| && f < 64 * |words| ==>
         pages'[f] == if !Bit(words, f) && Bit(words', f) then TakenPage(pages[f]) else pages[f]
  }

  /** The records of exactly the frames that became free changed. */
  ghost predicate PagesReleased(words: seq<Word>, pages: seq<Page>, words': seq<Word>, pages': seq<Page>) {
    && |pages'| == |pages| && |words'| == |words|
    && forall f: nat :: f < |pages| && f < 64 * |words| ==>
         pages'[f] == if Bit(words, f) && !Bit(words', f) then ReleasedPage(pages[f]) else pages[f]
  }

  lemma PagesTakenChain(w0: seq<Word>, p0: seq<Page>, w1: seq<Word>, p1: seq<Page>, w2: seq<Word>, p2: seq<Page>)
    requires PagesTaken(w0, p0, w1, p1) && PagesTaken(w1, p1, w2, p2)
    requires BitsGrew(w0, w1, -1) && BitsGrew(w1, w2, -1)
    ensures PagesTaken(w0, p0, w2, p2)
  {
    hide Bit, TakenPage;
  }

  lemma PagesReleasedChain(w0: seq<Word>, p0: seq<Page>, w1: seq<Word>, p1: seq<Page>, w2: seq<Word>, p2: seq<Page>)
    requires PagesReleased(w0, p0, w1, p1) && PagesReleased(w1, p1, w2, p2)
    requires forall f: nat :: f < 64 * |w0| && Bit(w1, f) ==> Bit(w0, f)
    requires forall f: nat :: f < 64 * |w0| && Bit(w2, f) ==> Bit(w1, f)
    ensures PagesReleased(w0, p0, w2, p2)
  {
    hide Bit, ReleasedPage;
  }

  lemma NoPageMoved(words: seq<Word>, pages: seq<Page>)
    ensures PagesTaken(words, pages, words, pages) && PagesReleased(words, pages, words, pages)
  {
    hide Bit, TakenPage, ReleasedPage;
  }

  /** One frame came into use, or became free. */
  lemma OnePageTaken(words: seq<Word>, pages: seq<Page>, p: nat, words': seq<Word>, pages': seq<Page>)
    requires |words'| == |words| && p < |pages| && p < 64 * |words| && !Bit(words, p)
    requires forall f: nat :: f < 64 * |words| ==> (Bit(words', f) <==> Bit(words, f) || f == p)
    requires pages' == pages[p := TakenPage(pages[p])]
    ensures PagesTaken(words, pages, words', pages')
  {
    hide Bit, TakenPage;
  }

  lemma OnePageReleased(words: seq<Word>, pages: seq<Page>, p: nat, words': seq<Word>, pages': seq<Page>)
    requires |words'| == |words| && p < |pages| && p < 64 * |words| && Bit(words, p)
    requires OnlyCleared(words, words', p) && pages' == pages[p := ReleasedPage(pages[p])]
    ensures PagesReleased(words, pages, words', pages')
  {
    hide Bit, ReleasedPage;
  }

  /** The same frame, header and map. */
  predicate SameStructs(s: Slab, s': Slab) {
    s'.page == s.page && s'.self == s.self && s'.mapAt == s.mapAt && s'.colorLength == s.colorLength
  }

  /** Every slab stays where it is. */
  ghost predicate StructsStay(caches: seq<Cache>, caches': seq<Cache>) {
    && |caches'| == |caches|
    && forall c: nat, k: nat :: At(caches, c, k) ==>
      At(caches', c, k) && SameStructs(caches[c].ring[k], caches'[c].ring[k])
  }

  /** What allocation does to the frames: those in use stay in use with their owners, slabs stay, and
      others join with frames that were free. */
  ghost predicate Evolved(caches: seq<Cache>, words: seq<Word>, zones: seq<Zone>, pages: seq<Page>,
                          caches': seq<Cache>, words': seq<Word>, zones': seq<Zone>, pages': seq<Page>) {
    && BitsGrew(words, words', -1) && SameOwners(zones, zones', pages, pages')
    && PagesWereFree(caches, words, caches') && StructsStay(caches, caches')
    && PagesTaken(words, pages, words', pages')
  }

  lemma StructsStayChain(c0: seq<Cache>, c1: seq<Cache>, c2: seq<Cache>)
    requires StructsStay(c0, c1) && StructsStay(c1, c2)
    ensures StructsStay(c0, c2)
  {
    hide At;
  }

  lemma NothingStirred(caches: seq<Cache>)
    ensures StructsStay(caches, caches)
  {
  }

  /** Slab `k` of class `c` replaced by one with the same frame, header and map. */
  lemma ReplacedStays(caches: seq<Cache>, c: nat, k: nat, cache: Cache, s: Slab)
    requires At(caches, c, k) && cache.ring == caches[c].ring[k := s] && SameStructs(caches[c].ring[k], s)
    ensures StructsStay(caches, caches[c := cache])
  {
  }

  lemma AppendStays(caches: seq<Cache>, c: nat, s: Slab)
    requires c < |caches|
    ensures StructsStay(caches, AppendSlab(caches, c, s))
  {
  }

  lemma EvolvedChain(c0: seq<Cache>, w0: seq<Word>, z0: seq<Zone>, p0: seq<Page>, c1: seq<Cache>, w1: seq<Word>,
                     z1: seq<Zone>, p1: seq<Page>,
                     c2: seq<Cache>, w2: seq<Word>, z2: seq<Zone>, p2: seq<Page>)
    requires Evolved(c0, w0, z0, p0, c1, w1, z1, p1) && Evolved(c1, w1, z1, p1, c2, w2, z2, p2)
    ensures Evolved(c0, w0, z0, p0, c2, w2, z2, p2)
  {
    hide SameOwners, Bit, HasPage, StructsStay, PagesTaken;
    OwnersChain(z0, z1, z2, p0, p1, p2);
    StructsStayChain(c0, c1, c2);
    PagesTakenChain(w0, p0, w1, p1, w2, p2);
  }

  lemma EvolvedParts(caches: seq<Cache>, words: seq<Word>, zones: seq<Zone>, pages: seq<Page>,
                     caches': seq<Cache>, words': seq<Word>, zones': seq<Zone>, pages': seq<Page>)
    requires BitsGrew(words, words', -1) && SameOwners(zones, zones', pages, pages') && StructsStay(caches, caches')
    requires PagesTaken(words, pages, words', pages')
    requires forall p: nat :: HasPage(caches', p) ==> HasPage(caches, p)
    ensures Evolved(caches, words, zones, pages, caches', words', zones', pages')
  {
    hide SameOwners, BitsGrew, HasPage, StructsStay, PagesTaken;
  }

  lemma StructsOfEvolved(caches: seq<Cache>, words: seq<Word>, zones: seq<Zone>, pages: seq<Page>,
                         caches': seq<Cache>, words': seq<Word>, zones': seq<Zone>, pages': seq<Page>)
    requires Evolved(caches, words, zones, pages, caches', words', zones', pages')
    ensures StructsStay(caches, caches')
  {
  }

  /** The frame of a slab in the making survives what else happens. */
  lemma FrameSurvives(caches: seq<Cache>, words: seq<Word>, zones: seq<Zone>, pages: seq<Page>,
                      caches': seq<Cache>, words': seq<Word>, zones': seq<Zone>, pages': seq<Page>, p: nat)
    requires Evolved(caches, words, zones, pages, caches', words', zones', pages')
    requires InUse(words, zones, pages, p, 1) && !HasPage(caches, p)
    ensures InUse(words', zones', pages', p, 1) && !HasPage(caches', p)
  {
    hide SameOwners, BitsGrew, HasPage, InUse, StructsStay, PagesTaken;
    InUseAt(words, zones, pages, p, 1, p);
    StillInUse(words, zones, pages, words', zones', pages', p, -1);
  }

  lemma LinkEvolves(caches: seq<Cache>, words: seq<Word>, zones: seq<Zone>, pages: seq<Page>,
                    caches': seq<Cache>, words': seq<Word>, zones': seq<Zone>, pages': seq<Page>,
                    caches'': seq<Cache>, page: nat)
    requires Evolved(caches, words, zones, pages, caches', words', zones', pages')
    requires page < 64 * |words| && !Bit(words, page) && StructsStay(caches', caches'')
    requires forall p: nat :: HasPage(caches'', p) ==> HasPage(caches', p) || p == page
    ensures Evolved(caches, words, zones, pages, caches'', words', zones', pages')
  {
    hide SameOwners, BitsGrew, HasPage, StructsStay, PagesTaken;
    StructsStayChain(caches, caches', caches'');
  }

  /** Over any allocations the link counts of the zones follow the references to their pages. */
  lemma LinksOfEvolved(caches: seq<Cache>, words: seq<Word>, zones: seq<Zone>, pages: seq<Page>,
                       caches': seq<Cache>, words': seq<Word>, zones': seq<Zone>, pages': seq<Page>)
    requires Evolved(caches, words, zones, pages, caches', words', zones', pages')
    ensures LinksFollow(zones, zones', pages, pages')
  {
    hide LinksFollow, Owned, StructsStay, PagesTaken;
  }

  /** Over any releases too. */
  lemma LinksOfShrunk(caches: seq<Cache>, words: seq<Word>, zones: seq<Zone>, pages: seq<Page>,
                      caches': seq<Cache>, words': seq<Word>, zones': seq<Zone>, pages': seq<Page>)
    requires Shrunk(caches, words, zones, pages, caches', words', zones', pages')
    ensures LinksFollow(zones, zones', pages, pages')
  {
    hide LinksFollow, Owned, FirstsStay, PagesReleased;
  }

  lemma OwnersAt(zones: seq<Zone>, pages: seq<Page>, zones': seq<Zone>, pages': seq<Page>, f: nat)
    requires SameOwners(zones, zones', pages, pages') && Owned(zones, pages, f)
    ensures Owned(zones', pages', f)
  {
    hide Owned;
  }

  lemma OwnersChain(zones: seq<Zone>, zones': seq<Zone>, zones'': seq<Zone>, pages: seq<Page>, pages': seq<Page>,
                    pages'': seq<Page>)
    requires SameOwners(zones, zones', pages, pages') && SameOwners(zones', zones'', pages', pages'')
    ensures SameOwners(zones, zones'', pages, pages'')
  {
    hide Owned;
  }

  lemma StillInUse(words: seq<Word>, zones: seq<Zone>, pages: seq<Page>, words': seq<Word>, zones': seq<Zone>,
                   pages': seq<Page>, p: nat, but: int)
    requires BitsGrew(words, words', but) && SameOwners(zones, zones', pages, pages')
    requires InUse(words, zones, pages, p, 1) && p != but
    ensures InUse(words', zones', pages', p, 1)
  {
    hide Owned;
    InUseAt(words, zones, pages, p, 1, p);
  }

  lemma NothingMoved(words: seq<Word>, zones: seq<Zone>, pages: seq<Page>)
    ensures BitsGrew(words, words, -1) && SameOwners(zones, zones, pages, pages)
  {
  }

  /** A frame that was free is no slab's frame; once taken it may be released again. */
  lemma FrameNotHeld(caches: seq<Cache>, words: seq<Word>, zones: seq<Zone>, pages: seq<Page>, p: nat,
                     words': seq<Word>, zones': seq<Zone>, pages': seq<Page>)
    requires FramesHeld(caches, words, zones, pages) && |words'| == |words| && p < 64 * |words| && !Bit(words, p)
    requires forall f: nat :: f < 64 * |words| ==> Bit(words', f) == (Bit(words, f) || f == p)
    requires Owned(zones, pages, p)
    ensures !HasPage(caches, p) && BitsGrew(words, words', -1)
    ensures forall zones'', pages'' :: SameOwners(zones, zones'', pages, pages'') ==>
            InUse(words', zones'', pages'', p, 1)
  {
    hide HasPage;
  }

  lemma FramesStayHeld(caches: seq<Cache>, words: seq<Word>, zones: seq<Zone>, pages: seq<Page>,
                       caches': seq<Cache>, words': seq<Word>, zones': seq<Zone>, pages': seq<Page>, but: int)
    requires FramesHeld(caches, words, zones, pages)
    requires BitsGrew(words, words', but) && SameOwners(zones, zones', pages, pages')
    requires forall p: nat :: HasPage(caches', p) ==> HasPage(caches, p) && p != but
    ensures FramesHeld(caches', words', zones', pages')
  {
    hide HasPage, BitsGrew, SameOwners, InUse;
    forall p: nat | HasPage(caches', p)
      ensures InUse(words', zones', pages', p, 1)
    {
      StillInUse(words, zones, pages, words', zones', pages', p, but);
    }
  }

  /** The first slab of every class keeps its frame, header and map. */
  ghost predicate FirstsStay(caches: seq<Cache>, caches': seq<Cache>) {
    && |caches'| == |caches|
    && forall c: nat :: At(caches, c, 0) ==> At(caches', c, 0) && SameStructs(caches[c].ring[0], caches'[c].ring[0])
  }

  lemma StayingFirsts(caches: seq<Cache>, caches': seq<Cache>)
    requires StructsStay(caches, caches')
    ensures FirstsStay(caches, caches')
  {
    hide At;
  }

  lemma FirstsStayChain(c0: seq<Cache>, c1: seq<Cache>, c2: seq<Cache>)
    requires FirstsStay(c0, c1) && FirstsStay(c1, c2)
    ensures FirstsStay(c0, c2)
  {
    hide At;
  }

  /** What releasing does to the frames: only frames of slabs are released, first slabs stay, and no slab
      joins. */
  ghost predicate Shrunk(caches: seq<Cache>, words: seq<Word>, zones: seq<Zone>, pages: seq<Page>,
                         caches': seq<Cache>, words': seq<Word>, zones': seq<Zone>, pages': seq<Page>) {
    && |words'| == |words| && SameOwners(zones, zones', pages, pages') && FirstsStay(caches, caches')
    && PagesReleased(words, pages, words', pages')
    && (forall p: nat :: HasPage(caches', p) ==> HasPage(caches, p))
    && (forall f: nat :: f < 64 * |words| && Bit(words', f) ==> Bit(words, f))
    && (forall f: nat :: f < 64 * |words| && Bit(words, f) && !Bit(words', f) ==> HasPage(caches, f))
  }

  /** Only blocks of slabs that are gone stop being owned. */
  ghost predicate OwnedShrunk(owned: map<nat, Tag>, owned': map<nat, Tag>, caches': seq<Cache>) {
    && (forall b :: b in owned' ==> b in owned && owned'[b] == owned[b])
    && (forall b :: b in owned && b !in owned' ==> !HasPage(caches', owned[b].page))
  }

  lemma NothingShrunk(caches: seq<Cache>, words: seq<Word>, zones: seq<Zone>, pages: seq<Page>, owned: map<nat, Tag>)
    ensures Shrunk(caches, words, zones, pages, caches, words, zones, pages) && OwnedShrunk(owned, owned, caches)
  {
    hide HasPage, Bit, Owned, PagesReleased;
    NoPageMoved(words, pages);
    NothingStirred(caches);
    StayingFirsts(caches, caches);
  }

  lemma SubsetShrinks(caches: seq<Cache>, caches': seq<Cache>, words: seq<Word>, zones: seq<Zone>, pages: seq<Page>)
    requires FirstsStay(caches, caches') && forall p: nat :: HasPage(caches', p) ==> HasPage(caches, p)
    ensures Shrunk(caches, words, zones, pages, caches', words, zones, pages)
  {
    hide HasPage, Bit, Owned, FirstsStay, PagesReleased;
    NoPageMoved(words, pages);
  }

  lemma SamePagesShrink(caches: seq<Cache>, caches': seq<Cache>, words: seq<Word>, zones: seq<Zone>,
                        pages: seq<Page>, owned: map<nat, Tag>)
    requires FirstsStay(caches, caches') && forall p: nat :: HasPage(caches', p) <==> HasPage(caches, p)
    ensures Shrunk(caches, words, zones, pages, caches', words, zones, pages) && OwnedShrunk(owned, owned, caches')
  {
    hide HasPage, Bit, Owned, FirstsStay, PagesReleased;
    NoPageMoved(words, pages);
  }

  lemma ShrunkChain(c0: seq<Cache>, w0: seq<Word>, z0: seq<Zone>, p0: seq<Page>, c1: seq<Cache>, w1: seq<Word>,
                    z1: seq<Zone>, p1: seq<Page>,
                    c2: seq<Cache>, w2: seq<Word>, z2: seq<Zone>, p2: seq<Page>)
    requires Shrunk(c0, w0, z0, p0, c1, w1, z1, p1) && Shrunk(c1, w1, z1, p1, c2, w2, z2, p2)
    ensures Shrunk(c0, w0, z0, p0, c2, w2, z2, p2)
  {
    hide HasPage, Bit, SameOwners, FirstsStay, PagesReleased;
    OwnersChain(z0, z1, z2, p0, p1, p2);
    FirstsStayChain(c0, c1, c2);
    PagesReleasedChain(w0, p0, w1, p1, w2, p2);
  }

  lemma ReleaseShrinks(c0: seq<Cache>, w0: seq<Word>, z0: seq<Zone>, p0: seq<Page>, c1: seq<Cache>, w1: seq<Word>,
                       z1: seq<Zone>, p1: seq<Page>,
                       p: nat, w2: seq<Word>, z2: seq<Zone>, p2: seq<Page>)
    requires Shrunk(c0, w0, z0, p0, c1, w1, z1, p1) && HasPage(c0, p)
    requires OnlyCleared(w1, w2, p) && SameOwners(z1, z2, p1, p2) && PagesReleased(w1, p1, w2, p2)
    ensures Shrunk(c0, w0, z0, p0, c1, w2, z2, p2)
  {
    hide HasPage, Bit, SameOwners, FirstsStay, PagesReleased;
    OwnersChain(z0, z1, z2, p0, p1, p2);
    PagesReleasedChain(w0, p0, w1, p1, w2, p2);
  }

  lemma ShrunkSurvives(caches: seq<Cache>, words: seq<Word>, zones: seq<Zone>, pages: seq<Page>,
                       caches': seq<Cache>, words': seq<Word>, zones': seq<Zone>, pages': seq<Page>, p: nat)
    requires Shrunk(caches, words, zones, pages, caches', words', zones', pages')
    requires InUse(words, zones, pages, p, 1) && !HasPage(caches, p)
    ensures InUse(words', zones', pages', p, 1) && !HasPage(caches', p)
  {
    hide HasPage, Bit, Owned, PagesReleased;
    InUseAt(words, zones, pages, p, 1, p);
  }

  lemma ShrunkPages(caches: seq<Cache>, words: seq<Word>, zones: seq<Zone>, pages: seq<Page>,
                    caches': seq<Cache>, words': seq<Word>, zones': seq<Zone>, pages': seq<Page>, p: nat)
    requires Shrunk(caches, words, zones, pages, caches', words', zones', pages') && !HasPage(caches, p)
    ensures !HasPage(caches', p)
  {
    hide HasPage, Bit, SameOwners, FirstsStay, PagesReleased;
  }

  lemma ShrunkBit(caches: seq<Cache>, words: seq<Word>, zones: seq<Zone>, pages: seq<Page>,
                  caches': seq<Cache>, words': seq<Word>, zones': seq<Zone>, pages': seq<Page>, p: nat)
    requires Shrunk(caches, words, zones, pages, caches', words', zones', pages') && p < 64 * |words| && !Bit(words, p)
    ensures p < 64 * |words'| && !Bit(words', p)
  {
    hide HasPage, Bit, SameOwners, FirstsStay, PagesReleased;
  }

  // ---- slabs that go ----

  /** The slab goes when its last block is released: it is not the first one of its class, and the class
      has blocks to spare. */
  ghost predicate SpareSlab(caches: seq<Cache>, c: nat, k: nat)
    requires At(caches, c, k)
  {
    var s := caches[c].ring[k];
    k > 0 && s.usingCount == 1 && caches[c].totalFree + 1 >= s.colorCount * 3 / 2
  }

  ghost predicate Spare(caches: seq<Cache>, c: nat, page: nat) {
    exists k: nat :: At(caches, c, k) && caches[c].ring[k].page == page && SpareSlab(caches, c, k)
  }

  /** In other words: the last block in use of a slab that is not the first one, and without the slab the
      class still has half as many free blocks as a slab holds, rounded down. */
  lemma SpareLeavesHalf(caches: seq<Cache>, c: nat, k: nat)
    requires At(caches, c, k)
    ensures var cache, s := caches[c], caches[c].ring[k];
            SpareSlab(caches, c, k) <==>
              k >= 1 && s.usingCount - 1 == 0 && cache.totalFree + 1 - s.colorCount >= s.colorCount / 2
  {
  }

  lemma SpareHere(caches: seq<Cache>, c: nat, k: nat)
    requires CachesOk(caches) && At(caches, c, k)
    ensures Spare(caches, c, caches[c].ring[k].page) <==> SpareSlab(caches, c, k)
  {
    hide CacheOk, SpareSlab;
  }

  ghost predicate IsSlabAt(caches: seq<Cache>, c: nat, k: nat, page: nat) {
    At(caches, c, k) && caches[c].ring[k].page == page
  }

  /** Addresses of a slab's header and map. */
  function StructsOf(s: Slab): set<nat> {
    {s.self, s.mapAt}
  }

  lemma OnlySlab(caches: seq<Cache>, c: nat, k: nat)
    requires CachesOk(caches) && At(caches, c, k)
    ensures forall l: nat :: IsSlabAt(caches, c, l, caches[c].ring[k].page) ==> l == k
  {
    hide CacheOk;
  }

  lemma ColorsOf(c: nat, k: nat, s: Slab)
    requires c < CLASSES && SlabOk(c, k, s)
    ensures s.colorCount == Capacity(c, InPage(c, k))
  {
  }

  /** The test that `kfree` makes after its bookkeeping. */
  lemma SpareAfter(caches: seq<Cache>, caches': seq<Cache>, c: nat, k: nat)
    requires At(caches, c, k) && At(caches', c, k)
    requires var s, s' := caches[c].ring[k], caches'[c].ring[k];
             s'.usingCount == s.usingCount - 1 && s'.colorCount == s.colorCount &&
             caches'[c].totalFree == caches[c].totalFree + 1
    ensures SpareSlab(caches, c, k) <==>
              && caches'[c].ring[k].usingCount == 0 && k != 0
              && caches'[c].totalFree >= caches'[c].ring[k].colorCount * 3 / 2
  {
  }

  lemma RemovedTotals(caches: seq<Cache>, c: nat, k: nat)
    requires At(caches, c, k) && caches[c].totalFree >= caches[c].ring[k].colorCount
    ensures var r, ring := RemoveSlab(caches, c, k), caches[c].ring;
            && |r| == |caches| && r[c].totalFree == caches[c].totalFree - ring[k].colorCount
            && (forall d :: 0 <= d < |caches| && d != c ==> r[d] == caches[d])
            && |r[c].ring| == |ring| - 1
            && (forall l :: 0 <= l < k ==> r[c].ring[l] == ring[l])
            && (forall l :: k < l < |ring| ==> r[c].ring[l - 1] == ring[l])
  {
  }

  lemma RemovedKeepsFirsts(caches: seq<Cache>, c: nat, k: nat)
    requires At(caches, c, k) && k > 0 && caches[c].totalFree >= caches[c].ring[k].colorCount
    ensures FirstsStay(caches, RemoveSlab(caches, c, k))
  {
  }

  lemma UnlinkedOwned(owned: map<nat, Tag>, owned': map<nat, Tag>, caches': seq<Cache>, p: nat)
    requires forall b :: b in owned' ==> b in owned && owned'[b] == owned[b]
    requires forall b :: b in owned && b !in owned' ==> owned[b].page == p
    requires !HasPage(caches', p)
    ensures OwnedShrunk(owned, owned', caches')
  {
    hide HasPage;
  }

  // ---- facts read off the heap ----

  lemma RingsNotEmpty(caches: seq<Cache>, user: map<nat, nat>, owned: map<nat, Tag>)
    requires HeapOk(caches, user, owned)
    ensures |caches| == CLASSES && forall c :: 0 <= c < CLASSES ==> |caches[c].ring| > 0
  {
    forall c: nat | c < CLASSES
      ensures |caches[c].ring| > 0
    {
      assert CacheOk(c, caches[c]);
    }
  }

  lemma HasPageAt(caches: seq<Cache>, c: nat, k: nat)
    requires At(caches, c, k)
    ensures HasPage(caches, caches[c].ring[k].page)
  {
  }

  lemma BaseOfFrame(address: nat, p: nat)
    ensures address - address % FRAME_BYTES == p * FRAME_BYTES <==> address / FRAME_BYTES == p
  {
  }

  /** No slab's base was found: no slab has the address's frame. */
  lemma NoSlabThere(caches: seq<Cache>, user: map<nat, nat>, owned: map<nat, Tag>, address: nat)
    requires HeapOk(caches, user, owned)
    requires forall c: nat, l: nat :: At(caches, c, l) ==> caches[c].ring[l].vaddress != address - address % FRAME_BYTES
    ensures !HasPage(caches, address / FRAME_BYTES)
  {
    hide SlabCounts, PagesDistinct, StructsOwned, Holds;
    forall c: nat, l: nat | At(caches, c, l)
      ensures caches[c].ring[l].page != address / FRAME_BYTES
    {
      SlabFacts(caches, c, l);
      BaseOfFrame(address, caches[c].ring[l].page);
    }
  }

  /** A caller's block lies in one frame, which is a slab's. */
  lemma BlockFrame(caches: seq<Cache>, user: map<nat, nat>, owned: map<nat, Tag>, block: nat, address: nat)
    requires HeapOk(caches, user, owned)
    ensures block in user && user[block] < CLASSES && block <= address < block + Size(user[block]) ==>
              HasPage(caches, address / FRAME_BYTES) && block / FRAME_BYTES == address / FRAME_BYTES
  {
    hide SlabCounts, PagesDistinct, StructsOwned, Size, SlabOk;
    if block in user && user[block] < CLASSES && block <= address < block + Size(user[block]) {
      var c := user[block];
      assert Entry(user, owned, c, block);
      var k: nat :| At(caches, c, k) && Holds(c, caches[c].ring[k], block);
      var j: nat :| HoldsAt(c, caches[c].ring[k], block, j);
      SlabFacts(caches, c, k);
      BlockInFrame(c, k, caches[c].ring[k], j);
      HasPageAt(caches, c, k);
      InFrame(caches[c].ring[k].page, block);
      InFrame(caches[c].ring[k].page, address);
    }
  }

  lemma InFrame(p: nat, a: nat)
    requires p * FRAME_BYTES <= a < (p + 1) * FRAME_BYTES
    ensures a / FRAME_BYTES == p
  {
  }

  lemma HeldByHeap(caches: seq<Cache>, user: map<nat, nat>, owned: map<nat, Tag>, block: nat)
    requires HeapOk(caches, user, owned) && block in user
    ensures user[block] < CLASSES && HasPage(caches, block / FRAME_BYTES)
  {
    hide CachesOk, StructsOwned, Live, HasPage, Size;
    SomeBytes(user[block]);
    BlockFrame(caches, user, owned, block, block);
  }

  lemma SomeBytes(c: nat)
    requires c < CLASSES
    ensures Size(c) > 0
  {
  }

  lemma HeldBit(words: seq<Word>, zones: seq<Zone>, pages: seq<Page>, p: nat)
    requires InUse(words, zones, pages, p, 1)
    ensures p < 64 * |words| && Bit(words, p)
  {
    hide Bit;
    InUseAt(words, zones, pages, p, 1, p);
  }

  /** The slab that was found is the one that holds the block. */
  lemma SlabThere(caches: seq<Cache>, user: map<nat, nat>, owned: map<nat, Tag>, i: nat, k: nat, address: nat,
                  block: nat)
    requires HeapOk(caches, user, owned) && i < CLASSES && At(caches, i, k)
    requires caches[i].ring[k].vaddress == address - address % FRAME_BYTES
    requires || (block in user && user[block] < CLASSES && block <= address < block + Size(user[block]))
             || !HasPage(caches, address / FRAME_BYTES)
    ensures HasPage(caches, address / FRAME_BYTES) && caches[i].ring[k].page == address / FRAME_BYTES
    ensures block in user && user[block] == i && block <= address < block + Size(i)
    ensures Holds(i, caches[i].ring[k], block)
  {
    hide SlabCounts, PagesDistinct, StructsOwned, Holds, Live, Size;
    SlabFacts(caches, i, k);
    BaseOfFrame(address, caches[i].ring[k].page);
    HasPageAt(caches, i, k);
    BlockFrame(caches, user, owned, block, address);
    assert Entry(user, owned, user[block], block);
    LiveIsHere(caches, i, k, user[block], block);
  }

  lemma SlabPageHeld(caches: seq<Cache>, c: nat, k: nat, words: seq<Word>, zones: seq<Zone>, pages: seq<Page>)
    requires At(caches, c, k) && FramesHeld(caches, words, zones, pages)
    ensures InUse(words, zones, pages, caches[c].ring[k].page, 1)
  {
    hide InUse;
  }

  lemma StructFacts(caches: seq<Cache>, user: map<nat, nat>, owned: map<nat, Tag>, c: nat, k: nat)
    requires HeapOk(caches, user, owned) && c < CLASSES && At(caches, c, k) && k > 0
    ensures c >= FIRST_LARGE ==>
              var s := caches[c].ring[k];
              && s.self !in user && s.mapAt !in user
              && s.self in owned && owned[s.self].page == s.page && s.mapAt in owned && owned[s.mapAt].page == s.page
  {
    hide CachesOk, Live;
    if c >= FIRST_LARGE {
      assert OwnsStructs(c, caches[c].ring[k], owned);
    }
  }

  lemma IndexOfBlock(c: nat, s: Slab, a: nat, address: nat, j: nat)
    requires c < CLASSES && HoldsAt(c, s, a, j) && a <= address < a + Size(c)
    ensures address >= s.vaddress && (address - s.vaddress) / Size(c) == j
    ensures j < s.colorCount && j < 64 * |s.colorMap| && Bit(s.colorMap, j) && a == s.vaddress + Size(c) * j
  {
    hide Size, Bit;
    DivideByPower(j, Size(c), address - a);
  }

  lemma SmallSizes(c: nat)
    requires c < CLASSES && Size(c) <= 512
    ensures c < FIRST_LARGE
  {
  }

  lemma LargeSizes(c: nat)
    requires c < CLASSES && Size(c) > 512
    ensures FIRST_LARGE <= c && ClassFor(SLAB_BYTES) == 2 && ClassFor(MapBytes(c)) < 4
  {
    LargeLayout(c);
  }

  lemma MapIsSmall(c: nat)
    requires FIRST_LARGE <= c < CLASSES
    ensures MapBytes(c) <= LARGEST && ClassFor(MapBytes(c)) < 4
  {
    LargeLayout(c);
  }

  lemma HeaderClass()
    ensures ClassFor(SLAB_BYTES) == 2 && SLAB_BYTES <= LARGEST
  {
    assert ClassFor(SLAB_BYTES, 2) == 2;
  }

  lemma LargestFits(size: nat)
    requires size <= LARGEST
    ensures ClassFor(size) < CLASSES
  {
    assert Size(15) >= size;
  }

  lemma NewSlabJoinable(caches: seq<Cache>, owned: map<nat, Tag>, c: nat, s: Slab)
    requires c < CLASSES && !HasPage(caches, s.page)
    requires s == NewSlab(s.self, s.mapAt, s.page, Capacity(c, InPage(c, 1)))
    requires InPage(c, 1) ==> s.self == s.vaddress + FRAME_BYTES - StructBytes(c) && s.mapAt == s.self + SLAB_BYTES
    requires c >= FIRST_LARGE ==> OwnsStructs(c, s, owned)
    ensures Joinable(caches, owned, c, s)
  {
    NewSlabIsUnused(s.self, s.mapAt, s.page, s.colorCount);
  }

  lemma JoinableIsFree(caches: seq<Cache>, owned: map<nat, Tag>, c: nat, s: Slab)
    requires c < CLASSES && Joinable(caches, owned, c, s)
    ensures s.freeCount == s.colorCount > 0
  {
    hide Size;
    FreeWhenUnused(s);
    if c < FIRST_LARGE {
      InPageLayout(c);
    } else {
      FullLayout(c);
    }
  }

  /** How many of the two nested requests need a frame, from the blocks left in the header's class, in the
      map's class, and which class that is. */
  function NeededFor(headers: nat, maps: nat, mapClass: nat): nat {
    (if headers == 0 then 1 else 0) + (if (if mapClass == 2 then headers == 1 else maps == 0) then 1 else 0)
  }

  /** A slab for headers holds more than one. */
  lemma SecondBlock()
    ensures Capacity(2, true) >= 2
  {
  }

  lemma AppendTotals(caches: seq<Cache>, c: nat, s: Slab)
    requires c < |caches|
    ensures var r := AppendSlab(caches, c, s);
            && |r| == |caches| && r[c].totalFree == caches[c].totalFree + s.colorCount
            && forall d :: 0 <= d < |caches| && d != c ==> r[d].totalFree == caches[d].totalFree
  {
  }

  lemma HeapShape(caches: seq<Cache>, user: map<nat, nat>, owned: map<nat, Tag>, c: nat)
    requires HeapOk(caches, user, owned) && c < CLASSES
    ensures |caches| == CLASSES && CachesOk(caches) && caches[c].size == Size(c)
    ensures caches[c].totalFree == SumFree(caches[c].ring) && |caches[c].ring| > 0
  {
    assert CacheOk(c, caches[c]);
  }

  lemma SlabShape(caches: seq<Cache>, user: map<nat, nat>, owned: map<nat, Tag>, c: nat, k: nat)
    requires HeapOk(caches, user, owned) && c < CLASSES && At(caches, c, k)
    ensures |caches| == CLASSES && caches[c].size == Size(c)
    ensures var s := caches[c].ring[k];
            && SlabOk(c, k, s) && SlabCounts(s) && s.colorCount <= 64 * |s.colorMap|
            && (forall j: nat :: s.colorCount <= j < 64 * |s.colorMap| ==> Bit(s.colorMap, j))
            && s.freeCount <= caches[c].totalFree
  {
    SlabFacts(caches, c, k);
  }

  /** A slab with a free block has a clear colour: the error exit of `kmalloc` is never taken. */
  lemma ClearColorExists(s: Slab, color: Option<nat>)
    requires SlabCounts(s) && s.freeCount != 0
    requires color.None? ==> forall i: nat :: i < s.colorCount ==> Bit(s.colorMap, i)
    ensures color.Some?
  {
    ClearBitsPositive(s.colorMap, 0, s.colorCount);
  }

  lemma SameBits(a: seq<Word>, b: seq<Word>)
    requires |a| == |b| && forall j: nat :: j < 64 * |a| ==> Bit(a, j) == Bit(b, j)
    ensures a == b
  {
    forall w | 0 <= w < |a|
      ensures a[w] == b[w]
    {
      forall k | 0 <= k < 64
        ensures a[w][k] == b[w][k]
      {
        assert (64 * w + k) / 64 == w && (64 * w + k) % 64 == k;
        assert Bit(a, 64 * w + k) == Bit(b, 64 * w + k);
      }
    }
  }

  /** The words differ in bit `p` at most, which is clear in the second. */
  ghost predicate OnlyCleared(words: seq<Word>, words': seq<Word>, p: nat) {
    |words'| == |words| && forall f: nat :: f < 64 * |words| ==> Bit(words', f) == (Bit(words, f) && f != p)
  }

  lemma AllButOne(words: seq<Word>, words': seq<Word>, p: nat)
    requires OnlyCleared(words, words', p)
    ensures BitsGrew(words, words', p)
  {
  }
}
