/** The page allocator: 2 MB frames, one bit a frame, searched in 64-bit words. */
module Frames {
  import opened Options
  import opened Words

  const FRAME_BYTES: nat := 0x20_0000
  const MACHINE: nat := 0x1_0000_0000_0000_0000

  datatype PageFlag = PTableMaped | KernelInit | Device | Kernel | Shared

  /** What `zone_select` may name; every other number is refused. */
  datatype ZoneSelect = Dma | Normal | Unmaped | OtherSelect

  /** `struct Page`; `zone` is the index of the zone that owns the frame. */
  datatype Page = Page(zone: nat, phyAddress: nat, attribute: set<PageFlag>, referenceCount: nat)

  /** `struct Zone`, with its bounds in frames. */
  datatype Zone = Zone(start: nat, end: nat, usingCount: nat, freeCount: nat, totalPagesLink: nat)

  // ---- runs of clear bits ----

  ghost predicate Run(words: seq<Word>, first: nat, n: nat) {
    && first + n <= 64 * |words|
    && forall f: nat :: first <= f < first + n ==> !Bit(words, f)
  }

  /** No run of `n` frames starts in `[from, to)` and ends by the end of the zone. */
  ghost predicate NoRunIn(words: seq<Word>, z: Zone, from: nat, to: nat, n: nat) {
    forall q: nat :: from <= q < to && q + n <= z.end ==> !Run(words, q, n)
  }

  ghost predicate NoRunInZones(words: seq<Word>, zones: seq<Zone>, lo: nat, hi: nat, n: nat) {
    forall i :: lo <= i < hi && i < |zones| ==> NoRunIn(words, zones[i], zones[i].start, zones[i].end, n)
  }

  /** No run of `n` frames anywhere in the zone. */
  ghost predicate FullFor(words: seq<Word>, z: Zone, n: nat) {
    forall p: nat :: z.start <= p && p + n <= z.end ==> !Run(words, p, n)
  }

  lemma NoRunIsFull(words: seq<Word>, z: Zone, n: nat)
    requires NoRunIn(words, z, z.start, z.end, n) && n > 0
    ensures FullFor(words, z, n)
  {
    hide Run;
  }

  lemma RunBit(words: seq<Word>, first: nat, n: nat, f: nat)
    requires Run(words, first, n) && first <= f < first + n
    ensures f < 64 * |words| && !Bit(words, f)
  {
  }

  /** `p` starts the lowest run in zone `i`, and no zone of the selection before `i` has one. */
  ghost predicate IsFirstFit(words: seq<Word>, zones: seq<Zone>, lo: nat, hi: nat, n: nat, i: nat, p: nat) {
    && lo <= i < hi && i < |zones|
    && zones[i].start <= p && p + n <= zones[i].end
    && Run(words, p, n)
    && NoRunIn(words, zones[i], zones[i].start, p, n)
    && NoRunInZones(words, zones, lo, i, n)
  }

  /** The first fit is unique, so the contract below leaves the allocator no choice. */
  lemma FirstFitIsUnique(words: seq<Word>, zones: seq<Zone>, lo: nat, hi: nat, n: nat, i: nat, p: nat, i': nat, p': nat)
    requires IsFirstFit(words, zones, lo, hi, n, i, p) && IsFirstFit(words, zones, lo, hi, n, i', p') && n > 0
    ensures i == i' && p == p'
  {
  }

  /** A search that has not started has passed over nothing, and one that has left the zone has
      passed over all of it. */
  lemma EmptySearch(words: seq<Word>, z: Zone, n: nat)
    ensures NoRunIn(words, z, z.start, z.start, n)
    ensures forall j: nat :: z.end <= j && NoRunIn(words, z, z.start, j, n) ==> NoRunIn(words, z, z.start, z.end, n)
  {
  }

  lemma NoRunAt(words: seq<Word>, z: Zone, from: nat, to: nat, n: nat)
    requires NoRunIn(words, z, from, to, n) && !Run(words, to, n)
    ensures NoRunIn(words, z, from, to + 1, n)
  {
  }

  /** The two-word window read at bit `k` of word `w`. */
  function Window(words: seq<Word>, w: nat, k: nat): Word
    requires w + 1 < |words| && k < 64
  {
    if k != 0 then Or(Shr(words[w], k), Shl(words[w + 1], 64 - k)) else words[w]
  }

  /** The masked window is zero exactly when a run starts there, across the word boundary too. */
  lemma WindowIsRun(words: seq<Word>, w: nat, k: nat, n: nat)
    requires w + 1 < |words| && k < 64 && 0 < n < 64
    ensures IsZero(And(Window(words, w, k), LowMask(n))) <==> Run(words, 64 * w + k, n)
  {
    var x := Window(words, w, k);
    var m := And(x, LowMask(n));
    forall i | 0 <= i < n
      ensures m[i] == Bit(words, 64 * w + k + i)
    {
      if k + i < 64 {
        assert (64 * w + k + i) / 64 == w;
      } else {
        assert (64 * w + k + i) / 64 == w + 1;
      }
    }
    if Run(words, 64 * w + k, n) {
      assert forall i :: 0 <= i < n ==> !m[i];
      assert m == seq(64, _ => false);
    } else {
      var f: nat :| 64 * w + k <= f < 64 * w + k + n && Bit(words, f);
      assert m[f - 64 * w - k];
    }
  }

  // ---- the layout of zones ----

  ghost predicate Within(z: Zone, f: nat) {
    z.start <= f < z.end
  }

  /** Zones do not touch and do not share a 64-frame word. */
  ghost predicate Before(a: Zone, b: Zone) {
    a.end < b.start && (a.end - 1) / 64 < b.start / 64
  }

  ghost predicate ZonesSeparate(zones: seq<Zone>) {
    && (forall i :: 0 <= i < |zones| ==> zones[i].start < zones[i].end)
    && (forall i, j :: 0 <= i < |zones| && 0 <= j < |zones| && i != j ==>
                         Before(zones[i], zones[j]) || Before(zones[j], zones[i]))
  }

  ghost predicate Owned(zones: seq<Zone>, pages: seq<Page>, f: nat) {
    f < |pages| && pages[f].zone < |zones| && Within(zones[pages[f].zone], f)
  }

  /** Frames know their zone and their address; frames of no zone have their bit set. */
  ghost predicate PagesMatch(words: seq<Word>, zones: seq<Zone>, pages: seq<Page>) {
    && (forall i :: 0 <= i < |zones| ==> zones[i].end <= |pages|)
    && (forall i, f: nat :: 0 <= i < |zones| && Within(zones[i], f) && f < |pages| ==>
                              pages[f].zone == i && pages[f].phyAddress == f * FRAME_BYTES)
    && (forall f: nat :: f < 64 * |words| && !Bit(words, f) ==> Owned(zones, pages, f))
  }

  ghost predicate ZoneCounts(words: seq<Word>, zones: seq<Zone>) {
    forall i :: 0 <= i < |zones| ==>
      && zones[i].start <= zones[i].end <= 64 * |words|
      && zones[i].freeCount == ClearBits(words, zones[i].start, zones[i].end)
      && zones[i].usingCount + zones[i].freeCount == zones[i].end - zones[i].start
  }

  /** A clear run found from a word that the zone reaches stays inside the zone. */
  lemma RunStaysInZone(words: seq<Word>, zones: seq<Zone>, pages: seq<Page>, i: nat, p: nat, n: nat)
    requires ZonesSeparate(zones) && PagesMatch(words, zones, pages)
    requires i < |zones| && n > 0 && Run(words, p, n)
    requires zones[i].start <= p && p / 64 <= (zones[i].end - 1) / 64
    ensures p + n <= zones[i].end
  {
    assert !Bit(words, p) && Owned(zones, pages, p);
    var i' := pages[p].zone;
    if i' != i {
      assert Within(zones[i'], p);
      assert Before(zones[i], zones[i']) || Before(zones[i'], zones[i]);
      OrderOfWords(zones[i'].start, p);
      assert false;
    }
    if p + n > zones[i].end {
      FrameAtEndIsTaken(words, zones, pages, i);
      assert false;
    }
  }

  lemma FrameAtEndIsTaken(words: seq<Word>, zones: seq<Zone>, pages: seq<Page>, i: nat)
    requires ZonesSeparate(zones) && PagesMatch(words, zones, pages) && i < |zones|
    requires zones[i].end < 64 * |words|
    ensures Bit(words, zones[i].end)
  {
    var e := zones[i].end;
    if !Bit(words, e) {
      assert Owned(zones, pages, e);
      NoZoneAtEnd(zones, i, pages[e].zone);
    }
  }

  lemma NoZoneAtEnd(zones: seq<Zone>, i: nat, j: nat)
    requires ZonesSeparate(zones) && i < |zones| && j < |zones|
    ensures !Within(zones[j], zones[i].end)
  {
    assert i != j ==> Before(zones[i], zones[j]) || Before(zones[j], zones[i]);
  }

  lemma OrderOfWords(f: nat, g: nat)
    requires f <= g
    ensures f / 64 <= g / 64
  {
  }

  /** Setting or clearing the bit of one frame of zone `i` keeps every zone's account when zone
      `i` moves one frame between its two counters. */
  lemma CountsAfterFlip(words: seq<Word>, zones: seq<Zone>, i: nat, f: nat, z: Zone)
    requires ZonesSeparate(zones) && ZoneCounts(words, zones)
    requires i < |zones| && Within(zones[i], f) && f < 64 * |words|
    requires var d := if Bit(words, f) then 1 else -1;
             z.start == zones[i].start && z.end == zones[i].end &&
             z.freeCount == zones[i].freeCount + d && z.usingCount == zones[i].usingCount - d
    ensures ZoneCounts(WithBit(words, f, !Bit(words, f)), zones[i := z])
  {
    var words' := WithBit(words, f, !Bit(words, f));
    WithBitBits(words, f, !Bit(words, f));
    ClearBitsFlip(words, zones[i].start, zones[i].end, f, !Bit(words, f));
    forall j | 0 <= j < |zones| && j != i
      ensures ClearBits(words', zones[j].start, zones[j].end) == zones[j].freeCount
    {
      assert Before(zones[i], zones[j]) || Before(zones[j], zones[i]);
      ClearBitsFrame(words, words', zones[j].start, zones[j].end);
    }
  }

  /** One round of `free_pages`, in use or not: the bit is cleared and the counters, which are unsigned
      words, move. The accounts stay right exactly when the frame was in use. */
  lemma ReleaseKeepsCountsIffUsed(words: seq<Word>, zones: seq<Zone>, i: nat, f: nat)
    requires ZonesSeparate(zones) && ZoneCounts(words, zones)
    requires i < |zones| && Within(zones[i], f) && f < 64 * |words| < MACHINE
    ensures var z := zones[i].(usingCount := (zones[i].usingCount + MACHINE - 1) % MACHINE,
                               freeCount := (zones[i].freeCount + 1) % MACHINE);
            ZoneCounts(WithBit(words, f, false), zones[i := z]) <==> Bit(words, f)
  {
    hide Bit, ClearBits, ZonesSeparate;
    var z, words' := zones[i], WithBit(words, f, false);
    var z' := z.(usingCount := (z.usingCount + MACHINE - 1) % MACHINE, freeCount := (z.freeCount + 1) % MACHINE);
    if Bit(words, f) {
      ClearBitsFlip(words, z.start, z.end, f, false);
      assert z' == z.(usingCount := z.usingCount - 1, freeCount := z.freeCount + 1);
      CountsAfterFlip(words, zones, i, f, z');
    } else {
      WithBitBits(words, f, false);
      ClearBitsFrame(words, words', z.start, z.end);
      assert zones[i := z'][i].freeCount != ClearBits(words', z.start, z.end);
    }
  }

  lemma SetBitLeavesOneUsed(words: seq<Word>, zones: seq<Zone>, i: nat, f: nat)
    requires ZoneCounts(words, zones) && i < |zones| && Within(zones[i], f)
    requires f < 64 * |words| && Bit(words, f)
    ensures zones[i].usingCount > 0
  {
    ClearBitsSplit(words, zones[i].start, f, zones[i].end);
    ClearBitsSplit(words, f, f + 1, zones[i].end);
    assert ClearBits(words, f, f + 1) == 0;
  }

  /** What holds of the three tables in every state. The word after the last one that maps a
      frame is all ones: the search reads one word past the one it is looking at. */
  ghost predicate Tables(words: seq<Word>, zones: seq<Zone>, pages: seq<Page>) {
    && 0 < |words| && words[|words| - 1] == Ones()
    && |pages| <= 64 * (|words| - 1)
    && ZonesSeparate(zones) && PagesMatch(words, zones, pages) && ZoneCounts(words, zones)
  }

  /** Zone bounds, page ownership, reference counts and link counts are the same. */
  ghost predicate SameLayout(zones: seq<Zone>, zones': seq<Zone>, pages: seq<Page>, pages': seq<Page>) {
    && |zones| == |zones'| && |pages| == |pages'|
    && (forall i :: 0 <= i < |zones| ==> SameZone(zones[i], zones'[i]))
    && (forall f :: 0 <= f < |pages| ==> SamePage(pages[f], pages'[f]))
  }

  predicate SameZone(z: Zone, z': Zone) {
    z.start == z'.start && z.end == z'.end && z.totalPagesLink == z'.totalPagesLink
  }

  predicate SamePage(p: Page, p': Page) {
    p.zone == p'.zone && p.phyAddress == p'.phyAddress && p.referenceCount == p'.referenceCount
  }

  /** A zone whose free counter is below `n` has no run of `n` frames: the zone may be skipped. */
  lemma FewClearBits(words: seq<Word>, zones: seq<Zone>, i: nat, n: nat)
    requires ZoneCounts(words, zones) && i < |zones| && zones[i].freeCount < n
    ensures NoRunIn(words, zones[i], zones[i].start, zones[i].end, n)
  {
    forall q: nat | zones[i].start <= q < zones[i].end && q + n <= zones[i].end
      ensures !Run(words, q, n)
    {
      if Run(words, q, n) {
        RunNeedsClearBits(words, zones[i].start, zones[i].end, q, n);
      }
    }
  }

  lemma LayoutChain(a: seq<Zone>, b: seq<Zone>, c: seq<Zone>, p: seq<Page>, q: seq<Page>, r: seq<Page>)
    requires SameLayout(a, b, p, q) && SameLayout(b, c, q, r)
    ensures SameLayout(a, c, p, r)
  {
    forall i | 0 <= i < |a|
      ensures SameZone(a[i], c[i])
    {
      assert SameZone(a[i], b[i]) && SameZone(b[i], c[i]);
    }
    forall f | 0 <= f < |p|
      ensures SamePage(p[f], r[f])
    {
      assert SamePage(p[f], q[f]) && SamePage(q[f], r[f]);
    }
  }

  /** The references to the pages of zone `i`. */
  ghost function References(pages: seq<Page>, i: nat): nat {
    if pages == [] then 0
    else References(pages[..|pages| - 1], i) +
         if pages[|pages| - 1].zone == i then pages[|pages| - 1].referenceCount else 0
  }

  /** Equal as machine words. */
  ghost predicate SameWordOf(a: int, b: int) {
    a % MACHINE == b % MACHINE
  }

  /** The link count of every zone moves with the references to its pages. */
  ghost predicate LinksFollow(zones: seq<Zone>, zones': seq<Zone>, pages: seq<Page>, pages': seq<Page>) {
    && |zones| == |zones'| && |pages| == |pages'|
    && forall i :: 0 <= i < |zones| ==>
         SameWordOf(zones'[i].totalPagesLink - References(pages', i), zones[i].totalPagesLink - References(pages, i))
  }

  /** Frames belong to the zones that they belonged to, and the links follow the references. */
  ghost predicate SameOwners(zones: seq<Zone>, zones': seq<Zone>, pages: seq<Page>, pages': seq<Page>) {
    && LinksFollow(zones, zones', pages, pages')
    && forall f: nat :: Owned(zones, pages, f) <==> Owned(zones', pages', f)
  }

  lemma {:induction false} ReferencesAfter(pages: seq<Page>, f: nat, page: Page, i: nat)
    requires f < |pages| && page.zone == pages[f].zone
    ensures References(pages[f := page], i) ==
            References(pages, i) + if page.zone == i then page.referenceCount - pages[f].referenceCount else 0
  {
    var k := |pages| - 1;
    if f < k {
      assert pages[f := page][..k] == pages[..k][f := page];
      ReferencesAfter(pages[..k], f, page, i);
    } else {
      assert pages[f := page][..k] == pages[..k];
    }
  }

  lemma {:induction false} SameReferences(pages: seq<Page>, pages': seq<Page>, i: nat)
    requires |pages| == |pages'| && forall f :: 0 <= f < |pages| ==> SamePage(pages[f], pages'[f])
    ensures References(pages', i) == References(pages, i)
  {
    if pages != [] {
      var k := |pages| - 1;
      assert SamePage(pages[k], pages'[k]);
      SameReferences(pages[..k], pages'[..k], i);
    }
  }

  lemma SameWordShift(a: int, b: int, d: int)
    requires SameWordOf(a, b)
    ensures SameWordOf(a + d, b + d)
  {
    assert a + d == MACHINE * (a / MACHINE) + (a % MACHINE + d);
    assert b + d == MACHINE * (b / MACHINE) + (b % MACHINE + d);
  }

  /** Two words that move by the same amount keep their distance. */
  lemma SameWordStep(a: nat, b: nat, d: nat)
    ensures SameWordOf((a + d) % MACHINE - (b + d) % MACHINE, a - b)
  {
    var x, y := (a + d) / MACHINE, (b + d) / MACHINE;
    assert (a + d) % MACHINE - (b + d) % MACHINE == a - b + MACHINE * (y - x);
  }

  /** `page_init` and `page_clean` move no frame between the counters of a zone, and the link count by as
      much as the references. */
  lemma LinkKeepsOwners(zones: seq<Zone>, pages: seq<Page>, f: nat, page: Page, z: Zone)
    requires Owned(zones, pages, f) && page.zone == pages[f].zone
    requires z == zones[page.zone].(totalPagesLink := z.totalPagesLink)
    requires SameWordOf(z.totalPagesLink - page.referenceCount,
                        zones[page.zone].totalPagesLink - pages[f].referenceCount)
    ensures SameOwners(zones, zones[page.zone := z], pages, pages[f := page])
    ensures forall i :: 0 <= i < |zones| ==> zones[page.zone := z][i].freeCount == zones[i].freeCount
  {
    hide SameWordOf;
    var zones', pages' := zones[page.zone := z], pages[f := page];
    forall i | 0 <= i < |zones|
      ensures SameWordOf(zones'[i].totalPagesLink - References(pages', i),
                         zones[i].totalPagesLink - References(pages, i))
    {
      ReferencesAfter(pages, f, page, i);
      SameWordShift(z.totalPagesLink - page.referenceCount,
                    zones[page.zone].totalPagesLink - pages[f].referenceCount,
                    pages[f].referenceCount - References(pages, i));
      SameWordSelf(zones[i].totalPagesLink - References(pages, i));
    }
  }

  lemma SameWordSelf(a: int)
    ensures SameWordOf(a, a)
  {
  }

  lemma LayoutFacts(zones: seq<Zone>, zones': seq<Zone>, pages: seq<Page>, pages': seq<Page>)
    requires SameLayout(zones, zones', pages, pages')
    ensures |zones| == |zones'| && |pages| == |pages'|
    ensures SameOwners(zones, zones', pages, pages')
    ensures forall i :: 0 <= i < |zones| ==> SameZone(zones[i], zones'[i])
  {
    forall f: nat
      ensures Owned(zones, pages, f) <==> Owned(zones', pages', f)
    {
      if f < |pages| {
        assert SamePage(pages[f], pages'[f]);
      }
    }
    forall i: nat | i < |zones|
      ensures SameWordOf(zones'[i].totalPagesLink - References(pages', i),
                         zones[i].totalPagesLink - References(pages, i))
    {
      SameReferences(pages, pages', i);
      assert SameZone(zones[i], zones'[i]);
    }
  }

  lemma TablesParts(words: seq<Word>, zones: seq<Zone>, pages: seq<Page>)
    requires Tables(words, zones, pages)
    ensures ZonesSeparate(zones) && PagesMatch(words, zones, pages) && ZoneCounts(words, zones)
  {
  }

  lemma FrameBounds(words: seq<Word>, zones: seq<Zone>, pages: seq<Page>, i: nat, f: nat)
    requires Tables(words, zones, pages) && i < |zones| && f <= zones[i].end
    ensures f <= |pages| && f <= 64 * |words|
    ensures f > 0 ==> (f - 1) / 64 + 1 < |words|
  {
  }

  /** The bits of a word from the one of frame `j` on belong to frames of that same word. */
  lemma SameWord(j: nat, k: nat, end: nat)
    requires j % 64 <= k < 64 && j < end
    ensures 64 * (j / 64) + k == j + k - j % 64
    ensures (j + k - j % 64) / 64 <= (end - 1) / 64
  {
  }

  lemma FrameFacts(words: seq<Word>, zones: seq<Zone>, pages: seq<Page>, i: nat, f: nat)
    requires Tables(words, zones, pages) && i < |zones| && Within(zones[i], f)
    ensures f < |pages| && f < 64 * |words|
    ensures pages[f].zone == i && pages[f].phyAddress == f * FRAME_BYTES
    ensures Bit(words, f) ==> zones[i].usingCount > 0
    ensures !Bit(words, f) ==> zones[i].freeCount > 0
  {
    if Bit(words, f) {
      SetBitLeavesOneUsed(words, zones, i, f);
    } else {
      RunNeedsClearBits(words, zones[i].start, zones[i].end, f, 1);
    }
  }

  /** Flipping the bit of a frame of zone `i`, with the zone's counters, keeps the tables. */
  lemma FlipKeepsTables(words: seq<Word>, zones: seq<Zone>, pages: seq<Page>, i: nat, f: nat, z: Zone, page: Page)
    requires Tables(words, zones, pages) && i < |zones| && Within(zones[i], f)
    requires f < |pages| && f < 64 * |words|
    requires var d := if Bit(words, f) then 1 else -1;
             zones[i].usingCount - d >= 0 && zones[i].freeCount + d >= 0 &&
             z == zones[i].(freeCount := zones[i].freeCount + d, usingCount := zones[i].usingCount - d)
    requires SamePage(pages[f], page)
    ensures Tables(WithBit(words, f, !Bit(words, f)), zones[i := z], pages[f := page])
    ensures SameLayout(zones, zones[i := z], pages, pages[f := page])
  {
    hide WithBit, ZoneCounts, PagesMatch;
    PageOfFrame(words, zones, pages, i, f);
    GuardStays(words, f, !Bit(words, f));
    CountsAfterFlip(words, zones, i, f, z);
    ZoneSwapKeepsMatch(words, zones, pages, i, z);
    PageSwapKeepsMatch(words, zones[i := z], pages, f, page);
  }

  lemma PageOfFrame(words: seq<Word>, zones: seq<Zone>, pages: seq<Page>, i: nat, f: nat)
    requires PagesMatch(words, zones, pages) && i < |zones| && Within(zones[i], f)
    ensures f < |pages| && pages[f].zone == i && pages[f].phyAddress == f * FRAME_BYTES
  {
  }

  lemma GuardStays(words: seq<Word>, f: nat, b: bool)
    requires f < 64 * |words| && f / 64 < |words| - 1
    ensures WithBit(words, f, b)[|words| - 1] == words[|words| - 1]
  {
  }

  lemma ZoneSwapKeepsMatch(words: seq<Word>, zones: seq<Zone>, pages: seq<Page>, i: nat, z: Zone)
    requires PagesMatch(words, zones, pages) && i < |zones|
    requires z.start == zones[i].start && z.end == zones[i].end
    ensures PagesMatch(words, zones[i := z], pages)
  {
    forall g: nat | g < 64 * |words| && !Bit(words, g)
      ensures Owned(zones[i := z], pages, g)
    {
      assert Owned(zones, pages, g);
    }
  }

  lemma PageSwapKeepsMatch(words: seq<Word>, zones: seq<Zone>, pages: seq<Page>, f: nat, page: Page)
    requires PagesMatch(words, zones, pages) && Owned(zones, pages, f) && f < 64 * |words|
    requires SamePage(pages[f], page) || (page.zone == pages[f].zone && page.phyAddress == pages[f].phyAddress)
    ensures PagesMatch(words, zones, pages[f := page])
    ensures PagesMatch(WithBit(words, f, !Bit(words, f)), zones, pages[f := page])
  {
    WithBitBits(words, f, !Bit(words, f));
    forall g: nat | g < 64 * |words| && (g == f || !Bit(words, g))
      ensures Owned(zones, pages[f := page], g)
    {
      assert Owned(zones, pages, g);
    }
  }

  /** Changing the reference count and the attributes of a page, and the link count of its zone. */
  lemma LinkKeepsTables(words: seq<Word>, zones: seq<Zone>, pages: seq<Page>, f: nat, page: Page, z: Zone)
    requires Tables(words, zones, pages) && Owned(zones, pages, f)
    requires page.zone == pages[f].zone && page.phyAddress == pages[f].phyAddress
    requires z == zones[page.zone].(totalPagesLink := z.totalPagesLink)
    ensures Tables(words, zones[page.zone := z], pages[f := page])
  {
    PageSwapKeepsMatch(words, zones, pages, f, page);
    ZoneSwapKeepsMatch(words, zones, pages[f := page], page.zone, z);
  }

  /** A stretch of frames marked or released, one bit after the other. */
  function WithRun(words: seq<Word>, first: nat, n: nat, b: bool): (r: seq<Word>)
    requires first + n <= 64 * |words|
    ensures |r| == |words|
  {
    if n == 0 then words else WithBit(WithRun(words, first, n - 1, b), first + n - 1, b)
  }

  function WithAttribute(pages: seq<Page>, first: nat, n: nat, attribute: set<PageFlag>): (r: seq<Page>)
    requires first + n <= |pages|
    ensures |r| == |pages|
  {
    if n == 0 then pages
    else
      var before := WithAttribute(pages, first, n - 1, attribute);
      before[first + n - 1 := before[first + n - 1].(attribute := attribute)]
  }

  /** Exactly the bits of the stretch change. */
  lemma {:induction false} WithRunBits(words: seq<Word>, first: nat, n: nat, b: bool)
    requires first + n <= 64 * |words|
    ensures forall f: nat :: f < 64 * |words| ==>
              Bit(WithRun(words, first, n, b), f) == if first <= f < first + n then b else Bit(words, f)
  {
    if n > 0 {
      WithRunBits(words, first, n - 1, b);
      WithBitBits(WithRun(words, first, n - 1, b), first + n - 1, b);
    }
  }

  /** Exactly the attributes of the stretch change, and nothing else of any page. */
  lemma {:induction false} WithAttributePages(pages: seq<Page>, first: nat, n: nat, attribute: set<PageFlag>)
    requires first + n <= |pages|
    ensures forall f :: 0 <= f < |pages| ==>
              WithAttribute(pages, first, n, attribute)[f] ==
              if first <= f < first + n then pages[f].(attribute := attribute) else pages[f]
  {
    if n > 0 {
      WithAttributePages(pages, first, n - 1, attribute);
    }
  }

  /** Marking a free stretch and releasing it again restores the bitmap. */
  lemma ReleaseUndoesMark(words: seq<Word>, first: nat, n: nat)
    requires Run(words, first, n)
    ensures WithRun(WithRun(words, first, n, true), first, n, false) == words
  {
    var marked := WithRun(words, first, n, true);
    var r := WithRun(marked, first, n, false);
    WithRunBits(words, first, n, true);
    WithRunBits(marked, first, n, false);
    forall w | 0 <= w < |words|
      ensures r[w] == words[w]
    {
      forall k | 0 <= k < 64
        ensures r[w][k] == words[w][k]
      {
        var f := 64 * w + k;
        assert f / 64 == w && f % 64 == k;
        assert Bit(r, f) == Bit(words, f);
      }
    }
  }

  /** Frames that a caller may release: they belong to zones and their bits are set. */
  ghost predicate InUse(words: seq<Word>, zones: seq<Zone>, pages: seq<Page>, first: nat, n: nat) {
    && first + n <= 64 * |words| && first + n <= |pages|
    && forall f: nat :: first <= f < first + n ==> Owned(zones, pages, f) && Bit(words, f)
  }

  lemma InUseAt(words: seq<Word>, zones: seq<Zone>, pages: seq<Page>, first: nat, n: nat, f: nat)
    requires InUse(words, zones, pages, first, n) && first <= f < first + n
    ensures f < 64 * |words| && f < |pages| && Owned(zones, pages, f) && Bit(words, f)
  {
  }

  /** Zone `i` after `n` of its free frames went into use. */
  function MoveFrames(zones: seq<Zone>, i: nat, n: nat): seq<Zone>
    requires i < |zones|
  {
    var z := zones[i];
    zones[i := z.(usingCount := z.usingCount + n, freeCount := if n <= z.freeCount then z.freeCount - n else 0)]
  }

  /** The tables after `n` rounds of a marking or a releasing loop that starts at frame `first`. */
  ghost predicate After(words: seq<Word>, zones: seq<Zone>, pages: seq<Page>, first: nat, n: nat, b: bool,
                        attribute: set<PageFlag>,
                        words': seq<Word>, zones': seq<Zone>, pages': seq<Page>) {
    && first + n <= 64 * |words| && first + n <= |pages|
    && words' == WithRun(words, first, n, b)
    && pages' == WithAttribute(pages, first, n, attribute)
    && SameLayout(zones, zones', pages, pages')
  }

  /** Bit by bit and page by page. */
  lemma AfterMeans(words: seq<Word>, zones: seq<Zone>, pages: seq<Page>, first: nat, n: nat, b: bool,
                   attribute: set<PageFlag>,
                   words': seq<Word>, zones': seq<Zone>, pages': seq<Page>)
    requires After(words, zones, pages, first, n, b, attribute, words', zones', pages')
    ensures |words'| == |words| && |pages'| == |pages| && first + n <= |pages|
    ensures forall f: nat :: f < 64 * |words| ==>
              (Bit(words', f) <==> if first <= f < first + n then b else Bit(words, f))
    ensures forall f :: 0 <= f < |pages| ==>
              pages'[f] == if first <= f < first + n then pages[f].(attribute := attribute) else pages[f]
  {
    WithRunBits(words, first, n, b);
    WithAttributePages(pages, first, n, attribute);
  }

  lemma AfterNone(words: seq<Word>, zones: seq<Zone>, pages: seq<Page>, first: nat, b: bool, attribute: set<PageFlag>)
    requires first <= 64 * |words| && first <= |pages|
    ensures After(words, zones, pages, first, 0, b, attribute, words, zones, pages)
  {
  }

  /** The next frame still has the bit it had at the start, in the zone it had at the start. */
  lemma AfterNext(words: seq<Word>, zones: seq<Zone>, pages: seq<Page>, first: nat, n: nat, b: bool,
                  attribute: set<PageFlag>,
                  words': seq<Word>, zones': seq<Zone>, pages': seq<Page>)
    requires After(words, zones, pages, first, n, b, attribute, words', zones', pages')
    requires first + n < 64 * |words|
    ensures |words'| == |words| && Bit(words', first + n) == Bit(words, first + n)
    ensures Owned(zones, pages, first + n) ==> Owned(zones', pages', first + n)
    ensures |zones'| == |zones| && forall i :: 0 <= i < |zones| ==> SameZone(zones[i], zones'[i])
  {
    WithRunBits(words, first, n, b);
    LayoutFacts(zones, zones', pages, pages');
  }

  lemma AfterStep(words: seq<Word>, zones: seq<Zone>, pages: seq<Page>, first: nat, n: nat, b: bool,
                  attribute: set<PageFlag>,
                  words': seq<Word>, zones': seq<Zone>, pages': seq<Page>, zones'': seq<Zone>, pages'': seq<Page>)
    requires After(words, zones, pages, first, n, b, attribute, words', zones', pages')
    requires first + n < 64 * |words'| && first + n < |pages'|
    requires pages'' == pages'[first + n := pages'[first + n].(attribute := attribute)]
    requires SameLayout(zones', zones'', pages', pages'')
    ensures After(words, zones, pages, first, n + 1, b, attribute, WithBit(words', first + n, b), zones'', pages'')
  {
    hide SameLayout;
    LayoutChain(zones, zones', zones'', pages, pages', pages'');
  }

  class FrameAllocator {
    const bitsMap: array<Word>
    const pages: array<Page>
    const zones: array<Zone>
    const dmaIndex: nat
    const normalIndex: nat
    const unmapedIndex: nat

    /** Starts from the tables that the boot code has filled in. */
    constructor (words: seq<Word>, pageTable: seq<Page>, zoneTable: seq<Zone>, dma: nat, normal: nat, unmaped: nat)
      requires dma < |zoneTable| && normal < |zoneTable| && unmaped < |zoneTable|
      requires Tables(words, zoneTable, pageTable)
      ensures Valid() && fresh(bitsMap) && fresh(pages) && fresh(zones)
      ensures bitsMap[..] == words && pages[..] == pageTable && zones[..] == zoneTable
      ensures dmaIndex == dma && normalIndex == normal && unmapedIndex == unmaped
    {
      hide Tables;
      bitsMap := new Word[|words|](i requires 0 <= i < |words| => words[i]);
      pages := new Page[|pageTable|](i requires 0 <= i < |pageTable| => pageTable[i]);
      zones := new Zone[|zoneTable|](i requires 0 <= i < |zoneTable| => zoneTable[i]);
      dmaIndex, normalIndex, unmapedIndex := dma, normal, unmaped;
      new;
      assert bitsMap[..] == words && pages[..] == pageTable && zones[..] == zoneTable;
    }

    ghost predicate Valid()
      reads bitsMap, zones, pages
    {
      && dmaIndex < zones.Length && normalIndex < zones.Length && unmapedIndex < zones.Length
      && Tables(bitsMap[..], zones[..], pages[..])
    }

    /** The zones `[lo, hi)` that a selection names. */
    function Selection(select: ZoneSelect): (nat, nat)
      reads bitsMap, zones, pages
      requires zones.Length > 0
    {
      match select
      case Dma => (0, dmaIndex + 1)
      case Normal => (dmaIndex, normalIndex + 1)
      case Unmaped => (unmapedIndex, zones.Length)
      case OtherSelect => (0, 0)
    }

    ghost predicate Used(f: nat)
      reads bitsMap, zones, pages
      requires f < 64 * bitsMap.Length
    {
      Bit(bitsMap[..], f)
    }

    /** Round `l` of the marking loop of `alloc_pages`, which started on the given tables. */
    method TakeFrame(i: nat, page: nat, l: nat, attribute: set<PageFlag>,
                     ghost words: seq<Word>, ghost zs: seq<Zone>, ghost ps: seq<Page>)
      requires Valid() && i < |zs| && zones[..] == MoveFrames(zs, i, l)
      requires After(words, zs, ps, page, l, true, attribute, bitsMap[..], zones[..], pages[..])
      requires page + l < 64 * bitsMap.Length && Within(zones[i], page + l) && !Used(page + l)
      modifies bitsMap, zones, pages
      ensures Valid() && zones[..] == MoveFrames(zs, i, l + 1)
      ensures After(words, zs, ps, page, l + 1, true, attribute, bitsMap[..], zones[..], pages[..])
    {
      hide Tables, SameLayout, After;
      ghost var words', zs', ps' := bitsMap[..], zones[..], pages[..];
      var f := page + l;
      FrameFacts(words', zs', ps', i, f);
      var bit := pages[f].phyAddress / FRAME_BYTES;
      assert bit == f;
      BitOperators(bitsMap[bit / 64], bit % 64);
      bitsMap[bit / 64] := Or(bitsMap[bit / 64], Single(bit % 64));
      zones[i] := zones[i].(usingCount := zones[i].usingCount + 1, freeCount := zones[i].freeCount - 1);
      pages[f] := pages[f].(attribute := attribute);
      assert bitsMap[..] == WithBit(words', f, true);
      assert zones[..] == zs'[i := zones[i]] && pages[..] == ps'[f := pages[f]];
      FlipKeepsTables(words', zs', ps', i, f, zones[i], pages[f]);
      AfterStep(words, zs, ps, page, l, true, attribute, words', zs', ps', zones[..], pages[..]);
    }

    /** Round `l` of the loop of `free_pages`, which started on the given tables. */
    method DropFrame(page: nat, l: nat, ghost words: seq<Word>, ghost zs: seq<Zone>, ghost ps: seq<Page>)
      requires Valid() && After(words, zs, ps, page, l, false, {}, bitsMap[..], zones[..], pages[..])
      requires Owned(zones[..], pages[..], page + l) && page + l < 64 * bitsMap.Length && Used(page + l)
      modifies bitsMap, zones, pages
      ensures Valid() && After(words, zs, ps, page, l + 1, false, {}, bitsMap[..], zones[..], pages[..])
    {
      hide Tables, SameLayout, After;
      ghost var words', zs', ps' := bitsMap[..], zones[..], pages[..];
      var f := page + l;
      var i := pages[f].zone;
      FrameFacts(words', zs', ps', i, f);
      var bit := pages[f].phyAddress / FRAME_BYTES;
      assert bit == f;
      BitOperators(bitsMap[bit / 64], bit % 64);
      bitsMap[bit / 64] := And(bitsMap[bit / 64], Not(Single(bit % 64)));
      zones[i] := zones[i].(usingCount := zones[i].usingCount - 1, freeCount := zones[i].freeCount + 1);
      pages[f] := pages[f].(attribute := {});
      assert bitsMap[..] == WithBit(words', f, false);
      assert zones[..] == zs'[i := zones[i]] && pages[..] == ps'[f := pages[f]];
      FlipKeepsTables(words', zs', ps', i, f, zones[i], pages[f]);
      AfterStep(words, zs, ps, page, l, false, {}, words', zs', ps', zones[..], pages[..]);
    }

    /** `alloc_pages`: the lowest run in the first selected zone that has one, or nothing when no
        selected zone has one. */
    method AllocPages(select: ZoneSelect, number: int) returns (page: Option<nat>)
      requires Valid()
      modifies bitsMap, zones, pages
      ensures Valid()
      ensures page.None? ==>
                bitsMap[..] == old(bitsMap[..]) && zones[..] == old(zones[..]) && pages[..] == old(pages[..])
      ensures number <= 0 || number >= 64 || select.OtherSelect? ==> page.None?
      ensures page.None? && 0 < number < 64 ==>
                NoRunInZones(old(bitsMap[..]), old(zones[..]), Selection(select).0, Selection(select).1, number)
      ensures page.Some? ==> Taken(old(bitsMap[..]), old(zones[..]), old(pages[..]), select, number, page.value)
      ensures page.None? && 0 < number < 64 && select.Dma? ==>
                forall i :: 0 <= i <= dmaIndex ==> FullFor(old(bitsMap[..]), old(zones[..])[i], number)
      ensures page.None? && 0 < number < 64 && select.Normal? ==>
                forall i :: dmaIndex <= i <= normalIndex ==> FullFor(old(bitsMap[..]), old(zones[..])[i], number)
      ensures page.None? && 0 < number < 64 && select.Unmaped? ==>
                forall i :: unmapedIndex <= i < zones.Length ==> FullFor(old(bitsMap[..]), old(zones[..])[i], number)
      ensures page.Some? ==>
                var p, z := page.value, if page.value < pages.Length then old(pages[..])[page.value].zone
                    else zones.Length;
                && p + number <= pages.Length && z < zones.Length
                && (select.Dma? ==> 0 <= z <= dmaIndex) && (select.Normal? ==> dmaIndex <= z <= normalIndex)
                && (select.Unmaped? ==> unmapedIndex <= z)
      ensures page.Some? ==>
                && (forall f: nat :: f < 64 * bitsMap.Length ==>
                      (Bit(bitsMap[..], f) <==> old(Bit(bitsMap[..], f)) || page.value <= f < page.value + number))
                && (forall f :: 0 <= f < pages.Length ==>
                      pages[..][f] == if page.value <= f < page.value + number
                                      then old(pages[..])[f].(attribute := if select.Unmaped? then {}
                                                              else {PTableMaped})
                                      else old(pages[..])[f])
    {
      hide Tables, After, Run, NoRunIn, FullFor;
      if number >= 64 || number <= 0 {
        return None;
      }
      var attribute := if select.Unmaped? then {} else {PTableMaped};
      var (lo, hi) := Selection(select);
      ghost var words, zs, ps := bitsMap[..], zones[..], pages[..];
      var i := lo;
      while i < hi
        invariant lo <= i
        invariant Valid() && bitsMap[..] == words && zones[..] == zs && pages[..] == ps
        invariant NoRunInZones(words, zs, lo, i, number)
      {
        page := SearchZone(i, number);
        if page.Some? {
          FrameBounds(words, zs, ps, i, page.value + number);
          MarkRun(i, page.value, number, attribute);
          assert IsFirstFit(words, zs, lo, hi, number, i, page.value);
          FrameFacts(words, zs, ps, i, page.value);
          AfterMeans(words, zs, ps, page.value, number, true, attribute, bitsMap[..], zones[..], pages[..]);
          return;
        }
        i := i + 1;
      }
      forall j | lo <= j < hi && j < |zs|
        ensures FullFor(words, zs[j], number)
      {
        NoRunIsFull(words, zs[j], number);
      }
      return None;
    }

    /** The new state after a successful search. */
    ghost predicate Taken(words: seq<Word>, zs: seq<Zone>, ps: seq<Page>, select: ZoneSelect, number: int, page: nat)
      reads bitsMap, zones, pages
      requires zones.Length > 0
    {
      && 0 < number
      && After(words, zs, ps, page, number, true, if select.Unmaped? then {} else {PTableMaped},
               bitsMap[..], zones[..], pages[..])
      && exists i: nat :: IsFirstFit(words, zs, Selection(select).0, Selection(select).1, number, i, page)
                       && zones[..] == MoveFrames(zs, i, number)
    }

    /** The search of one zone. */
    method SearchZone(i: nat, number: nat) returns (page: Option<nat>)
      requires Valid() && i < zones.Length && 0 < number < 64
      ensures page.None? ==> NoRunIn(bitsMap[..], zones[i], zones[i].start, zones[i].end, number)
      ensures page.Some? ==>
                && zones[i].start <= page.value && page.value + number <= zones[i].end
                && Run(bitsMap[..], page.value, number)
                && NoRunIn(bitsMap[..], zones[i], zones[i].start, page.value, number)
    {
      hide Tables, NoRunIn, Run, ZonesSeparate, PagesMatch, ZoneCounts;
      ghost var words := bitsMap[..];
      TablesParts(words, zones[..], pages[..]);
      var z := zones[i];
      if z.freeCount < number {
        FewClearBits(words, zones[..], i, number);
        return None;
      }
      EmptySearch(words, z, number);
      var tmp := 64 - z.start % 64;
      var j := z.start;
      while j < z.end
        invariant z.start <= j && (j == z.start || j % 64 == 0)
        invariant NoRunIn(words, z, z.start, j, number)
        decreases z.end - j
      {
        page := SearchWord(i, j, number);
        if page.Some? {
          return;
        }
        j := j + if j % 64 != 0 then tmp else 64;
      }
      return None;
    }

    /** The search of one word, from the bit of frame `j` on. */
    method SearchWord(i: nat, j: nat, number: nat) returns (page: Option<nat>)
      requires Valid() && i < zones.Length && 0 < number < 64
      requires Within(zones[i], j)
      requires NoRunIn(bitsMap[..], zones[i], zones[i].start, j, number)
      ensures page.None? ==> NoRunIn(bitsMap[..], zones[i], zones[i].start, j + 64 - j % 64, number)
      ensures page.Some? ==>
                && zones[i].start <= page.value && page.value + number <= zones[i].end
                && Run(bitsMap[..], page.value, number)
                && NoRunIn(bitsMap[..], zones[i], zones[i].start, page.value, number)
    {
      hide Tables, Run, NoRunIn, ZonesSeparate, PagesMatch, ZoneCounts, And, Or, Shr, Shl, LowMask, IsZero;
      ghost var words, zs, ps := bitsMap[..], zones[..], pages[..];
      FrameBounds(words, zs, ps, i, j + 1);
      TablesParts(words, zs, ps);
      var z := zones[i];
      var p := j / 64;
      var shift := j % 64;
      for k := shift to 64
        invariant NoRunIn(words, z, z.start, j + k - shift, number)
      {
        WindowIsRun(words, p, k, number);
        assert 64 * p + k == j + k - shift;
        if IsZero(And(if k != 0 then Or(Shr(bitsMap[p], k), Shl(bitsMap[p + 1], 64 - k)) else bitsMap[p],
                      LowMask(number))) {
          page := Some(j + k - shift);
          SameWord(j, k, z.end);
          RunStaysInZone(words, zs, ps, i, page.value, number);
          return;
        }
        NoRunAt(words, z, z.start, j + k - shift, number);
      }
      return None;
    }

    /** The marking loop of `alloc_pages`. */
    method MarkRun(i: nat, page: nat, number: nat, attribute: set<PageFlag>)
      requires Valid() && i < zones.Length && number > 0
      requires page + number <= 64 * bitsMap.Length && page + number <= pages.Length
      requires zones[i].start <= page && page + number <= zones[i].end && Run(bitsMap[..], page, number)
      modifies bitsMap, zones, pages
      ensures Valid() && zones[..] == MoveFrames(old(zones[..]), i, number)
      ensures After(old(bitsMap[..]), old(zones[..]), old(pages[..]), page, number, true, attribute,
                    bitsMap[..], zones[..], pages[..])
    {
      hide Tables, After, Run, WithBit, SameLayout;
      ghost var words, zs, ps := bitsMap[..], zones[..], pages[..];
      AfterNone(words, zs, ps, page, true, attribute);
      for l := 0 to number
        invariant Valid() && zones[..] == MoveFrames(zs, i, l)
        invariant After(words, zs, ps, page, l, true, attribute, bitsMap[..], zones[..], pages[..])
      {
        RunBit(words, page, number, page + l);
        AfterNext(words, zs, ps, page, l, true, attribute, bitsMap[..], zones[..], pages[..]);
        assert SameZone(zs[i], zones[i]);
        TakeFrame(i, page, l, attribute, words, zs, ps);
      }
    }

    /** `free_pages` on frames that are in use; a null page or a bad number changes nothing. */
    method FreePages(page: Option<nat>, number: int)
      requires Valid()
      requires page.Some? && 0 < number < 64 ==>
                 InUse(bitsMap[..], zones[..], pages[..], page.value, number)
      modifies bitsMap, zones, pages
      ensures Valid()
      ensures page.None? || !(0 < number < 64) ==>
                bitsMap[..] == old(bitsMap[..]) && pages[..] == old(pages[..]) && zones[..] == old(zones[..])
      ensures page.Some? && 0 < number < 64 ==>
                After(old(bitsMap[..]), old(zones[..]), old(pages[..]), page.value, number, false, {},
                      bitsMap[..], zones[..], pages[..])
      ensures page.Some? && 0 < number < 64 ==>
                && (forall f: nat :: f < 64 * bitsMap.Length ==>
                      (Bit(bitsMap[..], f) <==> old(Bit(bitsMap[..], f)) && !(page.value <= f < page.value + number)))
                && (forall f :: 0 <= f < pages.Length ==>
                      pages[..][f] == if page.value <= f < page.value + number then old(pages[..])[f].(attribute := {})
                                      else old(pages[..])[f])
    {
      hide Tables, After, WithBit, SameLayout, Owned, InUse;
      if page.None? || number >= 64 || number <= 0 {
        return;
      }
      ghost var words, zs, ps := bitsMap[..], zones[..], pages[..];
      InUseAt(words, zs, ps, page.value, number, page.value);
      AfterNone(words, zs, ps, page.value, false, {});
      for i := 0 to number
        invariant Valid() && After(words, zs, ps, page.value, i, false, {}, bitsMap[..], zones[..], pages[..])
      {
        InUseAt(words, zs, ps, page.value, number, page.value + i);
        AfterNext(words, zs, ps, page.value, i, false, {}, bitsMap[..], zones[..], pages[..]);
        DropFrame(page.value, i, words, zs, ps);
      }
      AfterMeans(words, zs, ps, page.value, number, false, {}, bitsMap[..], zones[..], pages[..]);
    }

    /** `page_init`: a first reference, or one more reference to a shared page. */
    method PageInit(f: nat, flags: set<PageFlag>)
      requires Valid() && Owned(zones[..], pages[..], f)
      modifies bitsMap, zones, pages
      ensures Valid() && SameOwners(old(zones[..]), zones[..], old(pages[..]), pages[..])
              && bitsMap[..] == old(bitsMap[..])
      ensures forall i :: 0 <= i < zones.Length ==> zones[i].freeCount == old(zones[i].freeCount)
      ensures var was, zs := old(pages[f]), old(zones[..]);
              var counted := was.referenceCount == 0 || Shared in was.attribute + flags;
              && pages[..] == old(pages[..])[f := was.(attribute := was.attribute + flags,
                   referenceCount := if counted then (was.referenceCount + 1) % MACHINE else was.referenceCount)]
              && zones[..] == if !counted then zs
                   else zs[was.zone := zs[was.zone].(totalPagesLink := (zs[was.zone].totalPagesLink + 1) % MACHINE)]
    {
      hide Tables, SameOwners, SameWordOf;
      ghost var words, zs, ps := bitsMap[..], zones[..], pages[..];
      var i := pages[f].zone;
      SameWordSelf(zones[i].totalPagesLink - pages[f].referenceCount);
      SameWordStep(zones[i].totalPagesLink, pages[f].referenceCount, 1);
      pages[f] := pages[f].(attribute := pages[f].attribute + flags);
      if pages[f].referenceCount == 0 || Shared in pages[f].attribute {
        pages[f] := pages[f].(referenceCount := (pages[f].referenceCount + 1) % MACHINE);
        zones[i] := zones[i].(totalPagesLink := (zones[i].totalPagesLink + 1) % MACHINE);
      }
      assert zones[..] == zs[i := zones[i]] && pages[..] == ps[f := pages[f]];
      LinkKeepsTables(words, zs, ps, f, pages[f], zones[i]);
      LinkKeepsOwners(zs, ps, f, pages[f], zones[i]);
    }

    /** `page_clean` */
    method PageClean(f: nat)
      requires Valid() && Owned(zones[..], pages[..], f)
      modifies bitsMap, zones, pages
      ensures Valid() && SameOwners(old(zones[..]), zones[..], old(pages[..]), pages[..])
              && bitsMap[..] == old(bitsMap[..])
      ensures forall i :: 0 <= i < zones.Length ==> zones[i].freeCount == old(zones[i].freeCount)
      ensures var was, zs := old(pages[f]), old(zones[..]);
              var left := (was.referenceCount + MACHINE - 1) % MACHINE;
              && pages[..] == old(pages[..])[f := was.(referenceCount := left,
                   attribute := if left == 0 then was.attribute * {PTableMaped} else was.attribute)]
              && zones[..] == zs[was.zone :=
                   zs[was.zone].(totalPagesLink := (zs[was.zone].totalPagesLink + MACHINE - 1) % MACHINE)]
    {
      hide Tables, SameOwners, SameWordOf;
      ghost var words, zs, ps := bitsMap[..], zones[..], pages[..];
      var i := pages[f].zone;
      SameWordStep(zones[i].totalPagesLink, pages[f].referenceCount, MACHINE - 1);
      pages[f] := pages[f].(referenceCount := (pages[f].referenceCount + MACHINE - 1) % MACHINE);
      zones[i] := zones[i].(totalPagesLink := (zones[i].totalPagesLink + MACHINE - 1) % MACHINE);
      if pages[f].referenceCount == 0 {
        pages[f] := pages[f].(attribute := pages[f].attribute * {PTableMaped});
      }
      assert zones[..] == zs[i := zones[i]] && pages[..] == ps[f := pages[f]];
      LinkKeepsTables(words, zs, ps, f, pages[f], zones[i]);
      LinkKeepsOwners(zs, ps, f, pages[f], zones[i]);
    }
  }
}
