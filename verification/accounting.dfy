/** What the counters of a class count: `total_using` is the number of blocks that callers hold or that
    slabs own for their headers and maps. */
module Accounting {
  import opened Words
  import opened Frames
  import opened Slabs
  import opened Ownership

  /** Addresses of the blocks handed out among the first `n` of a slab. */
  ghost function HeldUpTo(c: nat, s: Slab, n: nat): set<nat>
    requires c < CLASSES && n <= s.colorCount <= 64 * |s.colorMap|
  {
    if n == 0 then {}
    else HeldUpTo(c, s, n - 1) + if Bit(s.colorMap, n - 1) then {s.vaddress + Size(c) * (n - 1)} else {}
  }

  lemma {:induction false} HeldMembers(c: nat, s: Slab, n: nat, a: nat)
    requires c < CLASSES && n <= s.colorCount <= 64 * |s.colorMap|
    ensures a in HeldUpTo(c, s, n) <==> exists j: nat :: j < n && HoldsAt(c, s, a, j)
  {
    hide Bit, Size;
    if n > 0 {
      HeldMembers(c, s, n - 1, a);
      assert a in HeldUpTo(c, s, n) && a !in HeldUpTo(c, s, n - 1) ==> HoldsAt(c, s, a, n - 1);
    }
  }

  lemma {:induction false} HeldCount(c: nat, s: Slab, n: nat)
    requires c < CLASSES && n <= s.colorCount <= 64 * |s.colorMap|
    ensures |HeldUpTo(c, s, n)| == n - ClearBits(s.colorMap, 0, n)
  {
    hide Bit, Size;
    if n > 0 {
      HeldCount(c, s, n - 1);
      NotBefore(c, s, n);
    }
  }

  /** Block `n - 1` starts where no block before it does. */
  lemma NotBefore(c: nat, s: Slab, n: nat)
    requires c < CLASSES && 0 < n <= s.colorCount <= 64 * |s.colorMap|
    ensures s.vaddress + Size(c) * (n - 1) !in HeldUpTo(c, s, n - 1)
  {
    hide Bit, Size, HeldUpTo;
    var a := s.vaddress + Size(c) * (n - 1);
    HeldMembers(c, s, n - 1, a);
    if j: nat :| j < n - 1 && HoldsAt(c, s, a, j) {
      BlocksApart(c, j, n - 1);
      SizePositive(c);
    }
  }

  lemma SizePositive(c: nat)
    requires c < CLASSES
    ensures Size(c) > 0
  {
  }

  /** Addresses of the blocks handed out by the first `k` slabs of a ring. */
  ghost function HeldInRing(c: nat, ring: seq<Slab>, k: nat): set<nat>
    requires c < CLASSES && k <= |ring| && forall i :: 0 <= i < |ring| ==> ring[i].colorCount <= 64 * |ring[i].colorMap|
  {
    if k == 0 then {} else HeldInRing(c, ring, k - 1) + HeldUpTo(c, ring[k - 1], ring[k - 1].colorCount)
  }

  lemma {:induction false} RingMembers(c: nat, ring: seq<Slab>, k: nat, a: nat)
    requires c < CLASSES && k <= |ring| && forall i :: 0 <= i < |ring| ==> ring[i].colorCount <= 64 * |ring[i].colorMap|
    ensures a in HeldInRing(c, ring, k) <==> exists i :: 0 <= i < k && Holds(c, ring[i], a)
  {
    hide HoldsAt;
    if k > 0 {
      var s := ring[k - 1];
      RingMembers(c, ring, k - 1, a);
      HeldMembers(c, s, s.colorCount, a);
      if j: nat :| HoldsAt(c, s, a, j) {
        Within(c, s, a, j);
      }
      assert a in HeldUpTo(c, s, s.colorCount) <==> Holds(c, s, a);
    }
  }

  lemma Within(c: nat, s: Slab, a: nat, j: nat)
    requires c < CLASSES && HoldsAt(c, s, a, j)
    ensures j < s.colorCount
  {
  }

  /** A block handed out by a slab is in the slab's frame. */
  lemma HeldInFrame(c: nat, k: nat, s: Slab, a: nat)
    requires c < CLASSES && SlabOk(c, k, s) && Holds(c, s, a)
    ensures a / FRAME_BYTES == s.page
  {
    var j: nat :| HoldsAt(c, s, a, j);
    BlockInFrame(c, k, s, j);
  }

  lemma {:induction false} RingCount(c: nat, ring: seq<Slab>, k: nat)
    requires c < CLASSES && k <= |ring|
    requires forall i :: 0 <= i < |ring| ==> SlabOk(c, i, ring[i]) && SlabCounts(ring[i])
    requires forall i :: 0 <= i < |ring| ==> ring[i].colorCount <= 64 * |ring[i].colorMap|
    requires forall i, j :: 0 <= i < j < |ring| ==> ring[i].page != ring[j].page
    ensures |HeldInRing(c, ring, k)| == SumUsing(ring[..k])
  {
    hide SlabOk, SlabCounts, HeldUpTo;
    if k > 0 {
      var s := ring[k - 1];
      RingCount(c, ring, k - 1);
      HeldCount(c, s, s.colorCount);
      UsingIsRest(s);
      OneSlabApart(c, ring, k);
      assert ring[..k][..k - 1] == ring[..k - 1];
    }
  }

  /** Blocks of the next slab are none of those of the slabs before it. */
  lemma OneSlabApart(c: nat, ring: seq<Slab>, k: nat)
    requires c < CLASSES && 0 < k <= |ring|
    requires forall i :: 0 <= i < |ring| ==> SlabOk(c, i, ring[i])
    requires forall i :: 0 <= i < |ring| ==> ring[i].colorCount <= 64 * |ring[i].colorMap|
    requires forall i, j :: 0 <= i < j < |ring| ==> ring[i].page != ring[j].page
    ensures HeldInRing(c, ring, k - 1) !! HeldUpTo(c, ring[k - 1], ring[k - 1].colorCount)
  {
    hide SlabOk, HeldUpTo, HeldInRing, Holds;
    var s := ring[k - 1];
    var before, here := HeldInRing(c, ring, k - 1), HeldUpTo(c, s, s.colorCount);
    forall a | a in before
      ensures a !in here
    {
      RingMembers(c, ring, k - 1, a);
      var i :| 0 <= i < k - 1 && Holds(c, ring[i], a);
      HeldInFrame(c, i, ring[i], a);
      if a in here {
        RingMembersOfOne(c, s, a);
        HeldInFrame(c, k - 1, s, a);
      }
    }
  }

  lemma ColorsFit(ring: seq<Slab>)
    requires forall i :: 0 <= i < |ring| ==> SlabCounts(ring[i])
    ensures forall i :: 0 <= i < |ring| ==> ring[i].colorCount <= 64 * |ring[i].colorMap|
  {
  }

  lemma UsingIsRest(s: Slab)
    requires SlabCounts(s)
    ensures s.usingCount == s.colorCount - ClearBits(s.colorMap, 0, s.colorCount)
  {
  }

  lemma RingMembersOfOne(c: nat, s: Slab, a: nat)
    requires c < CLASSES && s.colorCount <= 64 * |s.colorMap| && a in HeldUpTo(c, s, s.colorCount)
    ensures Holds(c, s, a)
  {
    HeldMembers(c, s, s.colorCount, a);
    var j: nat :| j < s.colorCount && HoldsAt(c, s, a, j);
  }

  ghost function HeldByCallers(user: map<nat, nat>, c: nat): set<nat> {
    set a | a in user && user[a] == c
  }

  ghost function HeldBySlabs(owned: map<nat, Tag>, c: nat): set<nat> {
    set a | a in owned && owned[a].cls == c
  }

  /** Block `b` of class `c` is the header or the map of a slab that is in a ring. */
  ghost predicate IsStruct(caches: seq<Cache>, b: nat, c: nat) {
    exists d: nat, k: nat :: IsStructOf(caches, b, c, d, k)
  }

  ghost predicate IsStructOf(caches: seq<Cache>, b: nat, c: nat, d: nat, k: nat) {
    && FIRST_LARGE <= d < CLASSES && k > 0 && At(caches, d, k)
    && ((b == caches[d].ring[k].self && c == 2) || (b == caches[d].ring[k].mapAt && c == ClassFor(MapBytes(d))))
  }

  lemma OwnedIsStruct(caches: seq<Cache>, owned: map<nat, Tag>, b: nat)
    requires StructsOwned(caches, owned) && NoLeak(caches, owned) && b in owned
    ensures IsStruct(caches, b, owned[b].cls)
  {
    hide ClassFor, MapBytes, StructsOwned;
    assert HasOwner(caches, b, owned[b]);
    var d: nat, k: nat :| OwnerAt(caches, b, owned[b], d, k);
    OwnsAt(caches, owned, d, k);
    assert IsStructOf(caches, b, owned[b].cls, d, k);
  }

  lemma OwnsAt(caches: seq<Cache>, owned: map<nat, Tag>, d: nat, k: nat)
    requires StructsOwned(caches, owned) && FIRST_LARGE <= d < CLASSES && k > 0 && At(caches, d, k)
    ensures OwnsStructs(d, caches[d].ring[k], owned)
  {
    hide OwnsStructs;
  }

  lemma StructIsOwned(caches: seq<Cache>, owned: map<nat, Tag>, b: nat, c: nat)
    requires StructsOwned(caches, owned) && IsStruct(caches, b, c)
    ensures b in owned && owned[b].cls == c
  {
    hide ClassFor, MapBytes, StructsOwned;
    var d: nat, k: nat :| IsStructOf(caches, b, c, d, k);
    OwnsAt(caches, owned, d, k);
  }

  /** With no block lost, the blocks that slabs own are exactly the headers and maps that there are. */
  lemma OwnedAreStructs(caches: seq<Cache>, owned: map<nat, Tag>, c: nat)
    requires StructsOwned(caches, owned) && NoLeak(caches, owned)
    ensures forall b: nat :: b in HeldBySlabs(owned, c) <==> IsStruct(caches, b, c)
  {
    hide StructsOwned, NoLeak, IsStruct;
    forall b: nat
      ensures b in HeldBySlabs(owned, c) <==> IsStruct(caches, b, c)
    {
      if b in owned {
        OwnedIsStruct(caches, owned, b);
      }
      if IsStruct(caches, b, c) {
        StructIsOwned(caches, owned, b, c);
      }
    }
  }

  /** In every reachable heap `total_using` of a class is the number of its blocks that callers hold plus
      the number of those that are headers or maps of slabs; between calls, of slabs that are in a ring. */
  lemma TotalUsingIsLiveBlocks(caches: seq<Cache>, user: map<nat, nat>, owned: map<nat, Tag>, c: nat)
    requires HeapOk(caches, user, owned) && c < CLASSES
    ensures |caches| == CLASSES
    ensures caches[c].totalUsing == |HeldByCallers(user, c)| + |HeldBySlabs(owned, c)|
    ensures NoLeak(caches, owned) ==> forall b: nat :: b in HeldBySlabs(owned, c) <==> IsStruct(caches, b, c)
  {
    if NoLeak(caches, owned) {
      OwnedAreStructs(caches, owned, c);
    }
    CountOfLive(caches, user, owned, c);
  }

  lemma CountOfLive(caches: seq<Cache>, user: map<nat, nat>, owned: map<nat, Tag>, c: nat)
    requires HeapOk(caches, user, owned) && c < CLASSES
    ensures |caches| == CLASSES
    ensures caches[c].totalUsing == |HeldByCallers(user, c)| + |HeldBySlabs(owned, c)|
  {
    hide Holds, SlabOk, SlabCounts;
    assert CacheOk(c, caches[c]);
    var ring := caches[c].ring;
    forall i, j | 0 <= i < j < |ring|
      ensures ring[i].page != ring[j].page
    {
      assert At(caches, c, i) && At(caches, c, j);
    }
    ColorsFit(ring);
    RingCount(c, ring, |ring|);
    assert ring[..|ring|] == ring;
    var held, callers, slabs := HeldInRing(c, ring, |ring|), HeldByCallers(user, c), HeldBySlabs(owned, c);
    forall a: nat
      ensures a in held <==> a in callers || a in slabs
    {
      RingMembers(c, ring, |ring|, a);
      LiveInRing(caches, c, a);
      assert Live(caches, c, a) <==> Entry(user, owned, c, a);
    }
    assert callers !! slabs && held == callers + slabs;
  }

  lemma LiveInRing(caches: seq<Cache>, c: nat, a: nat)
    requires c < |caches| && c < CLASSES
    ensures Live(caches, c, a) <==> exists i :: 0 <= i < |caches[c].ring| && Holds(c, caches[c].ring[i], a)
  {
    hide Holds;
    if i :| 0 <= i < |caches[c].ring| && Holds(c, caches[c].ring[i], a) {
      assert At(caches, c, i);
    }
  }
}
