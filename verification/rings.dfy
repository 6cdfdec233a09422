/** The circular doubly linked lists that hold run queue, wait lists and slabs: what the pointer
    operations do to the ring as a sequence. */
module Rings {

  class List {
    var prev: List?
    var next: List?

    /** `list_init`: a ring of one. */
    constructor ()
      ensures prev == this && next == this && IsRing([this])
    {
      prev, next := this, this;
    }
  }

  function After(i: nat, n: nat): (j: nat)
    requires i < n
    ensures j < n
  {
    if i + 1 == n then 0 else i + 1
  }

  /** The nodes of `ring` are distinct and linked in this order, both ways and round the end. */
  ghost predicate IsRing(ring: seq<List>)
    reads ring
  {
    && Distinct(ring)
    && (forall i {:trigger ring[i].next} :: 0 <= i < |ring| ==> ring[i].next == ring[After(i, |ring|)])
    && (forall i {:trigger After(i, |ring|)} :: 0 <= i < |ring| ==> ring[After(i, |ring|)].prev == ring[i])
  }

  // ---- one node more, one node less ----

  /** The place before which a node at place `i` of the longer ring was put. */
  function PlaceOf(i: nat, n: nat): nat {
    if i == n then 0 else i
  }

  /** Where the node of place `k` is when one more was put in at place `i`; and the other way round. */
  function Shifted(k: nat, i: nat): nat {
    if k < i then k else k + 1
  }

  function Unshifted(j: nat, i: nat): nat
    requires j != i
  {
    if j < i then j else j - 1
  }

  /** Who follows whom when node `node` was put in at place `i`. */
  ghost predicate IsInsertion(r: seq<List>, ring: seq<List>, node: List, i: nat) {
    var n := |ring|;
    && i <= n && n > 0 && |r| == n + 1 && r[i] == node && r[After(i, n + 1)] == ring[PlaceOf(i, n)]
    && (forall j: nat :: j <= n && j != i ==> Unshifted(j, i) < n && r[j] == ring[Unshifted(j, i)])
    && (forall j: nat :: j <= n && j != i && After(Unshifted(j, i), n) == PlaceOf(i, n) ==> r[After(j, n + 1)] == node)
    && (forall j: nat :: j <= n && j != i && After(Unshifted(j, i), n) != PlaceOf(i, n) ==>
          r[After(j, n + 1)] == ring[After(Unshifted(j, i), n)])
  }

  lemma Inserted(ring: seq<List>, node: List, i: nat)
    requires i <= |ring| && ring != []
    ensures IsInsertion(ring[..i] + [node] + ring[i..], ring, node, i)
  {
  }

  /** The same when the node at place `i` was taken out. */
  ghost predicate IsRemoval(r: seq<List>, ring: seq<List>, i: nat) {
    var n := |ring|;
    && i < n && |r| == n - 1
    && (forall j: nat :: j < n - 1 ==> r[j] == ring[Shifted(j, i)])
    && (forall j: nat :: j < n - 1 && After(Shifted(j, i), n) == i ==> r[After(j, n - 1)] == ring[After(i, n)])
    && (forall j: nat :: j < n - 1 && After(Shifted(j, i), n) != i ==>
          r[After(j, n - 1)] == ring[After(Shifted(j, i), n)])
  }

  lemma Removed(ring: seq<List>, i: nat)
    requires i < |ring|
    ensures IsRemoval(ring[..i] + ring[i + 1..], ring, i)
  {
  }

  lemma InsertedAt(r: seq<List>, ring: seq<List>, node: List, i: nat, j: nat)
    requires IsInsertion(r, ring, node, i) && j < |r| && j != i
    ensures Unshifted(j, i) < |ring| && r[j] == ring[Unshifted(j, i)]
    ensures After(Unshifted(j, i), |ring|) == PlaceOf(i, |ring|) ==> r[After(j, |r|)] == node
    ensures After(Unshifted(j, i), |ring|) != PlaceOf(i, |ring|) ==>
              r[After(j, |r|)] == ring[After(Unshifted(j, i), |ring|)]
  {
  }

  lemma RemovedAt(r: seq<List>, ring: seq<List>, i: nat, j: nat)
    requires IsRemoval(r, ring, i) && j < |r|
    ensures Shifted(j, i) < |ring| && Shifted(j, i) != i && r[j] == ring[Shifted(j, i)]
    ensures r[After(j, |r|)] ==
            if After(Shifted(j, i), |ring|) == i then ring[After(i, |ring|)] else ring[After(Shifted(j, i), |ring|)]
  {
  }

  ghost predicate Distinct(ring: seq<List>) {
    forall i, j :: 0 <= i < j < |ring| ==> ring[i] != ring[j]
  }

  lemma DistinctWith(r: seq<List>, ring: seq<List>, node: List, i: nat)
    requires IsInsertion(r, ring, node, i) && Distinct(ring) && node !in ring
    ensures Distinct(r)
  {
    forall j, k | 0 <= j < k < |r|
      ensures r[j] != r[k]
    {
      assert j != i ==> r[j] == ring[Unshifted(j, i)];
      assert k != i ==> r[k] == ring[Unshifted(k, i)];
    }
  }

  lemma DistinctWithout(r: seq<List>, ring: seq<List>, i: nat)
    requires IsRemoval(r, ring, i) && Distinct(ring)
    ensures Distinct(r)
  {
    forall j, k | 0 <= j < k < |r|
      ensures r[j] != r[k]
    {
      assert r[j] == ring[Shifted(j, i)] && r[k] == ring[Shifted(k, i)];
    }
  }

  /** The pointers of `ring` with `node` put in between its place `i` and the one before. */
  ghost predicate LinkedWith(ring: seq<List>, node: List, i: nat)
    requires i <= |ring| && ring != []
    reads node, ring
  {
    var n := |ring|;
    && node.next == ring[PlaceOf(i, n)] && ring[PlaceOf(i, n)].prev == node
    && (forall k {:trigger After(k, n)} :: 0 <= k < n && After(k, n) == PlaceOf(i, n) ==>
          ring[k].next == node && node.prev == ring[k])
    && (forall k {:trigger After(k, n)} :: 0 <= k < n && After(k, n) != PlaceOf(i, n) ==>
          ring[k].next == ring[After(k, n)] && ring[After(k, n)].prev == ring[k])
  }

  /** The pointers of `ring` with the node at place `i` left out. */
  ghost predicate LinkedWithout(ring: seq<List>, i: nat)
    requires i < |ring|
    reads ring
  {
    var n := |ring|;
    && (forall k {:trigger After(k, n)} :: 0 <= k < n && k != i && After(k, n) == i ==>
          ring[k].next == ring[After(i, n)] && ring[After(i, n)].prev == ring[k])
    && (forall k {:trigger After(k, n)} :: 0 <= k < n && k != i && After(k, n) != i ==>
          ring[k].next == ring[After(k, n)] && ring[After(k, n)].prev == ring[k])
  }

  /** Pointers that follow the longer sequence make it a ring. */
  lemma RingWith(r: seq<List>, ring: seq<List>, node: List, i: nat)
    requires IsInsertion(r, ring, node, i) && Distinct(ring) && node !in ring && LinkedWith(ring, node, i)
    ensures IsRing(r)
  {
    DistinctWith(r, ring, node, i);
    hide After, PlaceOf, Distinct, IsInsertion;
    forall j | 0 <= j < |r|
      ensures r[j].next == r[After(j, |r|)] && r[After(j, |r|)].prev == r[j]
    {
      if j != i {
        InsertedAt(r, ring, node, i, j);
      }
    }
  }

  lemma RingAfterInsertion(ring: seq<List>, node: List, i: nat)
    requires i <= |ring| && ring != [] && Distinct(ring) && node !in ring && LinkedWith(ring, node, i)
    ensures IsRing(ring[..i] + [node] + ring[i..])
  {
    hide *;
    Inserted(ring, node, i);
    RingWith(ring[..i] + [node] + ring[i..], ring, node, i);
  }

  /** Pointers that follow the shorter sequence make it a ring. */
  lemma RingWithout(r: seq<List>, ring: seq<List>, i: nat)
    requires IsRemoval(r, ring, i) && Distinct(ring) && LinkedWithout(ring, i)
    ensures IsRing(r)
  {
    DistinctWithout(r, ring, i);
    forall j | 0 <= j < |r|
      ensures r[j].next == r[After(j, |r|)] && r[After(j, |r|)].prev == r[j]
    {
      RemovedAt(r, ring, i, j);
    }
  }

  /** `list_add_to_before`: the new node goes right before `entry`, at whatever place of the ring that
      is. Nothing outside the ring changes. */
  method AddToBefore(entry: List, node: List, ghost ring: seq<List>, ghost i: nat)
    requires IsRing(ring) && i < |ring| && ring[i] == entry && node !in ring
    requires entry.prev != null
    modifies node, entry`prev, entry.prev`next
    ensures IsRing(ring[..i] + [node] + ring[i..])
  {
    ghost var last := if i == 0 then |ring| - 1 else i - 1;
    assert After(last, |ring|) == i && entry.prev == ring[last];
    node.next := entry;
    entry.prev.next := node;
    node.prev := entry.prev;
    entry.prev := node;
    assert LinkedWith(ring, node, i);
    RingAfterInsertion(ring, node, i);
  }

  /** Behind place `i` is the place after it; different nodes have different followers. */
  lemma PlaceBehind(i: nat, n: nat)
    requires i < n
    ensures After(i, n) == PlaceOf(i + 1, n)
    ensures forall k, l :: 0 <= k < n && 0 <= l < n && After(k, n) == After(l, n) ==> k == l
  {
  }

  /** `list_add_to_behind`: the new node goes right behind `entry`. */
  method AddToBehind(entry: List, node: List, ghost ring: seq<List>, ghost i: nat)
    requires IsRing(ring) && i < |ring| && ring[i] == entry && node !in ring
    requires entry.next != null
    modifies node, entry`next, entry.next`prev
    ensures IsRing(ring[..i + 1] + [node] + ring[i + 1..])
  {
    hide After, PlaceOf;
    PlaceBehind(i, |ring|);
    ghost var following := After(i, |ring|);
    assert entry.next == ring[following];
    node.next := entry.next;
    node.prev := entry;
    node.next.prev := node;
    entry.next := node;
    assert LinkedWith(ring, node, i + 1);
    RingAfterInsertion(ring, node, i + 1);
  }

  /** `list_del`: the other nodes stay a ring in their order; the node itself keeps its old links. */
  method Del(entry: List, ghost ring: seq<List>, ghost i: nat)
    requires IsRing(ring) && i < |ring| && ring[i] == entry
    requires entry.prev != null && entry.next != null
    modifies entry.next`prev, entry.prev`next
    ensures IsRing(ring[..i] + ring[i + 1..])
    ensures entry.next == old(entry.next) && entry.prev == old(entry.prev)
  {
    ghost var last := if i == 0 then |ring| - 1 else i - 1;
    ghost var following := After(i, |ring|);
    assert After(last, |ring|) == i && entry.prev == ring[last] && entry.next == ring[following];
    entry.next.prev := entry.prev;
    entry.prev.next := entry.next;
    Removed(ring, i);
    RingWithout(ring[..i] + ring[i + 1..], ring, i);
  }

  /** `list_is_empty`: nobody but the head is in the ring. */
  method IsEmpty(entry: List, ghost ring: seq<List>) returns (empty: bool)
    requires IsRing(ring) && |ring| > 0 && ring[0] == entry
    ensures empty <==> |ring| == 1
  {
    empty := entry == entry.next && entry.prev == entry;
    assert entry.next == ring[After(0, |ring|)];
  }

  /** A ring may be read from any of its nodes: what is put before the head is at the end. */
  lemma Rotated(front: seq<List>, back: seq<List>)
    requires IsRing(front + back)
    ensures IsRing(back + front)
  {
    var s, r := front + back, back + front;
    forall i | 0 <= i < |r|
      ensures r[i].next == r[After(i, |r|)] && r[After(i, |r|)].prev == r[i]
    {
      var k := if i < |back| then i + |front| else i - |back|;
      assert r[i] == s[k] && r[After(i, |r|)] == s[After(k, |s|)];
    }
    forall i, j | 0 <= i < j < |r|
      ensures r[i] != r[j]
    {
      var k := if i < |back| then i + |front| else i - |back|;
      var l := if j < |back| then j + |front| else j - |back|;
      assert r[i] == s[k] && r[j] == s[l] && k != l;
    }
  }

  /** The run queue and the wait lists put a node before the place that a walk found, or before the head
      to append, and take the first one: read from the head, that is insertion into and removal from a
      sequence. */
  method Enqueue(head: List, node: List, ghost queue: seq<List>)
    requires IsRing([head] + queue) && node !in [head] + queue
    modifies node, head, queue
    ensures IsRing([head] + (queue + [node]))
  {
    ghost var ring := [head] + queue;
    assert ring[0] == head;
    assert head.prev == ring[|ring| - 1] by {
      assert After(|ring| - 1, |ring|) == 0;
    }
    AddToBefore(head, node, ring, 0);
    assert ring[..0] + [node] + ring[0..] == [node] + ring;
    Rotated([node], ring);
    assert ring + [node] == [head] + (queue + [node]);
  }

  method Dequeue(head: List, ghost queue: seq<List>) returns (node: List)
    requires IsRing([head] + queue) && queue != []
    modifies head, queue
    ensures node == queue[0] && IsRing([head] + queue[1..])
  {
    ghost var ring := [head] + queue;
    assert head == ring[0] && ring[1] == queue[0];
    assert ring[0].next == ring[After(0, |ring|)] == queue[0];
    node := head.next;
    assert node.next == ring[After(1, |ring|)] && ring[After(0, |ring|)].prev == ring[0];
    Del(node, ring, 1);
    assert ring[..1] + ring[2..] == [head] + queue[1..];
  }
}
