/** FAT12 links and cluster chains: how the image tool picks clusters, links them, follows them and
    frees them. Values only; the tool itself is in module FatTool. */
module FatLinks {

  const CLUSTER_BYTES: nat := 512
  const FAT_ENTRIES: nat := 3072
  const END: nat := 0xfff
  const END_MARKS: nat := 0xff8

  type Byte = b: nat | b < 256

  /** The clusters that a file of `size` bytes takes up; an empty file takes up one. */
  function Clusters(size: nat): (n: nat)
    ensures n > 0 && size <= n * CLUSTER_BYTES
    ensures size > 0 ==> (n - 1) * CLUSTER_BYTES < size
  {
    if size == 0 then 1 else (size + CLUSTER_BYTES - 1) / CLUSTER_BYTES
  }

  /** The clusters that `Fat#del` frees for a file of `size` bytes. */
  function FreedClusters(size: nat): nat {
    (size + CLUSTER_BYTES - 1) / CLUSTER_BYTES
  }

  // ---- chains ----

  ghost predicate Distinct(cs: seq<nat>) {
    forall i, j :: 0 <= i < j < |cs| ==> cs[i] != cs[j]
  }

  ghost predicate InFat(fat: seq<nat>, cs: seq<nat>) {
    forall i :: 0 <= i < |cs| ==> cs[i] < |fat|
  }

  /** Each cluster links to the next one, and the last carries the end mark. */
  ghost predicate IsChain(fat: seq<nat>, cs: seq<nat>) {
    && |fat| == FAT_ENTRIES && |cs| > 0 && InFat(fat, cs)
    && (forall i :: 0 <= i < |cs| - 1 ==> fat[cs[i]] == cs[i + 1])
    && fat[cs[|cs| - 1]] == END
  }

  /** The `n` clusters met when following links from `start`; fewer if a link leaves the table. */
  function Follow(fat: seq<nat>, start: nat, n: nat): seq<nat>
    decreases n
  {
    if n == 0 || start >= |fat| then []
    else [start] + Follow(fat, fat[start], n - 1)
  }

  /** A chain is what following its first cluster gives. */
  lemma {:induction false} ChainIsFollowed(fat: seq<nat>, cs: seq<nat>)
    requires IsChain(fat, cs)
    ensures Follow(fat, cs[0], |cs|) == cs
  {
    if |cs| > 1 {
      var rest := cs[1..];
      assert forall i :: 0 <= i < |rest| - 1 ==> fat[rest[i]] == fat[cs[i + 1]];
      ChainIsFollowed(fat, rest);
    }
  }

  /** Chains that reach the end mark cannot visit a cluster twice. */
  lemma {:induction false} ChainsAreAcyclic(fat: seq<nat>, cs: seq<nat>)
    requires IsChain(fat, cs)
    ensures Distinct(cs)
  {
    forall i, j | 0 <= i < j < |cs|
      ensures cs[i] != cs[j]
    {
      NoMeeting(fat, cs, i, j);
    }
  }

  lemma {:induction false} NoMeeting(fat: seq<nat>, cs: seq<nat>, i: nat, j: nat)
    requires IsChain(fat, cs) && i < j < |cs|
    ensures cs[i] != cs[j]
    decreases |cs| - j
  {
    if j < |cs| - 1 {
      NoMeeting(fat, cs, i + 1, j + 1);
    } else {
      assert fat[cs[i]] == cs[i + 1] < FAT_ENTRIES;
    }
  }

  // ---- picking free clusters ----

  /** `find_free_cluster`: the first free entry from `from` on, or the table's length. */
  function NextFree(fat: seq<nat>, from: nat): (c: nat)
    requires from <= |fat|
    ensures from <= c <= |fat|
    ensures c < |fat| ==> fat[c] == 0
    ensures forall i :: from <= i < c ==> fat[i] != 0
    decreases |fat| - from
  {
    if from == |fat| || fat[from] == 0 then from else NextFree(fat, from + 1)
  }

  /** The `n` lowest free clusters from `from` on; fewer when there are fewer. */
  function Picks(fat: seq<nat>, from: nat, n: nat): (cs: seq<nat>)
    requires from <= |fat|
    ensures |cs| <= n
    decreases n
  {
    if n == 0 then []
    else
      var c := NextFree(fat, from);
      if c == |fat| then [] else [c] + Picks(fat, c + 1, n - 1)
  }

  /** Free clusters of the table, in ascending order. */
  ghost predicate FreeAscending(fat: seq<nat>, from: nat, cs: seq<nat>) {
    && (forall i :: 0 <= i < |cs| ==> from <= cs[i] < |fat| && fat[cs[i]] == 0)
    && (forall i, j :: 0 <= i < j < |cs| ==> cs[i] < cs[j])
  }

  lemma {:induction false} PicksAreFree(fat: seq<nat>, from: nat, n: nat)
    requires from <= |fat|
    ensures FreeAscending(fat, from, Picks(fat, from, n))
    decreases n
  {
    var c := NextFree(fat, from);
    if n > 0 && c < |fat| {
      PicksAreFree(fat, c + 1, n - 1);
      OneMorePick(fat, from, c, Picks(fat, c + 1, n - 1));
    }
  }

  lemma OneMorePick(fat: seq<nat>, from: nat, c: nat, rest: seq<nat>)
    requires from <= c < |fat| && fat[c] == 0 && FreeAscending(fat, c + 1, rest)
    ensures FreeAscending(fat, from, [c] + rest)
  {
  }

  function FreeCount(fat: seq<nat>, from: nat): nat
    requires from <= |fat|
    decreases |fat| - from
  {
    if from == |fat| then 0 else (if fat[from] == 0 then 1 else 0) + FreeCount(fat, from + 1)
  }

  /** The front of a table has no more free entries than the table. */
  lemma {:induction false} FreeInFront(fat: seq<nat>, m: nat, from: nat)
    requires from <= m <= |fat|
    ensures FreeCount(fat[..m], from) <= FreeCount(fat, from)
    decreases m - from
  {
    if from < m {
      FreeInFront(fat, m, from + 1);
    }
  }

  lemma {:induction false} FreeCountSkips(fat: seq<nat>, from: nat)
    requires from <= |fat|
    ensures FreeCount(fat, from) ==
            if NextFree(fat, from) == |fat| then 0 else 1 + FreeCount(fat, NextFree(fat, from) + 1)
    decreases |fat| - from
  {
    if from < |fat| && fat[from] != 0 {
      FreeCountSkips(fat, from + 1);
    }
  }

  /** There are `n` picks exactly when there are `n` free clusters, wherever they are. */
  lemma {:induction false} EnoughPicks(fat: seq<nat>, from: nat, n: nat)
    requires from <= |fat|
    ensures |Picks(fat, from, n)| == n <==> FreeCount(fat, from) >= n
    decreases n
  {
    FreeCountSkips(fat, from);
    if n > 0 && NextFree(fat, from) < |fat| {
      EnoughPicks(fat, NextFree(fat, from) + 1, n - 1);
    }
  }

  // ---- linking ----

  /** Every cluster of `cs` but the last linked to the next one. */
  function LinkedOpen(fat: seq<nat>, cs: seq<nat>): (r: seq<nat>)
    requires InFat(fat, cs)
    ensures |r| == |fat|
  {
    if |cs| <= 1 then fat
    else
      var n := |cs| - 1;
      LinkedOpen(fat, cs[..n])[cs[n - 1] := cs[n]]
  }

  /** The table after saving a file into the clusters `cs`. */
  function Linked(fat: seq<nat>, cs: seq<nat>): (r: seq<nat>)
    requires |cs| > 0 && InFat(fat, cs)
    ensures |r| == |fat|
  {
    LinkedOpen(fat, cs)[cs[|cs| - 1] := END]
  }

  lemma {:induction false} LinkedOpenLinks(fat: seq<nat>, cs: seq<nat>)
    requires InFat(fat, cs) && Distinct(cs)
    ensures var r := LinkedOpen(fat, cs);
            && (forall i :: 0 <= i < |cs| - 1 ==> r[cs[i]] == cs[i + 1])
            && (forall c :: 0 <= c < |fat| && (c !in cs || c == cs[|cs| - 1]) ==> r[c] == fat[c])
  {
    if |cs| > 1 {
      var n := |cs| - 1;
      LinkedOpenLinks(fat, cs[..n]);
    }
  }

  lemma LinkedLinks(fat: seq<nat>, cs: seq<nat>)
    requires |fat| == FAT_ENTRIES && |cs| > 0 && InFat(fat, cs) && Distinct(cs)
    ensures IsChain(Linked(fat, cs), cs)
    ensures forall c :: 0 <= c < |fat| && c !in cs ==> Linked(fat, cs)[c] == fat[c]
  {
    LinkedOpenLinks(fat, cs);
  }

  // ---- freeing ----

  datatype DelResult = Freed(fat: seq<nat>) | Broken(fat: seq<nat>) | Astray(fat: seq<nat>)

  /** `Fat#del` from `cluster`, with `no` clusters to go: it stops at an end mark, which is an error
      unless it is due, and a link out of the table is one too. */
  function Del(fat: seq<nat>, cluster: nat, no: nat): (r: DelResult)
    ensures |r.fat| == |fat|
    decreases no
  {
    if no == 0 then Freed(fat)
    else if cluster >= |fat| then Astray(fat)
    else
      var p := fat[cluster];
      var fat' := fat[cluster := 0];
      if p >= END_MARKS then (if no == 1 then Freed(fat') else Broken(fat'))
      else Del(fat', p, no - 1)
  }

  function Cleared(fat: seq<nat>, cs: seq<nat>): (r: seq<nat>)
    requires InFat(fat, cs)
    ensures |r| == |fat|
    decreases cs
  {
    if cs == [] then fat else Cleared(fat[cs[0] := 0], cs[1..])
  }

  lemma {:induction false} ClearedEntries(fat: seq<nat>, cs: seq<nat>)
    requires InFat(fat, cs)
    ensures forall c :: 0 <= c < |fat| ==> Cleared(fat, cs)[c] == if c in cs then 0 else fat[c]
    decreases cs
  {
    if cs != [] {
      ClearedEntries(fat[cs[0] := 0], cs[1..]);
    }
  }

  /** Deleting along a chain of the right length frees exactly the chain. */
  lemma {:induction false} DelFreesChain(fat: seq<nat>, cs: seq<nat>)
    requires IsChain(fat, cs)
    ensures Del(fat, cs[0], |cs|) == Freed(Cleared(fat, cs))
  {
    ChainsAreAcyclic(fat, cs);
    DelFreesRest(fat, cs);
  }

  lemma {:induction false} DelFreesRest(fat: seq<nat>, cs: seq<nat>)
    requires IsChain(fat, cs) && Distinct(cs)
    ensures Del(fat, cs[0], |cs|) == Freed(Cleared(fat, cs))
    decreases |cs|
  {
    if |cs| > 1 {
      var rest, fat' := cs[1..], fat[cs[0] := 0];
      assert forall i :: 0 <= i < |rest| ==> rest[i] == cs[i + 1] != cs[0];
      assert fat'[rest[|rest| - 1]] == END;
      DelFreesRest(fat', rest);
    } else {
      assert cs[1..] == [];
    }
  }

  lemma {:induction false} FollowStays(fat: seq<nat>, start: nat, n: nat)
    ensures InFat(fat, Follow(fat, start, n))
    decreases n
  {
    if n > 0 && start < |fat| {
      FollowStays(fat, fat[start], n - 1);
    }
  }

  lemma {:induction false} FollowFrame(fat: seq<nat>, fat': seq<nat>, start: nat, n: nat)
    requires |fat| == |fat'| && forall c :: c in Follow(fat, start, n) ==> c < |fat| && fat'[c] == fat[c]
    ensures Follow(fat', start, n) == Follow(fat, start, n)
    decreases n
  {
    if n > 0 && start < |fat| {
      var rest := Follow(fat, fat[start], n - 1);
      assert Follow(fat, start, n) == [start] + rest;
      assert forall c :: c in rest ==> c in [start] + rest;
      assert start in [start] + rest;
      FollowFrame(fat, fat', fat[start], n - 1);
    }
  }

  /** What deleting does along any links that meet no cluster twice: the clusters met are freed, and it
      is an error exactly when there are fewer than the size calls for. */
  lemma {:induction false} DelOutcome(fat: seq<nat>, start: nat, no: nat)
    requires |fat| == FAT_ENTRIES && Distinct(Follow(fat, start, no))
    ensures var cs, r := Follow(fat, start, no), Del(fat, start, no);
            && InFat(fat, cs) && r.fat == Cleared(fat, cs)
            && (r.Freed? <==> |cs| == no)
            && (r.Broken? <==> 0 < |cs| < no && fat[cs[|cs| - 1]] >= 0xff8)
    decreases no
  {
    hide Cleared, Follow, Del;
    if no == 0 || start >= |fat| {
      NothingFollows(fat, start, no);
    } else {
      var p, fat', rest := FirstFollowed(fat, start, no);
      var cs := Follow(fat, start, no);
      if p >= END_MARKS {
        NothingFollows(fat, p, no - 1);
        ClearedFirst(fat, start, rest);
        assert Cleared(fat', []) == fat' by { NoneCleared(fat'); }
      } else {
        DelOutcome(fat', p, no - 1);
        ClearedFirst(fat, start, rest);
        assert rest != [] ==> cs[|cs| - 1] == rest[|rest| - 1] != start;
      }
    }
  }

  lemma NoneCleared(fat: seq<nat>)
    ensures Cleared(fat, []) == fat
  {
  }

  lemma ClearedFirst(fat: seq<nat>, start: nat, rest: seq<nat>)
    requires start < |fat| && InFat(fat, rest)
    ensures InFat(fat, [start] + rest) && Cleared(fat, [start] + rest) == Cleared(fat[start := 0], rest)
  {
    assert ([start] + rest)[1..] == rest;
  }

  lemma NothingFollows(fat: seq<nat>, start: nat, no: nat)
    requires no == 0 || start >= |fat|
    ensures Follow(fat, start, no) == [] && Cleared(fat, []) == fat
    ensures Del(fat, start, no) == if no == 0 then Freed(fat) else Astray(fat)
  {
  }

  lemma FirstFollowed(fat: seq<nat>, start: nat, no: nat) returns (p: nat, fat': seq<nat>, rest: seq<nat>)
    requires no > 0 && start < |fat| && Distinct(Follow(fat, start, no))
    ensures p == fat[start] && fat' == fat[start := 0]
    ensures rest == Follow(fat, p, no - 1) == Follow(fat', p, no - 1) && Follow(fat, start, no) == [start] + rest
    ensures InFat(fat, rest) && Distinct(rest) && start !in rest
    ensures Del(fat, start, no) ==
            if p >= END_MARKS then (if no == 1 then Freed(fat') else Broken(fat')) else Del(fat', p, no - 1)
  {
    hide Follow, Del, Distinct, InFat;
    p, fat' := fat[start], fat[start := 0];
    rest := Follow(fat, p, no - 1);
    FollowUnfolds(fat, start, no);
    HeadApart(start, rest);
    FollowStays(fat, p, no - 1);
    FollowFrame(fat, fat', p, no - 1);
  }

  lemma FollowUnfolds(fat: seq<nat>, start: nat, no: nat)
    requires no > 0 && start < |fat|
    ensures Follow(fat, start, no) == [start] + Follow(fat, fat[start], no - 1)
    ensures Del(fat, start, no) ==
            if fat[start] >= END_MARKS then (if no == 1 then Freed(fat[start := 0]) else Broken(fat[start := 0]))
            else Del(fat[start := 0], fat[start], no - 1)
  {
  }

  lemma HeadApart(start: nat, rest: seq<nat>)
    requires Distinct([start] + rest)
    ensures Distinct(rest) && start !in rest
  {
    var cs := [start] + rest;
    assert forall i :: 0 <= i < |rest| ==> rest[i] == cs[i + 1] != cs[0];
  }

  /** Deleting a file right after saving it restores the table exactly when the file is not empty:
      an empty file took a cluster, and deleting it frees none. */
  lemma DeleteUndoesSave(fat: seq<nat>, size: nat, cs: seq<nat>)
    requires |fat| == FAT_ENTRIES && cs == Picks(fat, 0, Clusters(size)) && |cs| == Clusters(size)
    ensures FreeAscending(fat, 0, cs)
    ensures Del(Linked(fat, cs), cs[0], FreedClusters(size)) == Freed(fat) <==> size > 0
  {
    PicksAreFree(fat, 0, Clusters(size));
    LinkedLinks(fat, cs);
    var saved := Linked(fat, cs);
    hide Linked, IsChain, Picks;
    if size > 0 {
      DelFreesChain(saved, cs);
      ClearedEntries(saved, cs);
      assert Cleared(saved, cs) == fat;
    } else {
      assert saved[cs[0]] == END != fat[cs[0]];
    }
  }
}
