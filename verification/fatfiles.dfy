/** Files on the image: directory slots, clusters of bytes, and what saving, deleting and loading
    mean for all files at once. */
module FatFiles {
  import opened Options
  import opened FatLinks

  const FILE_COUNT: nat := 224

  /** The first two entries of the table belong to no cluster and are never 0. */
  const RESERVED: nat := 2

  /** A directory slot. The tool reads a first byte of 0 as unused and of 0xe5 as deleted. */
  datatype Slot = Unused | Deleted | File(name: string, cluster: nat, size: nat)

  type Block = seq<Byte>

  // ---- bytes of one file ----

  function Min(a: nat, b: nat): nat {
    if a < b then a else b
  }

  /** `write_cluster`: the first bytes of `data`, at most a cluster full, over the old content. */
  function Overwritten(old': Block, data: seq<Byte>): (r: Block)
    requires |old'| == CLUSTER_BYTES
    ensures |r| == CLUSTER_BYTES
  {
    data[..Min(|data|, CLUSTER_BYTES)] + old'[Min(|data|, CLUSTER_BYTES)..]
  }

  ghost predicate BlocksOk(blocks: seq<Block>) {
    |blocks| == FAT_ENTRIES && forall i :: 0 <= i < |blocks| ==> |blocks[i]| == CLUSTER_BYTES
  }

  /** The clusters after writing `data` along `cs`, one cluster after the other. */
  function Written(blocks: seq<Block>, cs: seq<nat>, data: seq<Byte>): (r: seq<Block>)
    requires BlocksOk(blocks) && forall i :: 0 <= i < |cs| ==> cs[i] < |blocks|
    ensures BlocksOk(r)
    decreases cs
  {
    if cs == [] then blocks
    else Written(blocks[cs[0] := Overwritten(blocks[cs[0]], data)], cs[1..], data[Min(|data|, CLUSTER_BYTES)..])
  }

  /** `load`: `size` bytes along the links from `cluster`; nothing more once a link leaves the table. */
  function LoadBytes(fat: seq<nat>, blocks: seq<Block>, cluster: nat, size: nat): seq<Byte>
    requires BlocksOk(blocks) && |fat| == |blocks|
    decreases size
  {
    if size == 0 || cluster >= |fat| then []
    else
      var n := Min(size, CLUSTER_BYTES);
      blocks[cluster][..n] + LoadBytes(fat, blocks, fat[cluster], size - n)
  }

  /** The first `size` bytes held by the clusters `cs`. */
  function Content(blocks: seq<Block>, cs: seq<nat>, size: nat): seq<Byte>
    requires BlocksOk(blocks) && forall i :: 0 <= i < |cs| ==> cs[i] < |blocks|
    decreases cs
  {
    if cs == [] then []
    else
      var n := Min(size, CLUSTER_BYTES);
      blocks[cs[0]][..n] + Content(blocks, cs[1..], size - n)
  }

  lemma {:induction false} LoadIsContent(fat: seq<nat>, blocks: seq<Block>, cs: seq<nat>, size: nat)
    requires BlocksOk(blocks) && IsChain(fat, cs) && |cs| == Clusters(size)
    ensures LoadBytes(fat, blocks, cs[0], size) == Content(blocks, cs, size)
    decreases cs
  {
    var n := Min(size, CLUSTER_BYTES);
    if |cs| > 1 {
      var rest := cs[1..];
      assert forall i :: 0 <= i < |rest| - 1 ==> fat[rest[i]] == fat[cs[i + 1]];
      LoadIsContent(fat, blocks, rest, size - n);
    } else {
      assert size <= CLUSTER_BYTES && cs[1..] == [];
      assert LoadBytes(fat, blocks, fat[cs[0]], 0) == [] && Content(blocks, [], 0) == [];
    }
  }

  lemma {:induction false} ContentFrame(blocks: seq<Block>, blocks': seq<Block>, cs: seq<nat>, size: nat)
    requires BlocksOk(blocks) && BlocksOk(blocks') && forall i :: 0 <= i < |cs| ==> cs[i] < |blocks|
    requires forall i :: 0 <= i < |cs| ==> blocks'[cs[i]] == blocks[cs[i]]
    ensures Content(blocks', cs, size) == Content(blocks, cs, size)
    decreases cs
  {
    if cs != [] {
      ContentFrame(blocks, blocks', cs[1..], size - Min(size, CLUSTER_BYTES));
    }
  }

  lemma {:induction false} WrittenElsewhere(blocks: seq<Block>, cs: seq<nat>, data: seq<Byte>)
    requires BlocksOk(blocks) && forall i :: 0 <= i < |cs| ==> cs[i] < |blocks|
    ensures forall c :: 0 <= c < |blocks| && c !in cs ==> Written(blocks, cs, data)[c] == blocks[c]
    decreases cs
  {
    if cs != [] {
      var blocks' := blocks[cs[0] := Overwritten(blocks[cs[0]], data)];
      WrittenElsewhere(blocks', cs[1..], data[Min(|data|, CLUSTER_BYTES)..]);
    }
  }

  /** What was written along distinct clusters is what they hold, however scattered they are. */
  lemma {:induction false} WrittenIsRead(blocks: seq<Block>, cs: seq<nat>, data: seq<Byte>)
    requires BlocksOk(blocks) && (forall i :: 0 <= i < |cs| ==> cs[i] < |blocks|) && Distinct(cs)
    requires |data| <= |cs| * CLUSTER_BYTES
    ensures Content(Written(blocks, cs, data), cs, |data|) == data
    decreases cs
  {
    if cs == [] {
      assert data == [];
    } else {
      var n := Min(|data|, CLUSTER_BYTES);
      var rest, tail := cs[1..], data[n..];
      var blocks' := blocks[cs[0] := Overwritten(blocks[cs[0]], data)];
      assert forall i :: 0 <= i < |rest| ==> rest[i] == cs[i + 1] != cs[0];
      WrittenIsRead(blocks', rest, tail);
      WrittenElsewhere(blocks', rest, tail);
      assert Overwritten(blocks[cs[0]], data)[..n] == data[..n];
    }
  }

  // ---- the directory ----

  /** `find_index`: the first file of the name before the first unused slot, or the table's length. */
  function FindIndex(slots: seq<Slot>, name: string, from: nat := 0): (i: nat)
    requires from <= |slots|
    ensures from <= i <= |slots|
    ensures i < |slots| ==> slots[i].File? && slots[i].name == name
    decreases |slots| - from
  {
    if from == |slots| || slots[from].Unused? then |slots|
    else if slots[from].File? && slots[from].name == name then from
    else FindIndex(slots, name, from + 1)
  }

  /** `find_free_index`: the first slot without a file, or the table's length. */
  function FreeIndex(slots: seq<Slot>, from: nat := 0): (i: nat)
    requires from <= |slots|
    ensures from <= i <= |slots|
    ensures i < |slots| ==> !slots[i].File?
    ensures forall j :: from <= j < i ==> slots[j].File?
    decreases |slots| - from
  {
    if from == |slots| || !slots[from].File? then from else FreeIndex(slots, from + 1)
  }

  /** No file after an unused slot, and no name twice. */
  ghost predicate DirOk(slots: seq<Slot>) {
    && |slots| == FILE_COUNT
    && (forall i, j :: 0 <= i < j < |slots| && slots[i].Unused? ==> slots[j].Unused?)
    && (forall i, j :: 0 <= i < j < |slots| && slots[i].File? && slots[j].File? ==> slots[i].name != slots[j].name)
  }

  /** In a proper directory the search finds a name exactly where it is. */
  lemma {:induction false} FindIndexFinds(slots: seq<Slot>, name: string, i: nat, from: nat)
    requires DirOk(slots) && i < |slots| && slots[i].File? && slots[i].name == name && from <= i
    ensures FindIndex(slots, name, from) == i
    decreases i - from
  {
    if from < i {
      FindIndexFinds(slots, name, i, from + 1);
    }
  }

  lemma {:induction false} FindIndexMisses(slots: seq<Slot>, name: string, from: nat)
    requires from <= |slots| && forall i :: 0 <= i < |slots| && slots[i].File? ==> slots[i].name != name
    ensures FindIndex(slots, name, from) == |slots|
    decreases |slots| - from
  {
    if from < |slots| && !slots[from].Unused? {
      FindIndexMisses(slots, name, from + 1);
    }
  }

  // ---- the whole image ----

  /** The clusters of a file. */
  function ChainOf(fat: seq<nat>, f: Slot): seq<nat>
    requires f.File?
  {
    Follow(fat, f.cluster, Clusters(f.size))
  }

  ghost predicate FileOk(fat: seq<nat>, f: Slot)
    requires f.File?
  {
    && |ChainOf(fat, f)| == Clusters(f.size) && IsChain(fat, ChainOf(fat, f))
    && forall c :: c in ChainOf(fat, f) ==> c >= RESERVED
  }

  ghost predicate Disjoint(a: seq<nat>, b: seq<nat>) {
    forall c :: c in a ==> c !in b
  }

  /** Every file has a chain of the length that its size calls for, which ends in the end mark, and
      no two files share a cluster. */
  ghost predicate ImageOk(fat: seq<nat>, slots: seq<Slot>, blocks: seq<Block>) {
    && |fat| == FAT_ENTRIES && fat[0] != 0 && fat[1] != 0 && BlocksOk(blocks) && DirOk(slots)
    && (forall i :: 0 <= i < |slots| && slots[i].File? ==> FileOk(fat, slots[i]))
    && (forall i, j :: 0 <= i < j < |slots| && slots[i].File? && slots[j].File? ==>
          Disjoint(ChainOf(fat, slots[i]), ChainOf(fat, slots[j])))
  }

  /** What `load` prints for a name. */
  function Loaded(fat: seq<nat>, slots: seq<Slot>, blocks: seq<Block>, name: string): Option<seq<Byte>>
    requires BlocksOk(blocks) && |fat| == |blocks|
  {
    var i := FindIndex(slots, name);
    if i == |slots| then None else Some(LoadBytes(fat, blocks, slots[i].cluster, slots[i].size))
  }

  /** A file whose chain has neither links nor clusters changed is still there with its bytes. */
  lemma FileKept(fat: seq<nat>, blocks: seq<Block>, fat': seq<nat>, blocks': seq<Block>, f: Slot)
    requires f.File? && FileOk(fat, f) && |fat'| == |fat| && BlocksOk(blocks) && BlocksOk(blocks')
    requires forall c :: c in ChainOf(fat, f) ==> fat'[c] == fat[c] && blocks'[c] == blocks[c]
    ensures ChainOf(fat', f) == ChainOf(fat, f) && FileOk(fat', f)
    ensures LoadBytes(fat', blocks', f.cluster, f.size) == LoadBytes(fat, blocks, f.cluster, f.size)
  {
    var cs := ChainOf(fat, f);
    assert IsChain(fat', cs);
    FollowStarts(fat, f.cluster, Clusters(f.size));
    ChainIsFollowed(fat', cs);
    LoadIsContent(fat, blocks, cs, f.size);
    LoadIsContent(fat', blocks', cs, f.size);
    ContentFrame(blocks, blocks', cs, f.size);
  }

  lemma FollowStarts(fat: seq<nat>, start: nat, n: nat)
    ensures |Follow(fat, start, n)| > 0 ==> Follow(fat, start, n)[0] == start
  {
  }

  lemma FileOkFacts(fat: seq<nat>, f: Slot)
    requires f.File? && FileOk(fat, f)
    ensures forall c :: c in ChainOf(fat, f) ==> RESERVED <= c < |fat| && fat[c] != 0
  {
    var cs := ChainOf(fat, f);
    forall c | c in cs
      ensures RESERVED <= c < |fat| && fat[c] != 0
    {
      var i :| 0 <= i < |cs| && cs[i] == c;
      assert i < |cs| - 1 ==> cs[i + 1] in cs;
    }
  }

  // ---- saving ----

  /** Saving `data` under a new name into the lowest free clusters and the first free slot. */
  lemma SaveKeepsImage(fat: seq<nat>, slots: seq<Slot>, blocks: seq<Block>, name: string, data: seq<Byte>)
      returns (cs: seq<nat>, fat': seq<nat>, slots': seq<Slot>, blocks': seq<Block>)
    requires ImageOk(fat, slots, blocks)
    requires FreeCount(fat, 0) >= Clusters(|data|) && FreeIndex(slots) < |slots|
    requires forall i :: 0 <= i < |slots| && slots[i].File? ==> slots[i].name != name
    ensures cs == Picks(fat, 0, Clusters(|data|)) && |cs| == Clusters(|data|)
    ensures InFat(fat, cs) && fat' == Linked(fat, cs) && blocks' == Written(blocks, cs, data)
    ensures slots' == slots[FreeIndex(slots) := File(name, cs[0], |data|)]
    ensures ImageOk(fat', slots', blocks')
    ensures Loaded(fat', slots', blocks', name) == Some(data)
    ensures FindIndex(slots', name) == FreeIndex(slots)
    ensures ChainOf(fat', slots'[FreeIndex(slots)]) == cs
    ensures forall other :: other != name ==> Loaded(fat', slots', blocks', other) == Loaded(fat, slots, blocks, other)
  {
    hide IsChain, Linked, Written, Content, LoadBytes, FileOk, Distinct;
    cs := Picks(fat, 0, Clusters(|data|));
    EnoughPicks(fat, 0, Clusters(|data|));
    PicksAreFree(fat, 0, Clusters(|data|));
    AscendingIsDistinct(fat, cs);
    fat', blocks' := Linked(fat, cs), Written(blocks, cs, data);
    LinkedLinks(fat, cs);
    WrittenElsewhere(blocks, cs, data);
    var k := FreeIndex(slots);
    var f := File(name, cs[0], |data|);
    slots' := slots[k := f];
    NewFile(fat', blocks, blocks', cs, data, f);
    forall i | 0 <= i < |slots| && slots[i].File?
      ensures FileOk(fat', slots[i]) && ChainOf(fat', slots[i]) == ChainOf(fat, slots[i])
      ensures Disjoint(ChainOf(fat, slots[i]), cs) && Disjoint(cs, ChainOf(fat, slots[i]))
      ensures LoadBytes(fat', blocks', slots[i].cluster, slots[i].size) ==
              LoadBytes(fat, blocks, slots[i].cluster, slots[i].size)
    {
      FileOkFacts(fat, slots[i]);
      FileKept(fat, blocks, fat', blocks', slots[i]);
    }
    SavedDir(slots, name, k, f);
    FindIndexFinds(slots', name, k, 0);
    forall other | other != name
      ensures Loaded(fat', slots', blocks', other) == Loaded(fat, slots, blocks, other)
    {
      FindOther(slots, slots', k, other);
    }
  }

  lemma AscendingIsDistinct(fat: seq<nat>, cs: seq<nat>)
    requires FreeAscending(fat, 0, cs)
    ensures Distinct(cs) && InFat(fat, cs)
    ensures forall c :: c in cs ==> c < |fat| && fat[c] == 0
  {
  }

  /** The saved file: its chain is the picked clusters and its bytes are the saved bytes. */
  lemma NewFile(fat': seq<nat>, blocks: seq<Block>, blocks': seq<Block>, cs: seq<nat>, data: seq<Byte>, f: Slot)
    requires IsChain(fat', cs) && Distinct(cs) && |cs| == Clusters(|data|) && BlocksOk(blocks)
    requires blocks' == Written(blocks, cs, data) && f.File? && f.cluster == cs[0] && f.size == |data|
    requires fat'[0] != 0 && fat'[1] != 0
    requires forall c :: c in cs ==> c >= RESERVED
    ensures ChainOf(fat', f) == cs && FileOk(fat', f)
    ensures LoadBytes(fat', blocks', f.cluster, f.size) == data
  {
    ChainIsFollowed(fat', cs);
    WrittenIsRead(blocks, cs, data);
    LoadIsContent(fat', blocks', cs, |data|);
  }

  lemma SavedDir(slots: seq<Slot>, name: string, k: nat, f: Slot)
    requires DirOk(slots) && k == FreeIndex(slots) < |slots| && f.File? && f.name == name
    requires forall i :: 0 <= i < |slots| && slots[i].File? ==> slots[i].name != name
    ensures DirOk(slots[k := f])
  {
  }

  /** A change in slot `k` between no file and a file of another name does not move `other`. */
  lemma FindOther(slots: seq<Slot>, slots': seq<Slot>, k: nat, other: string)
    requires DirOk(slots) && DirOk(slots') && k < |slots| && slots' == slots[k := slots'[k]]
    requires slots[k].File? ==> slots[k].name != other
    requires slots'[k].File? ==> slots'[k].name != other
    ensures FindIndex(slots', other) == FindIndex(slots, other)
  {
    if i :| 0 <= i < |slots| && slots[i].File? && slots[i].name == other {
      FindIndexFinds(slots, other, i, 0);
      FindIndexFinds(slots', other, i, 0);
    } else {
      FindIndexMisses(slots, other, 0);
      FindIndexMisses(slots', other, 0);
    }
  }

  // ---- deleting ----

  /** Deleting the file in slot `k`: its clusters are freed, one by one along its chain, unless it is
      empty; every other file stays. */
  lemma DeleteKeepsImage(fat: seq<nat>, slots: seq<Slot>, blocks: seq<Block>, k: nat)
      returns (fat': seq<nat>, slots': seq<Slot>)
    requires ImageOk(fat, slots, blocks) && k < |slots| && slots[k].File?
    ensures Del(fat, slots[k].cluster, FreedClusters(slots[k].size)) == Freed(fat')
    ensures InFat(fat, ChainOf(fat, slots[k]))
    ensures fat' == if slots[k].size == 0 then fat else Cleared(fat, ChainOf(fat, slots[k]))
    ensures slots' == slots[k := Deleted]
    ensures ImageOk(fat', slots', blocks)
    ensures Loaded(fat', slots', blocks, slots[k].name) == None
    ensures forall other :: other != slots[k].name ==>
            Loaded(fat', slots', blocks, other) == Loaded(fat, slots, blocks, other)
  {
    hide LoadBytes, Distinct, Cleared, IsChain, Follow, Del;
    var f := slots[k];
    var cs := ChainOf(fat, f);
    slots' := slots[k := Deleted];
    FileOkFacts(fat, f);
    DelOfFile(fat, f);
    fat' := if f.size == 0 then fat else Cleared(fat, cs);
    ClearedEntries(fat, cs);
    forall i | 0 <= i < |slots| && slots[i].File? && i != k
      ensures FileOk(fat', slots[i]) && ChainOf(fat', slots[i]) == ChainOf(fat, slots[i])
      ensures LoadBytes(fat', blocks, slots[i].cluster, slots[i].size) ==
              LoadBytes(fat, blocks, slots[i].cluster, slots[i].size)
    {
      assert Disjoint(ChainOf(fat, slots[i]), cs) by {
        assert i < k ==> Disjoint(ChainOf(fat, slots[i]), ChainOf(fat, slots[k]));
        assert k < i ==> Disjoint(ChainOf(fat, slots[k]), ChainOf(fat, slots[i]));
      }
      FileOkFacts(fat, slots[i]);
      FileKept(fat, blocks, fat', blocks, slots[i]);
    }
    DeletedDir(slots, k);
    FindIndexMisses(slots', f.name, 0);
    forall other | other != f.name
      ensures Loaded(fat', slots', blocks, other) == Loaded(fat, slots, blocks, other)
    {
      FindOther(slots, slots', k, other);
    }
  }

  lemma DelOfFile(fat: seq<nat>, f: Slot)
    requires f.File? && FileOk(fat, f)
    ensures InFat(fat, ChainOf(fat, f))
    ensures Del(fat, f.cluster, FreedClusters(f.size)) ==
            Freed(if f.size == 0 then fat else Cleared(fat, ChainOf(fat, f)))
  {
    FollowStarts(fat, f.cluster, Clusters(f.size));
    DelFreesChain(fat, ChainOf(fat, f));
  }

  lemma DeletedDir(slots: seq<Slot>, k: nat)
    requires DirOk(slots) && k < |slots| && slots[k].File?
    ensures DirOk(slots[k := Deleted])
    ensures forall i :: 0 <= i < |slots| && slots[k := Deleted][i].File? ==> slots[i].name != slots[k].name
  {
  }
}
