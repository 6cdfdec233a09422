/** The image tool: the table of links and the directory as it holds them in memory, the image it
    reads and writes, and its save, load and delete commands. Names are the padded 8.3 names. */
module FatTool {
  import opened Options
  import opened FatLinks
  import opened FatFiles
  import opened FatPacking

  // ---- the table in memory ----

  class Fat {
    var fat: seq<nat>

    /** Three bytes at a time, two links each. */
    constructor (data: seq<Byte>)
      requires |data| == FAT_BYTES
      ensures fat == Unpacked(data)
    {
      fat := [];
      new;
      var j := 0;
      while j < FAT_BYTES / 3
        invariant 0 <= j <= FAT_BYTES / 3
        invariant |fat| == 2 * j && fat == Unpacked(data)[..2 * j]
      {
        var i := j * 3;
        assert (2 * j) / 2 == j == (2 * j + 1) / 2 && (2 * j) % 2 == 0 && (2 * j + 1) % 2 == 1;
        fat := fat + [EvenLink(data[i], data[i + 1])];
        fat := fat + [OddLink(data[i + 1], data[i + 2])];
        j := j + 1;
      }
    }

    /** The bytes that go to both copies of the table on the image. */
    method Write() returns (data: seq<Byte>)
      requires Links(fat) && |fat| == FAT_ENTRIES
      ensures data == Packed(fat)
    {
      data := [];
      var i := 0;
      while i < FAT_BYTES / 3
        invariant 0 <= i <= FAT_BYTES / 3
        invariant |data| == 3 * i && data == Packed(fat)[..3 * i]
      {
        var n1, n2 := fat[i * 2], fat[i * 2 + 1];
        PackedAt(fat, i);
        data := data + [PackedFirst(n1, n2), PackedSecond(n1, n2), PackedThird(n1, n2)];
        i := i + 1;
      }
    }

    /** The first free cluster if there are as many free clusters as asked for, and at least one. */
    method HaveSpace(clusterCount: nat) returns (start: Option<nat>)
      requires |fat| == FAT_ENTRIES
      ensures start == if FreeCount(fat, 0) >= clusterCount
              && FreeCount(fat, 0) > 0 then Some(NextFree(fat, 0)) else None
    {
      start := None;
      var n := 0;
      var i := 0;
      while i < |fat|
        invariant 0 <= i <= |fat| && n + FreeCount(fat, i) == FreeCount(fat, 0)
        invariant n == 0 ==> start.None? && NextFree(fat, i) == NextFree(fat, 0)
        invariant n > 0 ==> start == Some(NextFree(fat, 0)) && n < clusterCount
      {
        if fat[i] == 0 {
          if start.None? {
            start := Some(i);
          }
          n := n + 1;
          if n >= clusterCount {
            return;
          }
        }
        i := i + 1;
      }
      start := None;
    }

    method FindFreeCluster(start: nat) returns (found: Option<nat>)
      requires start <= |fat|
      ensures found == if NextFree(fat, start) < |fat| then Some(NextFree(fat, start)) else None
    {
      var i := start;
      while i < |fat|
        invariant start <= i <= |fat| && NextFree(fat, i) == NextFree(fat, start)
      {
        if fat[i] == 0 {
          return Some(i);
        }
        i := i + 1;
      }
      found := None;
    }

    method PutNext(cluster: nat, value: nat)
      requires cluster < |fat|
      modifies this
      ensures fat == old(fat)[cluster := value]
    {
      fat := fat[cluster := value];
    }

    method GetNext(cluster: nat) returns (next: nat)
      requires cluster < |fat|
      ensures next == fat[cluster]
    {
      next := fat[cluster];
    }

    /** Frees as many clusters as `size` calls for; the result names the two ways to fail. */
    method Free(start: nat, size: nat) returns (r: DelResult)
      requires |fat| == FAT_ENTRIES
      modifies this
      ensures r == Del(old(fat), start, FreedClusters(size)) && fat == r.fat
    {
      var no := (size + CLUSTER_BYTES - 1) / CLUSTER_BYTES;
      var i := 0;
      var cluster: nat := start;
      while i < no
        invariant 0 <= i <= no && |fat| == FAT_ENTRIES
        invariant Del(fat, cluster, no - i) == Del(old(fat), start, no)
      {
        if cluster >= |fat| {
          return Astray(fat);
        }
        var p := fat[cluster];
        fat := fat[cluster := 0];
        if p >= END_MARKS {
          return if i == no - 1 then Freed(fat) else Broken(fat);
        }
        cluster := p;
        i := i + 1;
      }
      r := Freed(fat);
    }
  }

  /** No unused slot up to slot `i`. */
  ghost predicate UsedUpTo(slots: seq<Slot>, i: nat) {
    i < |slots| && forall j :: 0 <= j <= i ==> !slots[j].Unused?
  }

  lemma PackedAt(fat: seq<nat>, i: nat)
    requires Links(fat) && i < |fat| / 2
    ensures Packed(fat)[3 * i..3 * i + 3] == [PackedFirst(fat[i * 2], fat[i * 2 + 1]),
                                              PackedSecond(fat[i * 2], fat[i * 2 + 1]),
                                                PackedThird(fat[i * 2], fat[i * 2 + 1])]
  {
    assert (3 * i) / 3 == i == (3 * i + 1) / 3 == (3 * i + 2) / 3;
    assert (3 * i) % 3 == 0 && (3 * i + 1) % 3 == 1 && (3 * i + 2) % 3 == 2;
  }

  // ---- the directory in memory ----

  class DirInfo {
    var fileinfos: seq<Slot>

    constructor (slots: seq<Slot>)
      ensures fileinfos == slots
    {
      fileinfos := slots;
    }

    method FindFreeIndex() returns (index: Option<nat>)
      ensures index == if FreeIndex(fileinfos) < |fileinfos| then Some(FreeIndex(fileinfos)) else None
    {
      var i := 0;
      while i < |fileinfos|
        invariant 0 <= i <= |fileinfos| && FreeIndex(fileinfos, i) == FreeIndex(fileinfos)
      {
        if !fileinfos[i].File? {
          return Some(i);
        }
        i := i + 1;
      }
      index := None;
    }

    method Find(name: string) returns (index: Option<nat>)
      ensures index == if FindIndex(fileinfos, name) < |fileinfos| then Some(FindIndex(fileinfos, name)) else None
    {
      var i := 0;
      while i < |fileinfos|
        invariant 0 <= i <= |fileinfos| && FindIndex(fileinfos, name, i) == FindIndex(fileinfos, name)
      {
        if fileinfos[i].Unused? {
          break;
        }
        if fileinfos[i].File? && fileinfos[i].name == name {
          return Some(i);
        }
        i := i + 1;
      }
      index := None;
    }

    method Add(index: nat, name: string, size: nat, cluster: nat)
      requires index < |fileinfos|
      modifies this
      ensures fileinfos == old(fileinfos)[index := File(name, cluster, size)]
    {
      fileinfos := fileinfos[index := File(name, cluster, size)];
    }

    method Remove(name: string) returns (removed: Option<Slot>)
      modifies this
      ensures var k := FindIndex(old(fileinfos), name);
              if k == |old(fileinfos)| then removed == None && fileinfos == old(fileinfos)
              else removed == Some(old(fileinfos)[k]) && fileinfos == old(fileinfos)[k := Deleted]
    {
      var index := Find(name);
      if index.None? {
        return None;
      }
      removed := Some(fileinfos[index.value]);
      fileinfos := fileinfos[index.value := Deleted];
    }

    /** Writes slot after slot, up to the first unused one: the slots on the image change to those in
        memory wherever no unused slot comes first. */
    method Write(disk: seq<Slot>) returns (disk': seq<Slot>)
      requires |disk| == |fileinfos|
      ensures |disk'| == |disk|
      ensures forall i :: 0 <= i < |disk| ==>
                disk'[i] == if UsedUpTo(fileinfos, i) then fileinfos[i] else disk[i]
    {
      disk' := disk;
      var i := 0;
      while i < |fileinfos|
        invariant 0 <= i <= |fileinfos| && |disk'| == |disk|
        invariant forall j :: 0 <= j < i ==> !fileinfos[j].Unused?
        invariant forall j :: 0 <= j < i ==> disk'[j] == fileinfos[j]
        invariant forall j :: i <= j < |disk| ==> disk'[j] == disk[j]
      {
        if fileinfos[i].Unused? {
          break;
        }
        disk' := disk'[i := fileinfos[i]];
        i := i + 1;
      }
    }
  }

  /** Nothing that the tool changed in memory is lost by stopping at the first unused slot. */
  lemma WriteLosesNothing(disk: seq<Slot>, memory: seq<Slot>, disk': seq<Slot>, k: nat)
    requires DirOk(disk) && k < |disk| == |memory| && memory == disk[k := memory[k]] && !memory[k].Unused?
    requires k > 0 ==> !disk[k - 1].Unused?
    requires |disk'| == |disk|
    requires forall i :: 0 <= i < |disk| ==>
               disk'[i] == if UsedUpTo(memory, i) then memory[i] else disk[i]
    ensures disk' == memory
  {
    assert UsedUpTo(memory, k);
    assert disk'[k] == memory[k];
  }

  // ---- what the commands do ----

  function TableWithout(fat: seq<nat>, slots: seq<Slot>, name: string): (r: seq<nat>)
    ensures |r| == |fat|
  {
    var k := FindIndex(slots, name);
    if k == |slots| then fat else Del(fat, slots[k].cluster, FreedClusters(slots[k].size)).fat
  }

  function SlotsWithout(slots: seq<Slot>, name: string): (r: seq<Slot>)
    ensures |r| == |slots|
  {
    var k := FindIndex(slots, name);
    if k == |slots| then slots else slots[k := Deleted]
  }

  /** In the table that `save` fills, the `k`-th free cluster is the next one that it finds. */
  lemma {:induction false} PickAt(fat: seq<nat>, from: nat, n: nat, k: nat)
    requires from <= |fat| && |Picks(fat, from, n)| == n && k < n
    ensures var cs := Picks(fat, from, n);
            && (k > 0 ==> cs[k - 1] < |fat|)
            && cs[k] == NextFree(fat, if k == 0 then from else cs[k - 1] + 1) < |fat|
    decreases n
  {
    var c := NextFree(fat, from);
    assert Picks(fat, from, n) == [c] + Picks(fat, c + 1, n - 1);
    if k > 0 {
      PickAt(fat, c + 1, n - 1, k - 1);
      assert k > 1 ==> Picks(fat, c + 1, n - 1)[k - 2] == Picks(fat, from, n)[k - 1];
    }
  }

  lemma {:induction false} NextFreeFrame(fat: seq<nat>, fat': seq<nat>, from: nat)
    requires from <= |fat| == |fat'| && fat[from..] == fat'[from..]
    ensures NextFree(fat, from) == NextFree(fat', from)
    decreases |fat| - from
  {
    if from < |fat| {
      assert fat[from..][0] == fat[from] == fat'[from];
      assert fat[from + 1..] == fat[from..][1..] == fat'[from..][1..] == fat'[from + 1..];
      NextFreeFrame(fat, fat', from + 1);
    }
  }

  lemma NextPick(fat: seq<nat>, cs: seq<nat>, k: nat)
    requires cs == Picks(fat, 0, |cs|) && k < |cs|
    ensures InFat(fat, cs)
    ensures NextFree(LinkedOpen(fat, cs[..k]), if k == 0 then 0 else cs[k - 1] + 1) == cs[k] < |fat|
  {
    hide Picks, LinkedOpen, NextFree;
    PicksAreFree(fat, 0, |cs|);
    PickAt(fat, 0, |cs|, k);
    var done := cs[..k];
    LinkedOpenLinks(fat, done);
    var from := if k == 0 then 0 else cs[k - 1] + 1;
    var linked := LinkedOpen(fat, done);
    forall c | from <= c < |fat|
      ensures linked[c] == fat[c]
    {
      assert forall i :: 0 <= i < |done| ==> done[i] < from;
    }
    assert linked[from..] == fat[from..];
    NextFreeFrame(fat, linked, from);
  }

  lemma NothingLinked(fat: seq<nat>, cs: seq<nat>)
    requires InFat(fat, cs)
    ensures LinkedOpen(fat, cs[..0]) == fat
  {
  }

  lemma LinkOneMore(fat: seq<nat>, cs: seq<nat>, k: nat)
    requires k < |cs| && InFat(fat, cs)
    ensures LinkedOpen(fat, cs[..k + 1]) ==
            if k == 0 then LinkedOpen(fat, cs[..k]) else LinkedOpen(fat, cs[..k])[cs[k - 1] := cs[k]]
  {
    assert cs[..k + 1][..k] == cs[..k];
  }

  lemma WriteOneMore(blocks: seq<Block>, cs: seq<nat>, data: seq<Byte>, k: nat)
    requires BlocksOk(blocks) && k < |cs| && forall i :: 0 <= i < |cs| ==> cs[i] < |blocks|
    ensures Written(blocks, cs[k..], data) ==
            Written(blocks[cs[k] := Overwritten(blocks[cs[k]], data)], cs[k + 1..], data[Min(|data|, CLUSTER_BYTES)..])
  {
    assert cs[k..][1..] == cs[k + 1..];
  }

  lemma NothingLeft(blocks: seq<Block>, cs: seq<nat>, data: seq<Byte>)
    requires BlocksOk(blocks) && cs == []
    ensures Written(blocks, cs, data) == blocks
  {
  }

  lemma SpaceIsPicks(fat: seq<nat>, size: nat)
    ensures FreeCount(fat, 0) >= FreedClusters(size) && FreeCount(fat, 0) > 0 <==> FreeCount(fat, 0) >= Clusters(size)
    ensures FreeCount(fat, 0) >= Clusters(size) ==>
            |Picks(fat, 0, Clusters(size))| == Clusters(size) && InFat(fat, Picks(fat, 0, Clusters(size)))
  {
    EnoughPicks(fat, 0, Clusters(size));
    PicksAreFree(fat, 0, Clusters(size));
  }

  // ---- the image ----

  class Image {
    var fat1: seq<Byte>
    var fat2: seq<Byte>
    var slots: seq<Slot>
    var blocks: seq<Block>

    ghost predicate Valid()
      reads this
    {
      |fat1| == FAT_BYTES && fat2 == fat1 && ImageOk(Unpacked(fat1), slots, blocks)
    }

    /** What `load` would print for a name. */
    ghost function Bytes(name: string): Option<seq<Byte>>
      requires Valid()
      reads this
    {
      Loaded(Unpacked(fat1), slots, blocks, name)
    }

    /** A formatted image: zeros, and three bytes in each copy of the table. */
    constructor ()
      ensures Valid()
      ensures forall name :: Bytes(name) == None
      ensures forall i :: 0 <= i < |slots| ==> slots[i] == Unused
      ensures forall c, i :: 0 <= c < |blocks| && 0 <= i < |blocks[c]| ==> blocks[c][i] == 0
      ensures Unpacked(fat1)[0] == 0xff0 && Unpacked(fat1)[1] == 0xfff
      ensures forall k :: RESERVED <= k < FAT_ENTRIES ==> Unpacked(fat1)[k] == 0
      ensures FreeCount(Unpacked(fat1), 0) == FAT_ENTRIES - RESERVED
    {
      hide Unpacked, FreeCount, FindIndex, DirOk;
      var zeros: seq<Byte> := seq(FAT_BYTES, _ => 0);
      var data := zeros[0 := 0xf0][1 := 0xff][2 := 0xff];
      fat1, fat2 := data, data;
      slots := seq(FILE_COUNT, _ => Unused);
      blocks := seq(FAT_ENTRIES, _ => seq(CLUSTER_BYTES, _ => 0));
      new;
      FormattedTable(fat1);
      EmptyDirectory(slots);
      forall name
        ensures FindIndex(slots, name) == |slots|
      {
        FindIndexMisses(slots, name, 0);
      }
    }

    /** `save`: finds room, enters the file in the directory in memory, and writes the data. Nothing
        changes when there is no such file to save or no room for it. */
    method Save(name: string, target: Option<seq<Byte>>, fat: Fat, dirinfo: DirInfo) returns (ok: bool)
      requires BlocksOk(blocks) && |fat.fat| == FAT_ENTRIES
      modifies this`blocks, fat, dirinfo
      ensures BlocksOk(blocks)
      ensures ok <==> && target.Some? && FreeCount(old(fat.fat), 0) >= Clusters(|target.value|)
                      && FreeIndex(old(dirinfo.fileinfos)) < |old(dirinfo.fileinfos)|
      ensures !ok ==> blocks == old(blocks) && fat.fat == old(fat.fat) && dirinfo.fileinfos == old(dirinfo.fileinfos)
      ensures ok ==> var cs, k := Picks(old(fat.fat), 0, Clusters(|target.value|)), FreeIndex(old(dirinfo.fileinfos));
                     && |cs| == Clusters(|target.value|) && InFat(old(fat.fat), cs)
                     && fat.fat == Linked(old(fat.fat), cs) && blocks == Written(old(blocks), cs, target.value)
                     && dirinfo.fileinfos == old(dirinfo.fileinfos)[k := File(name, cs[0], |target.value|)]
    {
      hide Picks, LinkedOpen, FreeCount, Written, Overwritten, Clusters, NextFree, FreeIndex, Linked;
      if target.None? {
        return false;
      }
      var size := |target.value|;
      var clusterCount := (size + CLUSTER_BYTES - 1) / CLUSTER_BYTES;
      SpaceIsPicks(fat.fat, size);
      var startCluster := fat.HaveSpace(clusterCount);
      if startCluster.None? {
        return false;
      }
      var fileIndex := dirinfo.FindFreeIndex();
      if fileIndex.None? {
        return false;
      }
      ghost var cs := Picks(fat.fat, 0, Clusters(size));
      NextPick(fat.fat, cs, 0);
      NothingLinked(fat.fat, cs);
      dirinfo.Add(fileIndex.value, name, size, startCluster.value);
      WriteFile(target.value, fat, cs);
      ok := true;
    }

    /** The loop of `save`: cluster by cluster, into the free clusters that it finds, linking them. */
    method WriteFile(target: seq<Byte>, fat: Fat, ghost cs: seq<nat>)
      requires BlocksOk(blocks) && |fat.fat| == FAT_ENTRIES
      requires cs == Picks(fat.fat, 0, |cs|) && |cs| == Clusters(|target|) && InFat(fat.fat, cs)
      modifies this`blocks, fat
      ensures BlocksOk(blocks) && blocks == Written(old(blocks), cs, target) && fat.fat == Linked(old(fat.fat), cs)
    {
      hide Picks, LinkedOpen, Written, Overwritten, Clusters, NextFree;
      ghost var fat0, blocks0, n, k := fat.fat, blocks, |cs|, 0;
      NothingLinked(fat0, cs);
      assert cs[0..] == cs;
      var prev: int := -1;
      var data, size := target, |target|;
      while true
        invariant 0 <= k < n && prev == (if k == 0 then -1 else cs[k - 1])
        invariant |data| == size && Clusters(size) == n - k && BlocksOk(blocks)
        invariant fat.fat == LinkedOpen(fat0, cs[..k])
        invariant Written(blocks, cs[k..], data) == Written(blocks0, cs, target)
        decreases size
      {
        NextPick(fat0, cs, k);
        LinkOneMore(fat0, cs, k);
        WriteOneMore(blocks, cs, data, k);
        OneClusterLess(size);
        var clusterNo := fat.FindFreeCluster(prev + 1);
        var cluster := clusterNo.value;
        if prev >= 0 {
          fat.PutNext(prev, cluster);
        }
        blocks := blocks[cluster := Overwritten(blocks[cluster], data)];
        if size <= CLUSTER_BYTES {
          fat.PutNext(cluster, 0xfff);
          assert cs[..k + 1] == cs && cs[k + 1..] == [];
          NothingLeft(blocks, cs[k + 1..], data[Min(|data|, CLUSTER_BYTES)..]);
          return;
        }
        prev := cluster;
        data := data[CLUSTER_BYTES..];
        size := size - CLUSTER_BYTES;
        k := k + 1;
      }
    }

    /** The `del` command. It finds every file there is, frees its clusters and touches no other file. */
    method Delete(name: string) returns (found: bool)
      requires Valid()
      modifies this`fat1, this`fat2, this`slots
      ensures Valid()
      ensures found <==> old(Bytes(name)).Some?
      ensures Bytes(name) == None
      ensures forall other :: other != name ==> Bytes(other) == old(Bytes(other))
      ensures Unpacked(fat1) == TableWithout(old(Unpacked(fat1)), old(slots), name)
      ensures slots == SlotsWithout(old(slots), name)
    {
      hide ImageOk, Unpacked, Packed, Del, LoadBytes;
      ImageFacts(Unpacked(fat1), slots, blocks);
      var dirinfo := new DirInfo(slots);
      var removed := dirinfo.Remove(name);
      if removed.None? {
        return false;
      }
      var fat := new Fat(fat1);
      ghost var k := FindIndex(slots, name);
      ghost var fat', slots' := DeleteKeepsImage(Unpacked(fat1), slots, blocks, k);
      var r := fat.Free(removed.value.cluster, removed.value.size);
      assert r.Freed?;
      FileIsOk(Unpacked(fat1), slots, blocks, k);
      LinksStay(fat1, removed.value, fat.fat);
      var newSlots := dirinfo.Write(slots);
      UsedBefore(slots, k);
      WriteLosesNothing(slots, dirinfo.fileinfos, newSlots, k);
      slots := newSlots;
      var data := fat.Write();
      UnpackUndoesPack(fat.fat);
      fat1, fat2 := data, data;
      found := true;
    }

    /** The `save` command: an old file of the name is deleted first, and stays deleted if there is no
        file to save or no room for it. What `load` prints afterwards is what was saved, and every other
        file is as it was. The new file lies in the lowest free clusters. */
    method SaveCommand(name: string, target: Option<seq<Byte>>) returns (ok: bool)
      requires Valid()
      modifies this
      ensures Valid()
      ensures var fat, dir := TableWithout(old(Unpacked(fat1)), old(slots), name), SlotsWithout(old(slots), name);
              && (ok <==> target.Some? && FreeCount(fat, 0) >= Clusters(|target.value|) && FreeIndex(dir) < |dir|)
              && (ok ==> InFat(fat, Picks(fat, 0, Clusters(|target.value|))))
              && (ok ==> Picks(fat, 0, Clusters(|target.value|)) != [])
              && (ok ==> Unpacked(fat1) == Linked(fat, Picks(fat, 0, Clusters(|target.value|))))
              && (!ok ==> Unpacked(fat1) == fat)
              && (ok ==> FindIndex(slots, name) < |slots| && slots[FindIndex(slots, name)].size == |target.value|)
              && (ok ==>
                    ChainOf(Unpacked(fat1), slots[FindIndex(slots, name)]) == Picks(fat, 0, Clusters(|target.value|)))
      ensures Bytes(name) == if ok then target else None
      ensures forall other :: other != name ==> Bytes(other) == old(Bytes(other))
    {
      hide ImageOk, Unpacked, Packed, Del, LoadBytes, Linked, Written, FreeCount, Picks, TableWithout, SlotsWithout,
           Clusters, FreeIndex,
           Follow;
      var found := Delete(name);
      label deleted:
      ImageFacts(Unpacked(fat1), slots, blocks);
      var dirinfo := new DirInfo(slots);
      var fat := new Fat(fat1);
      ok := Save(name, target, fat, dirinfo);
      if !ok {
        return;
      }
      ghost var k := FreeIndex(slots);
      NoSuchFile(Unpacked(fat1), slots, old@deleted(blocks), name);
      ghost var cs, fat', slots', blocks' := SaveKeepsImage(Unpacked(fat1), slots, old@deleted(blocks), name,
                                                            target.value);
      LinkedStay(fat1, cs, fat.fat);
      var newSlots := dirinfo.Write(slots);
      WriteLosesNothing(slots, dirinfo.fileinfos, newSlots, k);
      slots := newSlots;
      var data := fat.Write();
      UnpackUndoesPack(fat.fat);
      fat1, fat2 := data, data;
    }

    /** `load`: the bytes of the file, cluster by cluster, printed in order. */
    method Load(name: string) returns (printed: Option<seq<Byte>>)
      requires Valid()
      ensures printed == Bytes(name)
    {
      hide ImageOk, FileOk, LoadBytes, Follow, IsChain, Unpacked, FindIndex, Clusters;
      ghost var table := Unpacked(fat1);
      ImageFacts(table, slots, blocks);
      var dirinfo := new DirInfo(slots);
      var fat := new Fat(fat1);
      var index := dirinfo.Find(name);
      FoundFile(slots, name);
      if index.None? {
        return None;
      }
      var finfo := dirinfo.fileinfos[index.value];
      FileIsOk(table, slots, blocks, index.value);
      ghost var cs := ChainOf(table, finfo);
      FileChain(table, finfo);
      var out: seq<Byte>, cluster, sizeLeft := [], finfo.cluster, finfo.size;
      ghost var all, k := LoadBytes(table, blocks, cluster, sizeLeft), 0;
      while sizeLeft > 0
        invariant fat.fat == table && 0 <= k <= |cs|
        invariant sizeLeft > 0 ==> k < |cs| && cluster == cs[k] && Clusters(sizeLeft) == |cs| - k
        invariant all == out + LoadBytes(table, blocks, cluster, sizeLeft)
        decreases sizeLeft
      {
        ChainStep(table, cs, k);
        LoadStep(table, blocks, cluster, sizeLeft);
        OneClusterLess(sizeLeft);
        var size := Min(sizeLeft, CLUSTER_BYTES);
        ghost var rest := LoadBytes(table, blocks, table[cluster], sizeLeft - size);
        out := out + blocks[cluster][..size];
        sizeLeft := sizeLeft - size;
        cluster := fat.GetNext(cluster);
        assert all == out + rest;
        k := k + 1;
      }
      EmptyLoad(table, blocks, cluster);
      assert all == out;
      printed := Some(out);
      assert Bytes(name) == Some(all);
    }
  }

  lemma FoundFile(slots: seq<Slot>, name: string)
    ensures FindIndex(slots, name) <= |slots|
    ensures FindIndex(slots, name) < |slots| ==> slots[FindIndex(slots, name)].File?
  {
  }

  lemma OneClusterLess(size: nat)
    ensures size > CLUSTER_BYTES ==> Clusters(size) == Clusters(size - CLUSTER_BYTES) + 1
    ensures size <= CLUSTER_BYTES ==> Clusters(size) == 1
  {
  }

  lemma EmptyDirectory(slots: seq<Slot>)
    requires |slots| == FILE_COUNT && forall i :: 0 <= i < |slots| ==> slots[i] == Unused
    ensures DirOk(slots)
  {
  }

  lemma FormattedTable(data: seq<Byte>)
    requires |data| == FAT_BYTES && data[0] == 0xf0 && data[1] == 0xff && data[2] == 0xff
    requires forall i :: 3 <= i < |data| ==> data[i] == 0
    ensures |Unpacked(data)| == FAT_ENTRIES && Unpacked(data)[0] == 0xff0 && Unpacked(data)[1] == 0xfff
    ensures forall k :: RESERVED <= k < FAT_ENTRIES ==> Unpacked(data)[k] == 0
    ensures FreeCount(Unpacked(data), 0) == FAT_ENTRIES - RESERVED
  {
    hide FreeCount, Link;
    var fat := Unpacked(data);
    FirstLinks(data);
    forall k | RESERVED <= k < FAT_ENTRIES
      ensures fat[k] == 0
    {
      ZeroLink(data, k);
    }
    AllFree(fat, RESERVED);
    FreeFromReserved(fat);
  }

  lemma FirstLinks(data: seq<Byte>)
    requires |data| == FAT_BYTES && data[0] == 0xf0 && data[1] == 0xff && data[2] == 0xff
    ensures Link(data, 0) == 0xff0 && Link(data, 1) == 0xfff
  {
  }

  lemma ZeroLink(data: seq<Byte>, k: nat)
    requires |data| == FAT_BYTES && RESERVED <= k < FAT_ENTRIES && forall i :: 3 <= i < |data| ==> data[i] == 0
    ensures Link(data, k) == 0
  {
    assert 3 <= 3 * (k / 2) <= |data| - 3;
  }

  lemma {:induction false} AllFree(fat: seq<nat>, from: nat)
    requires from <= |fat| && forall k :: from <= k < |fat| ==> fat[k] == 0
    ensures FreeCount(fat, from) == |fat| - from
    decreases |fat| - from
  {
    if from < |fat| {
      AllFree(fat, from + 1);
    }
  }

  lemma FreeFromReserved(fat: seq<nat>)
    requires |fat| == FAT_ENTRIES && fat[0] != 0 && fat[1] != 0
    ensures FreeCount(fat, 0) == FreeCount(fat, RESERVED)
  {
    assert FreeCount(fat, 0) == FreeCount(fat, 1);
  }

  /** The `format` command and then the `save` command: whatever fits the table is saved. */
  method FormatThenSave(name: string, target: seq<Byte>) returns (image: Image, ok: bool)
    ensures image.Valid() && fresh(image)
    ensures ok <==> Clusters(|target|) <= FAT_ENTRIES - RESERVED
    ensures ok ==> image.Bytes(name) == Some(target)
  {
    hide ImageOk, Unpacked, Del, LoadBytes, Linked, FreeCount, Picks, Clusters, Follow;
    image := new Image();
    ImageFacts(Unpacked(image.fat1), image.slots, image.blocks);
    NothingThere(image.slots, name);
    assert TableWithout(Unpacked(image.fat1), image.slots, name) == Unpacked(image.fat1);
    ok := image.SaveCommand(name, Some(target));
  }

  lemma NothingThere(slots: seq<Slot>, name: string)
    requires slots != [] && forall i :: 0 <= i < |slots| ==> slots[i] == Unused
    ensures FindIndex(slots, name) == |slots| && FreeIndex(slots) == 0
  {
  }

  /** The `save` command for a new name, and the `del` command for it: the table is the old one again
      exactly when the file was not empty. */
  method SaveThenDelete(image: Image, name: string, target: seq<Byte>) returns (ok: bool)
    requires image.Valid() && image.Bytes(name) == None
    modifies image
    ensures image.Valid() && forall other :: image.Bytes(other) == old(image.Bytes(other))
    ensures ok ==> (Unpacked(image.fat1) == old(Unpacked(image.fat1)) <==> |target| > 0)
    ensures !ok ==> Unpacked(image.fat1) == old(Unpacked(image.fat1))
  {
    hide ImageOk, Unpacked, Del, LoadBytes, Linked, FreeCount, Picks, Clusters, FindIndex, Follow;
    ghost var table, dir := Unpacked(image.fat1), image.slots;
    FoundFile(dir, name);
    assert TableWithout(table, dir, name) == table;
    ImageFacts(table, dir, image.blocks);
    ok := image.SaveCommand(name, Some(target));
    if !ok {
      return;
    }
    ghost var saved, slots := Unpacked(image.fat1), image.slots;
    FoundFile(slots, name);
    FileIsOk(saved, slots, image.blocks, FindIndex(slots, name));
    FileChain(saved, slots[FindIndex(slots, name)]);
    SpaceIsPicks(table, |target|);
    DeleteUndoesSave(table, |target|, Picks(table, 0, Clusters(|target|)));
    var found := image.Delete(name);
    DelGivesTable(saved, slots[FindIndex(slots, name)], table);
  }

  /** Deletion along a file's chain ends well, so that its table alone says what it gave. */
  lemma DelGivesTable(fat: seq<nat>, f: Slot, before: seq<nat>)
    requires f.File? && FileOk(fat, f)
    ensures Del(fat, f.cluster, FreedClusters(f.size)) == Freed(before) <==>
              Del(fat, f.cluster, FreedClusters(f.size)).fat == before
  {
    DelOfFile(fat, f);
  }

  lemma ImageFacts(fat: seq<nat>, slots: seq<Slot>, blocks: seq<Block>)
    requires ImageOk(fat, slots, blocks)
    ensures |fat| == FAT_ENTRIES == |blocks| && BlocksOk(blocks) && DirOk(slots)
  {
  }

  lemma FileIsOk(fat: seq<nat>, slots: seq<Slot>, blocks: seq<Block>, k: nat)
    requires ImageOk(fat, slots, blocks) && k < |slots| && slots[k].File?
    ensures FileOk(fat, slots[k]) && fat[0] != 0 && fat[1] != 0
  {
  }

  lemma FileChain(fat: seq<nat>, f: Slot)
    requires f.File? && FileOk(fat, f)
    ensures var cs := ChainOf(fat, f);
            |cs| == Clusters(f.size) && IsChain(fat, cs) && cs[0] == f.cluster
  {
    FollowStarts(fat, f.cluster, Clusters(f.size));
  }

  lemma ChainStep(fat: seq<nat>, cs: seq<nat>, k: nat)
    requires IsChain(fat, cs) && k < |cs|
    ensures |fat| == FAT_ENTRIES && cs[k] < |fat|
    ensures k + 1 < |cs| ==> fat[cs[k]] == cs[k + 1] < |fat|
  {
  }

  lemma LoadStep(fat: seq<nat>, blocks: seq<Block>, cluster: nat, size: nat)
    requires BlocksOk(blocks) && cluster < |fat| == |blocks| && size > 0
    ensures |blocks[cluster]| == CLUSTER_BYTES
    ensures LoadBytes(fat, blocks, cluster, size) ==
            blocks[cluster][..Min(size, CLUSTER_BYTES)] + LoadBytes(fat, blocks, fat[cluster],
                                                                    size - Min(size, CLUSTER_BYTES))
    ensures LoadBytes(fat, blocks, fat[cluster], 0) == []
  {
  }

  lemma EmptyLoad(fat: seq<nat>, blocks: seq<Block>, cluster: nat)
    requires BlocksOk(blocks) && |fat| == |blocks|
    ensures LoadBytes(fat, blocks, cluster, 0) == []
  {
  }

  lemma NoSuchFile(fat: seq<nat>, slots: seq<Slot>, blocks: seq<Block>, name: string)
    requires ImageOk(fat, slots, blocks) && Loaded(fat, slots, blocks, name) == None
    ensures forall i :: 0 <= i < |slots| && slots[i].File? ==> slots[i].name != name
  {
    if i :| 0 <= i < |slots| && slots[i].File? && slots[i].name == name {
      FindIndexFinds(slots, name, i, 0);
    }
  }

  lemma UsedBefore(slots: seq<Slot>, k: nat)
    requires DirOk(slots) && k < |slots| && slots[k].File?
    ensures k > 0 ==> !slots[k - 1].Unused?
  {
  }

  lemma LinksStay(data: seq<Byte>, f: Slot, fat: seq<nat>)
    requires |data| == FAT_BYTES && f.File? && FileOk(Unpacked(data), f)
    requires fat == Del(Unpacked(data), f.cluster, FreedClusters(f.size)).fat
    ensures Links(fat)
  {
    hide FileOk, Del, Follow, Cleared;
    var table := Unpacked(data);
    DelOfFile(table, f);
    ClearedEntries(table, ChainOf(table, f));
    assert forall c :: 0 <= c < |table| ==> table[c] < 4096;
  }

  lemma LinkedStay(data: seq<Byte>, cs: seq<nat>, fat: seq<nat>)
    requires |data| == FAT_BYTES && cs == Picks(Unpacked(data), 0, |cs|) && |cs| > 0 && InFat(Unpacked(data), cs)
    requires fat == Linked(Unpacked(data), cs)
    ensures Links(fat)
  {
    hide Linked, Picks;
    var table := Unpacked(data);
    PicksAreFree(table, 0, |cs|);
    LinkedLinks(table, cs);
    assert forall c :: 0 <= c < |table| ==> table[c] < 4096;
    forall c | 0 <= c < |fat|
      ensures fat[c] < 4096
    {
      if c in cs {
        var i :| 0 <= i < |cs| && cs[i] == c;
        ChainLinks(fat, cs, i);
      }
    }
  }

  lemma ChainLinks(fat: seq<nat>, cs: seq<nat>, i: nat)
    requires IsChain(fat, cs) && i < |cs|
    ensures fat[cs[i]] < 4096
  {
    if i + 1 < |cs| {
      assert fat[cs[i]] == cs[i + 1] < |fat|;
    }
  }
}
