/** The second reader of the image: the boot sector. It finds links with 16-bit reads from the packed
    table, turns sector numbers into cylinder, head and sector, and loads a file cluster by cluster
    into one 64 KB segment. Masks and shifts of the source are written as remainders, products and quotients
    by powers of two. */
module FatBoot {
  import opened Options
  import opened FatLinks
  import opened FatFiles
  import opened FatPacking

  const DISK_SECTORS: nat := 2880
  const SECTORS_PER_TRACK: nat := 18

  /** Sector number of a cluster: root directory sectors plus the boot sector's balance. */
  const CLUSTER_OFFSET: nat := 14 + 17

  /** The tool's byte address of cluster 0. */
  const ENTITY_ADDRESS: nat := 0x3e00

  /** Sectors that fit the segment the boot sector loads to. */
  const SEGMENT_SECTORS: nat := 128

  // ---- the disk ----

  /** The image seen as sectors: the packed table from sector 1 on, and the clusters that are on it. */
  ghost predicate OnDisk(disk: seq<Block>, table: seq<Byte>, blocks: seq<Block>) {
    && |disk| == DISK_SECTORS && (forall s :: 0 <= s < |disk| ==> |disk[s]| == CLUSTER_BYTES)
    && |table| == FAT_BYTES && (forall i :: 0 <= i < FAT_BYTES ==> disk[1 + i / 512][i % 512] == table[i])
    && BlocksOk(blocks)
    && (forall c :: RESERVED <= c < |blocks| && c + CLUSTER_OFFSET < DISK_SECTORS ==>
        disk[c + CLUSTER_OFFSET] == blocks[c])
  }

  /** The tool writes cluster `c` at the start of the sector that the boot sector reads for it. */
  lemma ClusterSector(c: nat)
    ensures (ENTITY_ADDRESS + c * CLUSTER_BYTES) / 512 == c + CLUSTER_OFFSET
    ensures (ENTITY_ADDRESS + c * CLUSTER_BYTES) % 512 == 0
  {
  }

  /** What the BIOS reads: the sector at a cylinder, a head and a sector number that starts at 1. */
  function BiosSector(disk: seq<Block>, cylinder: nat, head: nat, number: nat): Block
    requires |disk| == DISK_SECTORS && cylinder < 80 && head < 2 && 1 <= number <= 18
  {
    disk[(cylinder * 2 + head) * 18 + (number - 1)]
  }

  /** The split of a sector number in `Func_ReadOneSector`: the parts are in the ranges of the disk and name
      the sector. */
  method SplitSector(sector: nat) returns (ch: nat, dh: nat, cl: nat)
    requires sector < DISK_SECTORS
    ensures ch < 80 && dh < 2 && 1 <= cl <= 18 && ch * 36 + dh * 18 + cl == sector + 1
  {
    var quotient, remainder := sector / SECTORS_PER_TRACK, sector % SECTORS_PER_TRACK;
    cl := remainder + 1;
    dh := quotient % 2;
    ch := quotient / 2;
  }

  /** `Func_ReadOneSector` */
  method ReadOneSector(disk: seq<Block>, sector: nat) returns (data: Block)
    requires sector < |disk| == DISK_SECTORS
    ensures data == disk[sector]
  {
    var ch, dh, cl := SplitSector(sector);
    assert (ch * 2 + dh) * 18 + (cl - 1) == sector;
    data := BiosSector(disk, ch, dh, cl);
  }

  /** `Func_GetFATEntry`: a 16-bit read at byte `cluster * 3 / 2` of the table, shifted for an odd
      cluster, masked to 12 bits. It is the link that the tool unpacks. */
  method GetFatEntry(disk: seq<Block>, cluster: nat, ghost table: seq<Byte>, ghost blocks: seq<Block>) returns (ax: nat)
    requires OnDisk(disk, table, blocks) && cluster < FAT_ENTRIES
    ensures ax == Link(table, cluster) == Unpacked(table)[cluster]
  {
    var product := cluster * 3;
    var odd := product % 2 != 0;
    ax := product / 2;
    var offset := ax % 512;
    var first := ReadOneSector(disk, ax / 512 + 1);
    var second := ReadOneSector(disk, ax / 512 + 2);
    var buffer := first + second;
    OffsetOfLink(cluster);
    TableBytes(disk, table, blocks, ax);
    TableBytes(disk, table, blocks, ax + 1);
    ghost var below, above := table[ax], table[ax + 1];
    assert buffer[offset] == below && buffer[offset + 1] == above;
    ax := buffer[offset];
    var high: nat := buffer[offset + 1];
    ax := ax + 256 * high;
    if odd {
      ax := ax / 16;
    }
    ax := ax % 4096;
    WordIsLink(below, above);
  }

  lemma OffsetOfLink(k: nat)
    ensures k * 3 / 2 == if k % 2 == 0 then 3 * (k / 2) else 3 * (k / 2) + 1
    ensures k * 3 % 2 == k % 2
    ensures k < FAT_ENTRIES ==> k * 3 / 2 + 1 < FAT_BYTES
  {
  }

  lemma TableBytes(disk: seq<Block>, table: seq<Byte>, blocks: seq<Block>, i: nat)
    requires OnDisk(disk, table, blocks) && i < FAT_BYTES
    ensures i / 512 + 2 < |disk| && table[i] == disk[i / 512 + 1][i % 512]
  {
  }

  lemma WordIsLink(low: Byte, high: Byte)
    ensures var word := 256 * high + low;
            word % 4096 == EvenLink(low, high) && word / 16 % 4096 == OddLink(low, high)
  {
    var word, top := 256 * high + low, high / 16;
    assert high == 16 * top + high % 16;
    assert word == 4096 * top + (256 * (high % 16) + low);
    assert word / 16 == 16 * high + low / 16;
  }

  // ---- finding a file ----

  /** Sectors of the root directory, and the slots in one of them. */
  const DIRECTORY_SECTORS: nat := 14
  const SLOTS_PER_SECTOR: nat := 16

  /** The first file of the name, wherever unused slots are. */
  ghost predicate IsFirstNamed(slots: seq<Slot>, name: string, i: nat) {
    && i <= |slots| && (i < |slots| ==> slots[i].File? && slots[i].name == name)
    && (forall j :: 0 <= j < i ==> !(slots[j].File? && slots[j].name == name))
  }

  /** `Lable_Search_In_Root_Dir_Begin`: sector by sector and slot by slot. Unlike the tool's search it does
      not stop at an unused slot. */
  method SearchRootDir(slots: seq<Slot>, name: string) returns (index: Option<nat>)
    requires |slots| == FILE_COUNT
    ensures index.Some? ==> index.value < |slots|
    ensures IsFirstNamed(slots, name, if index.Some? then index.value else |slots|)
  {
    var sector := 0;
    while sector < DIRECTORY_SECTORS
      invariant 0 <= sector <= DIRECTORY_SECTORS
      invariant forall j :: 0 <= j < sector * SLOTS_PER_SECTOR ==> !(slots[j].File? && slots[j].name == name)
    {
      var left := SLOTS_PER_SECTOR;
      while left > 0
        invariant 0 <= left <= SLOTS_PER_SECTOR
        invariant forall j :: 0 <= j < (sector + 1) * SLOTS_PER_SECTOR - left ==>
                  !(slots[j].File? && slots[j].name == name)
      {
        var i := (sector + 1) * SLOTS_PER_SECTOR - left;
        if slots[i].File? && slots[i].name == name {
          return Some(i);
        }
        left := left - 1;
      }
      sector := sector + 1;
    }
    index := None;
  }

  /** In a proper directory both searches find the same slot, or none. */
  lemma SearchesAgree(slots: seq<Slot>, name: string, index: Option<nat>)
    requires DirOk(slots) && IsFirstNamed(slots, name, if index.Some? then index.value else |slots|)
    ensures FindIndex(slots, name) == if index.Some? then index.value else |slots|
  {
    var i := if index.Some? then index.value else |slots|;
    if i < |slots| {
      FindIndexFinds(slots, name, i, 0);
    } else {
      FindIndexMisses(slots, name, 0);
    }
  }

  // ---- loading a file ----

  function BlocksOf(blocks: seq<Block>, cs: seq<nat>): seq<Block>
    requires forall i :: 0 <= i < |cs| ==> cs[i] < |blocks|
  {
    seq(|cs|, i requires 0 <= i < |cs| => blocks[cs[i]])
  }

  /** The segment after storing the sectors of `list` at growing offsets that wrap at 64 KB. */
  function Stored(memory: seq<Block>, list: seq<Block>): (r: seq<Block>)
    requires |memory| == SEGMENT_SECTORS
    ensures |r| == SEGMENT_SECTORS
  {
    if list == [] then memory
    else
      var n := |list| - 1;
      Stored(memory, list[..n])[n % SEGMENT_SECTORS := list[n]]
  }

  /** `Label_Go_On_Loading_File`: the boot sector follows the links from the first cluster and stores
      one sector for each until it reads the end mark. */
  method LoadChain(disk: seq<Block>, start: nat, segment: seq<Block>, ghost table: seq<Byte>, ghost blocks: seq<Block>,
                   ghost cs: seq<nat>) returns (memory: seq<Block>)
    requires OnDisk(disk, table, blocks) && |segment| == SEGMENT_SECTORS
    requires IsChain(Unpacked(table), cs) && start == cs[0]
    requires forall i :: 0 <= i < |cs| ==> RESERVED <= cs[i] && cs[i] + CLUSTER_OFFSET < DISK_SECTORS
    ensures forall i :: 0 <= i < |cs| ==> cs[i] < |blocks|
    ensures memory == Stored(segment, BlocksOf(blocks, cs))
  {
    hide OnDisk, IsChain, BlocksOf, Stored, Unpacked;
    DiskFacts(disk, table, blocks, cs);
    memory := segment;
    NoBlocks(segment, blocks, cs);
    var bx := 0;
    var cluster := start;
    ghost var i := 0;
    while true
      invariant 0 <= i < |cs| && cluster == cs[i] && bx == i * 512 % 65536
      invariant memory == Stored(segment, BlocksOf(blocks, cs[..i]))
      decreases |cs| - i
    {
      ChainFacts(table, cs, i);
      DiskCluster(disk, table, blocks, cluster);
      var data := ReadOneSector(disk, cluster + 14 + 17);
      OneMoreBlock(segment, blocks, cs, i);
      Offset(i);
      memory := memory[bx / 512 := data];
      var next := GetFatEntry(disk, cluster, table, blocks);
      if next == 0xfff {
        assert cs[..i + 1] == cs;
        return;
      }
      cluster := next;
      bx := (bx + 512) % 65536;
      i := i + 1;
    }
  }

  lemma ChainFacts(table: seq<Byte>, cs: seq<nat>, i: nat)
    requires IsChain(Unpacked(table), cs) && i < |cs|
    ensures cs[i] < FAT_ENTRIES
    ensures |Unpacked(table)| == FAT_ENTRIES
    ensures i < |cs| - 1 ==> Unpacked(table)[cs[i]] == cs[i + 1] < FAT_ENTRIES
    ensures i == |cs| - 1 ==> Unpacked(table)[cs[i]] == END
  {
  }

  lemma DiskFacts(disk: seq<Block>, table: seq<Byte>, blocks: seq<Block>, cs: seq<nat>)
    requires OnDisk(disk, table, blocks) && IsChain(Unpacked(table), cs)
    ensures |disk| == DISK_SECTORS && |blocks| == FAT_ENTRIES && |cs| > 0 && forall i :: 0 <= i < |cs| ==>
            cs[i] < |blocks|
  {
  }

  lemma DiskCluster(disk: seq<Block>, table: seq<Byte>, blocks: seq<Block>, c: nat)
    requires OnDisk(disk, table, blocks) && RESERVED <= c < |blocks| && c + CLUSTER_OFFSET < DISK_SECTORS
    ensures |disk| == DISK_SECTORS && disk[c + CLUSTER_OFFSET] == blocks[c]
  {
  }

  lemma NoBlocks(segment: seq<Block>, blocks: seq<Block>, cs: seq<nat>)
    requires |segment| == SEGMENT_SECTORS && forall j :: 0 <= j < |cs| ==> cs[j] < |blocks|
    ensures Stored(segment, BlocksOf(blocks, cs[..0])) == segment
  {
  }

  lemma OneMoreBlock(segment: seq<Block>, blocks: seq<Block>, cs: seq<nat>, i: nat)
    requires |segment| == SEGMENT_SECTORS && i < |cs| && forall j :: 0 <= j < |cs| ==> cs[j] < |blocks|
    ensures Stored(segment, BlocksOf(blocks, cs[..i + 1])) ==
            Stored(segment, BlocksOf(blocks, cs[..i]))[i % SEGMENT_SECTORS := blocks[cs[i]]]
  {
    var list := BlocksOf(blocks, cs[..i + 1]);
    assert |list| == i + 1 && list[..i] == BlocksOf(blocks, cs[..i]) && list[i] == blocks[cs[i]];
  }

  lemma Offset(i: nat)
    ensures i * 512 % 65536 / 512 == i % SEGMENT_SECTORS
    ensures (i * 512 % 65536 + 512) % 65536 == (i + 1) * 512 % 65536
  {
    var round, slot := i / SEGMENT_SECTORS, i % SEGMENT_SECTORS;
    assert i * 512 == 65536 * round + 512 * slot;
    assert i * 512 % 65536 == 512 * slot;
    if slot == SEGMENT_SECTORS - 1 {
      assert (i + 1) * 512 == 65536 * (round + 1);
    }
  }

  /** The last of the first `n` indices that fall on slot `s`. */
  function Latest(n: nat, s: nat): (k: nat)
    requires s < n && s < SEGMENT_SECTORS
    ensures k < n
  {
    s + SEGMENT_SECTORS * ((n - 1 - s) / SEGMENT_SECTORS)
  }

  lemma LatestStep(n: nat, s: nat)
    requires s < n && s < SEGMENT_SECTORS
    ensures (n - 1) % SEGMENT_SECTORS != s ==> s < n - 1
    ensures Latest(n, s) == if (n - 1) % SEGMENT_SECTORS == s then n - 1 else Latest(n - 1, s)
  {
    var q, r := (n - 1) / SEGMENT_SECTORS, (n - 1) % SEGMENT_SECTORS;
    assert n - 1 == SEGMENT_SECTORS * q + r;
    if r < s {
      assert n - 1 - s == SEGMENT_SECTORS * (q - 1) + (SEGMENT_SECTORS + r - s);
    }
  }

  /** Slot `s` of the segment holds the last of the sectors that were stored there. */
  lemma {:induction false} SlotHolds(memory: seq<Block>, list: seq<Block>, s: nat)
    requires |memory| == SEGMENT_SECTORS && s < SEGMENT_SECTORS
    ensures Stored(memory, list)[s] == if s < |list| then list[Latest(|list|, s)] else memory[s]
  {
    hide Latest;
    if list != [] {
      var n := |list| - 1;
      SlotHolds(memory, list[..n], s);
      if s <= n {
        LatestStep(n + 1, s);
      } else {
        BelowItself(n);
      }
    }
  }

  lemma BelowItself(n: nat)
    requires n < SEGMENT_SECTORS
    ensures n % SEGMENT_SECTORS == n
  {
  }

  function Joined(list: seq<Block>): seq<Byte> {
    if list == [] then [] else list[0] + Joined(list[1..])
  }

  lemma {:induction false} JoinedIsContent(blocks: seq<Block>, cs: seq<nat>, size: nat)
    requires BlocksOk(blocks) && (forall i :: 0 <= i < |cs| ==> cs[i] < |blocks|)
    requires size <= |cs| * CLUSTER_BYTES && (size > 0 ==> (|cs| - 1) * CLUSTER_BYTES < size) && (size == 0 ==>
        |cs| <= 1)
    ensures size <= |Joined(BlocksOf(blocks, cs))| && Joined(BlocksOf(blocks, cs))[..size] == Content(blocks, cs, size)
    decreases cs
  {
    if cs != [] {
      var list, rest := BlocksOf(blocks, cs), cs[1..];
      assert list[1..] == BlocksOf(blocks, rest);
      JoinedIsContent(blocks, rest, size - Min(size, CLUSTER_BYTES));
    }
  }

  /** The boot sector loads what the tool's `load` prints, for every file of at most 64 KB whose
      clusters are on the disk: the start of the segment is the file. */
  lemma BootLoadsTheFile(table: seq<Byte>, blocks: seq<Block>, f: Slot, segment: seq<Block>)
    requires BlocksOk(blocks) && f.File? && FileOk(Unpacked(table), f) && |segment| == SEGMENT_SECTORS
    requires Clusters(f.size) <= SEGMENT_SECTORS
    ensures var cs := ChainOf(Unpacked(table), f);
            && (forall i :: 0 <= i < |cs| ==> cs[i] < |blocks|)
            && (var memory := Stored(segment, BlocksOf(blocks, cs));
                && f.size <= |Joined(memory[..|cs|])|
                && Joined(memory[..|cs|])[..f.size] == LoadBytes(Unpacked(table), blocks, f.cluster, f.size))
  {
    hide Stored, Joined, Content, LoadBytes, Unpacked, Follow;
    var fat := Unpacked(table);
    var cs := ChainOf(fat, f);
    var list := BlocksOf(blocks, cs);
    var memory := Stored(segment, list);
    forall s | 0 <= s < |cs|
      ensures memory[s] == list[s]
    {
      SlotHolds(segment, list, s);
    }
    assert memory[..|cs|] == list;
    JoinedIsContent(blocks, cs, f.size);
    FollowStarts(fat, f.cluster, Clusters(f.size));
    LoadIsContent(fat, blocks, cs, f.size);
  }

  /** Beyond 64 KB the offset wraps: the first slot is sure to hold the first of `n` sectors exactly when
      there are at most 128, and a longer list that starts with a sector of its own loses it. */
  lemma LongFilesOverwriteThemselves(segment: seq<Block>, n: nat)
    requires |segment| == SEGMENT_SECTORS && n > 0
    ensures (forall list: seq<Block> :: |list| == n ==> Stored(segment, list)[0] == list[0]) <==> n <= SEGMENT_SECTORS
    ensures forall list: seq<Block> :: |list| == n > SEGMENT_SECTORS && list[0] !in list[1..] ==>
              Stored(segment, list)[0] != list[0]
  {
    hide Stored;
    forall list: seq<Block> | |list| == n
      ensures Stored(segment, list)[0] == list[Latest(n, 0)]
    {
      SlotHolds(segment, list, 0);
    }
    forall list: seq<Block> | |list| == n > SEGMENT_SECTORS && list[0] !in list[1..]
      ensures Stored(segment, list)[0] != list[0]
    {
      assert list[1..][Latest(n, 0) - 1] == list[Latest(n, 0)];
    }
    if n > SEGMENT_SECTORS {
      var first: Block, other: Block := [], [0];
      var list := [first] + seq(n - 1, _ => other);
      assert |list| == n && first != other && forall k :: 1 <= k < n ==> list[k] == other;
      assert list[0] !in list[1..];
    }
  }

  // ---- when the tool stays on the disk ----

  const CLUSTERS_ON_DISK: nat := DISK_SECTORS - CLUSTER_OFFSET

  /** The free-cluster search, which ranges over the whole table, stays on the disk exactly when
      enough of the clusters on the disk are free. */
  lemma {:induction false} PicksStayOnDisk(fat: seq<nat>, from: nat, n: nat)
    requires |fat| == FAT_ENTRIES && from <= CLUSTERS_ON_DISK && |Picks(fat, from, n)| == n
    ensures (forall i :: 0 <= i < n ==> Picks(fat, from, n)[i] < CLUSTERS_ON_DISK) <==>
              FreeCount(fat[..CLUSTERS_ON_DISK], from) >= n
    decreases n
  {
    var front := fat[..CLUSTERS_ON_DISK];
    var c := NextFree(fat, from);
    NextFreeInFront(fat, from);
    FreeCountSkips(front, from);
    if n > 0 {
      var cs, rest := Picks(fat, from, n), Picks(fat, c + 1, n - 1);
      assert cs == [c] + rest;
      assert cs[0] == c;
      if c < CLUSTERS_ON_DISK {
        PicksStayOnDisk(fat, c + 1, n - 1);
        assert forall i :: 0 <= i < n - 1 ==> rest[i] == cs[i + 1];
      }
    }
  }

  lemma {:induction false} NextFreeInFront(fat: seq<nat>, from: nat)
    requires |fat| == FAT_ENTRIES && from <= CLUSTERS_ON_DISK
    ensures var front := fat[..CLUSTERS_ON_DISK];
            NextFree(front, from) == if NextFree(fat, from) < CLUSTERS_ON_DISK then NextFree(fat, from)
              else CLUSTERS_ON_DISK
    decreases FAT_ENTRIES - from
  {
    if from < CLUSTERS_ON_DISK && fat[from] != 0 {
      NextFreeInFront(fat, from + 1);
    }
  }

  /** A table whose only free cluster is past the end of the disk: the search finds it. */
  lemma PicksLeaveTheDisk() returns (fat: seq<nat>)
    ensures |fat| == FAT_ENTRIES && Picks(fat, 0, 1) == [3000] && 3000 > CLUSTERS_ON_DISK
  {
    fat := seq(FAT_ENTRIES, _ => END)[3000 := 0];
    OnlyFree(fat, 3000);
    assert Picks(fat, 3001, 0) == [];
  }

  lemma OnlyFree(fat: seq<nat>, c: nat)
    requires c < |fat| && forall k :: 0 <= k < |fat| ==> (fat[k] == 0 <==> k == c)
    ensures NextFree(fat, 0) == c
  {
    assert fat[c] == 0;
  }
}
