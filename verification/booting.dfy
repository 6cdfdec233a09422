/** The tool and the boot sector together: the image that the tool leaves, seen as the sectors of a
    disk, and what the boot sector loads from it. */
module Booting {
  import opened Options
  import opened FatLinks
  import opened FatFiles
  import opened FatPacking
  import opened FatTool
  import opened FatBoot

  const FAT_SECTORS: nat := FAT_BYTES / CLUSTER_BYTES

  /** Sector of the first cluster that files use. */
  const ENTITY_START: nat := CLUSTER_OFFSET + RESERVED

  ghost predicate DiskShape(disk: seq<Block>) {
    |disk| == DISK_SECTORS && forall s :: 0 <= s < |disk| ==> |disk[s]| == CLUSTER_BYTES
  }

  /** The image as sectors: the two copies of the table behind the boot sector, and the clusters behind
      the directory. The boot sector and the directory are those of `others`. */
  function DiskOf(others: seq<Block>, fat1: seq<Byte>, fat2: seq<Byte>, blocks: seq<Block>): (disk: seq<Block>)
    requires DiskShape(others) && |fat1| == |fat2| == FAT_BYTES && BlocksOk(blocks)
    ensures |disk| == DISK_SECTORS
  {
    seq(DISK_SECTORS, s requires 0 <= s < DISK_SECTORS => SectorAt(others, fat1, fat2, blocks, s))
  }

  function SectorAt(others: seq<Block>, fat1: seq<Byte>, fat2: seq<Byte>, blocks: seq<Block>, s: nat): (sector: Block)
    requires DiskShape(others) && |fat1| == |fat2| == FAT_BYTES && BlocksOk(blocks) && s < DISK_SECTORS
    ensures |sector| == CLUSTER_BYTES
  {
    if 1 <= s < 1 + FAT_SECTORS then fat1[(s - 1) * CLUSTER_BYTES..s * CLUSTER_BYTES]
    else if 1 + FAT_SECTORS <= s < 1 + 2 * FAT_SECTORS then
      fat2[(s - 1 - FAT_SECTORS) * CLUSTER_BYTES..(s - FAT_SECTORS) * CLUSTER_BYTES]
    else if s >= ENTITY_START then blocks[s - CLUSTER_OFFSET]
    else others[s]
  }

  /** The boot sector finds table and clusters where the tool has put them. */
  lemma ImageIsOnDisk(others: seq<Block>, fat1: seq<Byte>, fat2: seq<Byte>, blocks: seq<Block>)
    requires DiskShape(others) && |fat1| == |fat2| == FAT_BYTES && BlocksOk(blocks)
    ensures OnDisk(DiskOf(others, fat1, fat2, blocks), fat1, blocks)
  {
    var disk := DiskOf(others, fat1, fat2, blocks);
    forall i | 0 <= i < FAT_BYTES
      ensures 1 + i / 512 < |disk| && |disk[1 + i / 512]| == CLUSTER_BYTES && disk[1 + i / 512][i % 512] == fat1[i]
    {
      assert i == i / 512 * 512 + i % 512;
      assert disk[1 + i / 512] == fat1[i / 512 * CLUSTER_BYTES..(1 + i / 512) * CLUSTER_BYTES];
    }
  }

  /** A file that was saved while enough clusters of the disk were free has all its clusters there. */
  lemma ChainIsOnDisk(fat: seq<nat>, n: nat)
    requires |fat| == FAT_ENTRIES && FreeCount(fat[..CLUSTERS_ON_DISK], 0) >= n
    ensures FreeCount(fat, 0) >= n && |Picks(fat, 0, n)| == n
    ensures forall i :: 0 <= i < n ==> Picks(fat, 0, n)[i] < CLUSTERS_ON_DISK
  {
    FreeInFront(fat, CLUSTERS_ON_DISK, 0);
    EnoughPicks(fat, 0, n);
    PicksStayOnDisk(fat, 0, n);
  }

  /** The `save` command, and then the boot sector's search of the directory and its loading loop: with
      room in the directory and on the disk, the segment starts with the bytes that were saved, for every
      content of at most 64 KB. */
  method SaveThenBoot(image: Image, name: string, target: seq<Byte>, others: seq<Block>, segment: seq<Block>)
      returns (ok: bool, memory: seq<Block>)
    requires image.Valid() && DiskShape(others) && |segment| == SEGMENT_SECTORS && Clusters(|target|) <= SEGMENT_SECTORS
    requires var fat := TableWithout(Unpacked(image.fat1), image.slots, name);
             FreeCount(fat[..CLUSTERS_ON_DISK], 0) >= Clusters(|target|)
    modifies image
    ensures image.Valid()
    ensures ok <==> FreeIndex(SlotsWithout(old(image.slots), name)) < |old(image.slots)|
    ensures ok ==> |memory| == SEGMENT_SECTORS
    ensures ok ==> |target| <= |Joined(memory[..Clusters(|target|)])|
    ensures ok ==> Joined(memory[..Clusters(|target|)])[..|target|] == target
  {
    hide OnDisk, FreeCount, Picks, Follow, Unpacked, TableWithout, LoadBytes, IsChain, FileOk, Joined, Stored,
         FindIndex,
         DiskOf, ImageOk, SlotsWithout, Clusters, FreeIndex, BlocksOf;
    ghost var fat := TableWithout(Unpacked(image.fat1), image.slots, name);
    ImageFacts(Unpacked(image.fat1), image.slots, image.blocks);
    ChainIsOnDisk(fat, Clusters(|target|));
    ok := image.SaveCommand(name, Some(target));
    if !ok {
      return false, segment;
    }
    ImageFacts(Unpacked(image.fat1), image.slots, image.blocks);
    var found := SearchRootDir(image.slots, name);
    SearchesAgree(image.slots, name, found);
    var k := found.value;
    ghost var table := Unpacked(image.fat1);
    ImageFacts(table, image.slots, image.blocks);
    FoundFile(image.slots, name);
    FileIsOk(table, image.slots, image.blocks, k);
    var f := image.slots[k];
    FileChain(table, f);
    ghost var cs := ChainOf(table, f);
    ChainInRange(table, f);
    ImageIsOnDisk(others, image.fat1, image.fat2, image.blocks);
    memory := LoadChain(DiskOf(others, image.fat1, image.fat2, image.blocks), f.cluster, segment, image.fat1,
                        image.blocks, cs);
    BootLoadsTheFile(image.fat1, image.blocks, f, segment);
  }

  lemma ChainInRange(fat: seq<nat>, f: Slot)
    requires f.File? && FileOk(fat, f)
    ensures forall i :: 0 <= i < |ChainOf(fat, f)| ==> RESERVED <= ChainOf(fat, f)[i] < |fat|
  {
    FileOkFacts(fat, f);
    var cs := ChainOf(fat, f);
    assert forall i :: 0 <= i < |cs| ==> cs[i] in cs;
  }
}
