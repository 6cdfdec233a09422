# Verification model of a small x86-64 kernel and its disk tool

The project models six parts of the repository that keep state and change it in place, and proves what
each part is for:

- **Memory** (`words`, `frames`, `slabs`, `slablaws`, `heapfacts`, `ownership`, `kmalloc`, `accounting`,
  `exclusion`): the bitmap allocator for
  2 MB frames, and `kmalloc`/`kfree` with sixteen size classes on top of it. The large classes take the
  headers and colour maps of their slabs from the small classes, so that both levels and both calls
  depend on each other.
- **Layers** (`compositing`, `layerstack`, `layers`): the compositor, whose visibility map and frame
  buffer are repaired over a rectangle and a range of heights.
- **FAT12** (`fatlinks`, `fatfiles`, `fatpacking`, `fattool`, `fatboot`, `booting`): the image tool with
  its table, directory and commands, the reader in the boot sector, and both together.
- **Scheduling** (`scheduling`, `fairness`, `scheduler`): run queue, timer tick, fork and semaphores.
- **Spin lock** (`spinlock`).
- **Rings, FAT32 entries, number printing** (`rings`, `mirror`, `numbers`).

Code that works step by step is a class or a method with loops; each method is tied to a specification
on values or states, and the laws are lemmas about that specification. A file `hide`s definitions in the
proofs that do not look into them, which keeps every proof short.

Machine words are sequences of 64 bits (`words`), with lemmas that tie the operators to arithmetic.
Structures are named by address or index instead of a pointer.

What the source takes for granted is a precondition or part of an invariant:

- A word of ones follows the bitmap, since the search reads one word past the one it is at
  (`os/kernel/memory.c:295`); frames outside every zone have their bit set; zones do not touch and do not
  share a 64-frame word (`Frames.Tables`, `Frames.Before`).
- `kmalloc_create` uses the results of its own `kmalloc` calls unchecked (`os/kernel/memory.c:468`,
  `os/kernel/memory.c:476`). When a request opens a slab of a large class, either no frame is free or more
  are than the nested requests need (`KernelHeap.EnoughFrames`): between none and two, by the blocks left
  in the classes of the header and the map. `KernelHeap.LargeRequests` has no such precondition and says
  that this is exact: otherwise a nested request gets nothing.
- A shown layer may be asked for a height above `top`, and the clamp lets one more through. The source
  then reads the slot above the top, so that this slot must exist and name a layer;
  `Controller.RaisePast` says when slots, map and frame buffer are right afterwards. Layer buffers do not
  alias the map or the frame buffer.
- `init` does not sleep on a semaphore, since `get_next_task` returns it whatever its state; runtimes do
  not pass the sentinel.
- A file that another command saved has a chain of the length that its size calls for
  (`FatFiles.ImageOk`); a formatted image is such a state, and every command keeps it.

Properties that are false of the code as it stands, with the exact condition under which they hold, and
an input on which they fail:

- a raised layer leaves a right screen: `Layers.Controller.RaisePast`, `LayerStack.RaisePastTop`,
  `LayerStack.AgreePastTop`; it fails on `LayerStack.PastTopFails`;
- opening a slab of a large class gets its header and map: `Kmalloc.KernelHeap.LargeRequests`; it fails
  after the requests of `Kmalloc.KernelHeap.RunShort`, from every valid heap with a free frame;
- deleting a file undoes saving it: `FatLinks.DeleteUndoesSave`, `FatTool.SaveThenDelete`; it fails for size 0;
- the boot sector keeps what it loaded: `FatBoot.LongFilesOverwriteThemselves`; it fails for a list of 129
  distinct sectors;
- the free-cluster search stays on the disk: `FatBoot.PicksStayOnDisk`; it fails on
  `FatBoot.PicksLeaveTheDisk`;
- the copies of a FAT32 table stay identical: `Mirror.IdenticalIffInside`; it fails on `Mirror.CopiesPart`;
- a FAT32 entry reads as written: `Mirror.ReadAfterWrite`; it fails with zero copies.

`Numbers.BufferSuffices` gives the exact bound of the digit buffer of `number`; its callers pass the bases 8,
10 and 16 only, for which the buffer suffices.

Where comments and code differ, the model follows the code: `running_task_count` is not the number of
queued tasks (`os/include/schedule.h:9`) but one more; the lock word is not only 1 or 0
(`os/include/spinlock.h:9`) but also negative while processors wait; `list_add_to_before` does not add
behind its entry (`os/include/lib.h:36`) but before it.

## Model

| member | source | states |
|---|---|---|
| Words.MaskIsShiftedOneMinusOne | os/kernel/memory.c:292 | subtracting one from a shifted one gives the mask with exactly the low bits set, as numbers |
| Words.ShrDivides | os/kernel/memory.c:295 | the right shift of a word is division by a power of two |
| Words.ShlMultiplies | os/kernel/memory.c:295 | the left shift is multiplication modulo the word size |
| Words.BitOperators | os/kernel/memory.c:301 | or, and-not and xor with a shifted one set, clear and flip one bit of the bitmap |
| Words.ClearBitsFlip | os/kernel/memory.c:301-303 | flipping one bit moves the number of clear bits in a range by exactly one |
| Frames.WindowIsRun | os/kernel/memory.c:295 | the masked two-word window is zero exactly when a run of the wanted length starts there, across the word boundary too |
| Frames.RunStaysInZone | os/kernel/memory.c:287-299 | a run found from a word of the zone ends inside the zone, although the search does not test it |
| Frames.FewClearBits | os/kernel/memory.c:278-279 | a zone skipped for its counter has no run of the wanted length |
| Frames.FirstFitIsUnique | os/kernel/memory.c:272-317 | the first fit is one frame of one zone: the contract of the search leaves no choice |
| Frames.FlipKeepsTables | os/kernel/memory.c:301-303 | one frame moved between the counters of its zone, with its bit, keeps every zone's account |
| Frames.ReleaseKeepsCountsIffUsed | os/kernel/memory.c:339-341 | releasing a frame, which the source does not check, keeps the accounts right if and only if the frame was in use |
| Frames.ReleaseUndoesMark | os/kernel/memory.c:298-305 | marking a free stretch and releasing it again restores the bitmap |
| Frames.FrameAllocator.AllocPages | os/kernel/memory.c:234-318 | returns the lowest run in the first zone that has one, of the zones 0 to the DMA zone, the DMA to the normal zone, or the unmapped zone to the last; sets exactly those bits, attributes and counters; returns nothing only if none of these zones has such a run, and then changes nothing |
| Frames.FrameAllocator.SearchZone | os/kernel/memory.c:281-309 | the word-by-word search of one zone is complete, also for zones that start inside a word |
| Frames.FrameAllocator.FreePages | os/kernel/memory.c:325-344 | clears exactly the bits and attributes of the frames, gives them back to their zone's counter, and nothing else; bad arguments change nothing |
| Frames.FrameAllocator.PageInit | os/kernel/memory.c:32-42 | the first reference, or one more to a shared page, and the link count of the page's zone |
| Frames.FrameAllocator.PageClean | os/kernel/memory.c:44-53 | one reference less; with the last one all attributes but the mapping go |
| Frames.LinkKeepsOwners | os/kernel/memory.c:32-53 | `page_init` and `page_clean` move the link count of a zone by as much as the references to its pages, and no frame between zones |
| Slabs.InPageLayout | os/kernel/memory.c:431-450 | blocks of an in-page slab end before its header, and its map fits between header and end of frame |
| Slabs.CapacityIsMost | os/kernel/memory.c:436 | one block more would reach into the header of an in-page slab, or out of the frame |
| Slabs.SizesDouble | os/kernel/memory.c:10-28 | sixteen sizes from 32 bytes to 1 MB, each twice the one before |
| Slabs.SmallestClass | os/kernel/memory.c:358-360 | a request goes to the smallest class that is large enough |
| Slabs.FullLayout | os/kernel/memory.c:468-486 | blocks of a large slab fill its frame exactly |
| Slabs.LargeLayout | os/kernel/memory.c:468-476 | header and map of a large class come from the first four classes: the recursion goes down |
| Slabs.TakeColorLaw | os/kernel/memory.c:389-392 | taking a clear colour keeps the slab's account and hands out exactly that block |
| Slabs.DropColorLaw | os/kernel/memory.c:511-514 | flipping a set colour back keeps the account and takes back exactly that block |
| Slabs.DropKeepsCountsIffUsed | os/kernel/memory.c:511-514 | taking a block back, which the source does not check, keeps the slab's account right if and only if the block was handed out |
| Slabs.BlockInFrame | os/kernel/memory.c:397 | every block lies in its slab's frame, before the header when that is there too |
| Slabs.SomeSlabFree | os/kernel/memory.c:363-369 | with blocks left in the class, the ring has a slab with a free block: the walk ends at one |
| Slabs.FirstCachesOk | os/kernel/memory.c:805-866 | the caches that the boot code sets up meet the invariant |
| Accounting.TotalUsingIsLiveBlocks | os/kernel/memory.c:394-395 | `total_using` of a class is the number of its blocks that callers hold plus those that slabs own; between calls the latter are exactly the headers and maps of the slabs in the rings |
| Ownership.NoLeakGrows | os/kernel/memory.c:371-380 | opening a large slab loses no block: header and map belong to the slab that joins |
| Ownership.NoLeakShrinks | os/kernel/memory.c:536-543 | removing a large slab loses no block: all that stay owned belong to slabs that stay |
| SlabLaws.TakeKeepsHeap | os/kernel/memory.c:383-399 | handing out a block keeps the whole heap's invariant, the address was nobody's, and nothing else changes hands |
| SlabLaws.DropKeepsHeap | os/kernel/memory.c:509-517 | taking a block back keeps the invariant, and only that block changes hands |
| SlabLaws.AdoptKeepsHeap | os/kernel/memory.c:468-476 | a block becomes the header or the map of a slab |
| SlabLaws.AppendKeepsHeap | os/kernel/memory.c:378-380 | a new slab joins the ring of its class |
| SlabLaws.RemoveKeepsHeap | os/kernel/memory.c:519-547 | an unused slab leaves its ring, and its header and map are blocks to be freed |
| HeapFacts.NoRunNoFree | os/kernel/memory.c:411-416 | `alloc_pages` for one frame fails only when no frame of its zones is free |
| Kmalloc.KernelHeap.NoneFree | os/kernel/memory.c:254-256 | no frame is free for a slab exactly when the counters of all zones from the DMA to the normal zone are 0 |
| Kmalloc.KernelHeap.TakeFrame | os/kernel/memory.c:412-419 | a frame that was free, its page with one reference and the attributes of a kernel page that is mapped; nothing exactly when no frame is free |
| Kmalloc.KernelHeap.ReleaseFrame | os/kernel/memory.c:531-532 | exactly that frame's bit is cleared, and its page has one reference less and no attributes |
| HeapFacts.SpareLeavesHalf | os/kernel/memory.c:519 | a slab goes when, without it, its class still has half as many free blocks as a slab holds |
| HeapFacts.ClearColorExists | os/kernel/memory.c:383-402 | a slab with a free block has a clear colour: the error exit of `kmalloc` is never taken |
| Kmalloc.FirstClear | os/kernel/memory.c:383-399 | the colour scan, which skips full words, finds the lowest clear colour or there is none |
| Kmalloc.KernelHeap.constructor | os/kernel/memory.c:805-866 | the state after `slab_init` is valid and settled and nothing is handed out; headers and maps of the first slabs lie in marked frames that are no slab's |
| Kmalloc.KernelHeap.KmallocCreate | os/kernel/memory.c:405-497 | a slab with all colours clear, on a frame that was free, with header and map of its own; nothing exactly when no frame is free; ends by a measure on the class |
| Kmalloc.KernelHeap.TakeStructs | os/kernel/memory.c:468-476 | the requests for header and map are both served exactly when as many frames are free as they need |
| Kmalloc.KernelHeap.LargeRequests | os/kernel/memory.c:412-476 | with any number of free frames: a slab of a large class gets frame, header and map if and only if more frames are free than the nested requests need |
| Kmalloc.KernelHeap.RunShort | os/kernel/memory.c:412-476 | from every valid heap with a free frame, a run of requests after which the requests of a large slab fail |
| Kmalloc.KernelHeap.Kmalloc | os/kernel/memory.c:351-403 | a block of the smallest class that fits, at an address nobody had; nothing, with no change, exactly for a size over 1 MB or when neither a block of the class nor a frame is left; how a small request moves the totals and the free frames; no block is lost; link counts follow references |
| Kmalloc.KernelHeap.HandOut | os/kernel/memory.c:383-402 | the colour scan always finds a block in the slab that was picked |
| Kmalloc.KernelHeap.Kfree | os/kernel/memory.c:499-559 | takes back exactly the caller's block, also from an address inside it; the slab goes if and only if this was its last block, it is not the first one, and the class has blocks to spare; its frame is free then, its header and map are owned no more, and for a small class nothing else changes; link counts follow references; an address in no slab changes nothing |
| Kmalloc.KernelHeap.TakeBack | os/kernel/memory.c:509-517 | the index division finds the block from any address inside it, and slab and class counters move by one |
| Kmalloc.KernelHeap.Destroy | os/kernel/memory.c:519-547 | the slab is in no ring afterwards, its frame is free, header and map of a large slab are owned no more and held by nobody, the other slabs of the class stay in order, and no caller's block is touched |
| Exclusion.CallersBlocksAreTheirOwn | os/kernel/memory.c:351-559 | in every reachable state a caller's block lies in one frame and overlaps no other caller's block, no in-page header or map, and no header or map taken from a smaller class |
| Exclusion.CallersBlocksMissAllStructs | os/kernel/memory.c:805-850 | between calls no caller's block overlaps the header or the map of any slab, the first ones behind the kernel included |
| Exclusion.LiveBlocksApart | os/kernel/memory.c:397 | two live blocks overlap only if they are the same block |
| Exclusion.LiveBlockMissesInPage | os/kernel/memory.c:431-450 | no live block reaches into an in-page header or map |
| Exclusion.LargeStructsApart | os/kernel/memory.c:468-476 | headers and maps of large slabs do not overlap each other |
| Compositing.TopIs | os/graphic/layer.c:198-219 | the topmost opaque layer of a pixel, characterised uniquely |
| Compositing.PixelOkIsFullRepaint | os/graphic/layer.c:188-220 | the cache is right at a pixel exactly when a full bottom-to-top repaint would not change it |
| Compositing.LoweredPixel | os/graphic/layer.c:89-99 | map from `height + 1`, colours from `height + 1` to the old height: enough after lowering |
| Compositing.HiddenPixel | os/graphic/layer.c:100-111 | map from 0, colours below the old height: enough after hiding |
| Compositing.RaisedPixel | os/graphic/layer.c:113-132 | map from the new height and colours of the new height alone: enough after raising |
| Compositing.MovedPixel | os/graphic/layer.c:175-186 | the four passes of a move repair a pixel, whether it was under the old place, the new one, both or none |
| Compositing.StretchOfRow | os/graphic/layer.c:167-168 | a cell's position names its row and column uniquely |
| LayerStack.AgreeIsFullRepaint | os/graphic/layer.c:141-220 | the cache is right on the whole screen exactly when a full repaint changes nothing |
| LayerStack.RoomForOneMore | os/graphic/layer.c:122-129 | by counting: showing a hidden layer never passes the last of the 64 slots |
| Compositing.RestackedMeans | os/graphic/layer.c:87-129 | a new stack has the layer at its new height and the others in their old order |
| LayerStack.LoweredStack | os/graphic/layer.c:91-97 | the rotated slots are a permutation of the shown layers with heights equal to positions |
| LayerStack.RaisePastTop | os/graphic/layer.c:81-120 | a shown layer that the clamp lets through to `top + 1`: the slots are right afterwards exactly when the slot past the top already held it |
| LayerStack.AgreePastTop | os/graphic/layer.c:130-131 | if it did: the map pass paints nothing there, and the screen is right exactly when nothing above the layer is opaque where it is |
| LayerStack.PastTopFails | os/graphic/layer.c:81-131 | two opaque layers on one pixel, the lower one raised past the top: slots right, screen wrong |
| LayerStack.AgreeAfterMove | os/graphic/layer.c:175-186 | the two map passes and two colour passes of a move repair the whole screen |
| Layers.Controller.RefreshMap | os/graphic/layer.c:188-220 | under clipping, exactly the cells where a layer from `h0` on is opaque inside the rectangle get the topmost such layer's id |
| Layers.Controller.RefreshArea | os/graphic/layer.c:141-173 | exactly the pixels of the rectangle whose map names a layer of the range get that layer's colour |
| Layers.Controller.RaisePast | os/graphic/layer.c:112-131 | a shown layer raised past the top: slots, map and frame buffer are all right afterwards if and only if the stale slot held the layer and nothing above it is opaque where it is |
| Layers.Controller.SetHeight | os/graphic/layer.c:76-133 | a height from -1 to `top` is taken exactly; a hidden layer asked for more goes on top; less than -1 hides; the others keep their order, and map and frame buffer agree everywhere; past the top, exactly under the condition of `RaisePast` |
| Layers.Controller.Move | os/graphic/layer.c:175-186 | map and frame buffer agree after a move from anywhere to anywhere, also partly off the screen |
| Layers.Controller.Free | os/graphic/layer.c:222-227 | the layer leaves the stack, its slot is free, and the screen is right; freeing it once more changes nothing of that |
| Layers.Controller.Alloc | os/graphic/layer.c:48-66 | the first unused slot, hidden; nothing exactly when all are in use |
| Layers.Controller.Refresh | os/graphic/layer.c:135-139 | the screen is right afterwards if and only if all that was stale is colours of this layer inside the refreshed part |
| FatLinks.ChainIsFollowed | tools/fat12img:337-347 | following the links from a chain's first cluster gives the chain |
| FatLinks.ChainsAreAcyclic | tools/fat12img:123-136 | a chain that reaches the end mark visits no cluster twice |
| FatLinks.EnoughPicks | tools/fat12img:94-113 | picking the lowest free clusters succeeds exactly when enough are free, wherever they are |
| FatLinks.LinkedLinks | tools/fat12img:295-304 | the table after a save holds the picked clusters as a chain and is unchanged elsewhere |
| FatLinks.DelFreesChain | tools/fat12img:123-136 | deleting along a chain of the right length frees exactly the chain and raises no error |
| FatLinks.DelOutcome | tools/fat12img:123-136 | along any links that meet no cluster twice, exactly the clusters met are freed, and it is an error exactly when they are too few |
| FatLinks.DeleteUndoesSave | tools/fat12img:123-136 | deleting a file right after saving it restores the table exactly if and only if the file is not empty |
| FatFiles.WrittenIsRead | tools/fat12img:274-277 | what was written along distinct clusters is what they hold, however scattered |
| FatFiles.LoadIsContent | tools/fat12img:336-347 | loading gives the first bytes held by the chain's clusters |
| FatFiles.FindIndexFinds | tools/fat12img:251-261 | in a proper directory the search, which stops at an unused slot, finds a name where it is |
| FatFiles.SaveKeepsImage | tools/fat12img:279-314 | a save keeps the chain invariant, `load` then gives the saved bytes, and every other name gives what it gave before |
| FatFiles.DeleteKeepsImage | tools/fat12img:316-327 | a delete keeps the chain invariant, frees exactly the file's clusters, and every other name gives what it gave before |
| FatTool.Fat.constructor | tools/fat12img:59-74 | the unpacking loop gives the links of the packed table |
| FatTool.Fat.Write | tools/fat12img:76-92 | the packing loop gives the packed links |
| FatTool.Fat.HaveSpace | tools/fat12img:94-106 | the first free cluster if there are as many as asked for and at least one, else nothing |
| FatTool.Fat.FindFreeCluster | tools/fat12img:108-113 | the next free cluster from a start, or nothing |
| FatTool.Fat.Free | tools/fat12img:123-136 | the clusters freed and the outcome, with both ways to fail |
| FatTool.DirInfo.Find | tools/fat12img:251-261 | the index of a name before the first unused slot |
| FatTool.DirInfo.Write | tools/fat12img:236-249 | slots reach the image up to the first unused one |
| FatTool.WriteLosesNothing | tools/fat12img:236-249 | no change of the tool lies behind the slot where writing stops |
| FatTool.NextPick | tools/fat12img:295-300 | searching on in the table being linked finds the next of the originally free clusters |
| FatTool.Image.constructor | tools/fat12img:264-272 | a formatted image meets the invariant and holds no file; every entry from 2 on is free, every slot unused and every cluster zero |
| FatTool.FormatThenSave | tools/fat12img:264-314 | on a formatted image every content that fits the table is saved, and nothing larger |
| FatTool.Image.Save | tools/fat12img:279-314 | succeeds exactly with a file to save, enough clusters and a slot; then table, clusters and directory are those of a save into the lowest free clusters, else nothing changes |
| FatTool.Image.WriteFile | tools/fat12img:291-312 | the loop writes cluster after cluster into the lowest free ones, linking them, whether or not they lie together |
| FatTool.Image.SaveCommand | tools/fat12img:370-381 | afterwards `load` gives the saved bytes, or nothing if there was no file to save or no room (the old file is gone); every other file is as before; the whole new table; both copies of it are equal |
| FatTool.Image.Delete | tools/fat12img:316-327 | found exactly if the file was there, gone afterwards, every other file as before |
| FatTool.SaveThenDelete | tools/fat12img:370-381 | the two commands one after the other restore the table if and only if the file was not empty, and keep every other file |
| FatTool.Image.Load | tools/fat12img:329-349 | the loop prints exactly the bytes of the file, or reports that there is none |
| FatPacking.UnpackUndoesPack | tools/fat12img:66-85 | packing and then unpacking a table of 12-bit links gives the table |
| FatPacking.PackUndoesUnpack | tools/fat12img:66-85 | unpacking and then packing the bytes gives the bytes |
| FatPacking.HalfBytes | tools/fat12img:69-70 | which half byte of three bytes goes to which place of the two links |
| FatBoot.ClusterSector | tools/fat12img:274-277 | the tool's byte address of a cluster is the start of sector cluster + 31 |
| FatBoot.ReadOneSector | os/bootloader/boot.asm:194-218 | the split into cylinder, head and sector names the sector asked for |
| FatBoot.SplitSector | os/bootloader/boot.asm:194-212 | cylinder, head and sector number are in the ranges of the disk and name the sector |
| FatBoot.SearchRootDir | os/bootloader/boot.asm:81-131 | the two loops find the first slot with the name, wherever unused slots are |
| FatBoot.SearchesAgree | os/bootloader/boot.asm:81-131 | in a proper directory it is the slot that the tool's search finds |
| FatBoot.GetFatEntry | os/bootloader/boot.asm:222-261 | for every cluster the 16-bit read, shift and mask gives the link that the tool unpacks |
| FatBoot.LoadChain | os/bootloader/boot.asm:165-188 | the loop reads the sector of every cluster of the chain in order and stops at 0xfff |
| FatBoot.SlotHolds | os/bootloader/boot.asm:185 | each 512-byte slot of the segment holds the last sector stored there, the offset wrapping at 64 KB |
| FatBoot.BootLoadsTheFile | os/bootloader/boot.asm:151-188 | for a file of at most 64 KB the start of the segment that the loop leaves is what the tool's `load` prints |
| FatBoot.LongFilesOverwriteThemselves | os/bootloader/boot.asm:185 | every list of n sectors leaves its first one in the first slot if and only if n is at most 128; a longer list whose first sector does not come again loses it |
| FatBoot.PicksStayOnDisk | tools/fat12img:108-113 | the search, which ranges over the whole table, stays on the disk if and only if enough clusters of the disk are free |
| FatBoot.PicksLeaveTheDisk | tools/fat12img:108-113 | a table for which the search picks a cluster past the end of the disk |
| Booting.ImageIsOnDisk | tools/fat12img:86-91 | the image that the tool leaves, seen as sectors, holds table and clusters where the boot sector looks for them |
| Booting.SaveThenBoot | os/bootloader/boot.asm:81-188 | the save command followed by the boot sector's search and loading loop: with room on the disk and in the directory, the segment starts with the bytes that were saved, for every content of at most 64 KB |
| Scheduling.InsertKeepsCore | os/kernel/schedule.c:30-50 | the walk's place keeps the queue sorted and adds exactly one task |
| Scheduling.ScheduledMoves | os/kernel/schedule.c:52-94 | `schedule` drops the running task from the ready ones exactly when it sleeps and loses nobody else |
| Scheduling.ScheduleRunsLeast | os/kernel/schedule.c:52-94 | after every `schedule` no queued task is behind the running one |
| Scheduling.WhoRuns | os/kernel/schedule.c:56-62 | the first of the queue takes over exactly when it is not ahead of the running task, so on equal runtimes too, or when that one sleeps; with an empty queue the same of `init` |
| Scheduling.WhoWaits | os/kernel/schedule.c:61-78 | who gave way waits, if it is awake and not `init`; nobody else comes or goes |
| Scheduling.FlagAndSlice | os/kernel/schedule.c:55-91 | the flag of the task that ran is cleared and no other task changes; a slice stays unless it is spent exactly; then it is shared among all that are ready |
| Scheduling.InsertedBefore | os/kernel/schedule.c:43-49 | a task goes before the first one that is not behind it, so before its equals |
| Scheduling.ChargeOfTick | os/driver/PIT.c:33-47 | one unit for priorities 0 and 1, else two, off the slice and onto the runtime; the flag is set when nothing is left |
| Scheduling.ForkAddsChild | os/kernel/mtask.c:135-163 | one more task, queued and awake, of priority 2, with its parent's runtime and flag |
| Scheduling.StepKeepsSane | os/kernel/schedule.c:14-94 | every tick, reschedule, fork and semaphore call keeps every task in one place, the queue sorted, the count right, and semaphores with permits free of waiters |
| Scheduling.UpMoves | os/include/semaphore.h:32-45 | who is woken: the first waiter, and only it, goes to the queue, awake; nobody if nobody waits |
| Scheduling.DownMoves | os/include/semaphore.h:47-61 | who sleeps: the running task, at the end of the wait list, and all others that were ready stay so; nobody while permits are left |
| Fairness.ScheduleIsFair | os/kernel/schedule.c:52-94 | `schedule` restores the lead bound whatever is left of the slice, also when it went negative and is not refilled |
| Fairness.TickIsFair | os/driver/PIT.c:33-47 | a tick, with the `schedule` that follows when it sets the flag, keeps the lead bound |
| Fairness.ForkIsFair | os/kernel/mtask.c:121-165 | a fork, whose child starts with its parent's runtime, keeps the lead bound |
| Fairness.CallIsFair | os/include/semaphore.h:40-61 | a semaphore call that puts nobody to sleep and wakes nobody keeps the lead bound |
| Fairness.RunsAreFair | os/kernel/schedule.c:52-94 | in every run in which nobody sleeps, semaphore calls that find a permit included, no two tasks other than `init` are ever more than 12 apart |
| Fairness.TwelveIsReached | os/driver/PIT.c:33-47 | a run in which two tasks are exactly 12 apart: the bound is sharp |
| Fairness.EveryTaskInOnePlace | os/kernel/schedule.c:14-94 | in every run each task but `init` is running, queued or waiting for one semaphore, once; the slice divisor is the queue length plus one |
| Fairness.WokenInOrder | os/include/semaphore.h:32-61 | in every run the tasks woken from a semaphore, and then those still waiting, are those that went to sleep on it, in order of arrival |
| Fairness.PermitsAreConserved | os/include/semaphore.h:32-61 | in every run counter less waiters is the initial value plus the ups less the downs |
| SchedulerState.Scheduler.constructor | os/kernel/schedule.c:96-105 | `init` runs with a slice of 4, nobody is queued, the semaphores hold their permits, and the invariant holds |
| SchedulerState.Scheduler.InsertTaskQueue | os/kernel/schedule.c:30-50 | the unbounded walk ends at the sentinel and inserts at the specified place |
| SchedulerState.Scheduler.Schedule | os/kernel/schedule.c:52-94 | is the specified step; the first of the queue takes over exactly when it is not ahead, or when the running task sleeps; nobody queued is behind who runs |
| SchedulerState.Scheduler.TimerInterrupt | os/driver/PIT.c:23-50 | every hundredth call is the charged tick of the runs above; the others change nothing but the call count unless the task is flagged |
| SchedulerState.Scheduler.DoFork | os/kernel/mtask.c:121-165 | is the fork step |
| SchedulerState.Scheduler.SemaphoreDown | os/include/semaphore.h:47-61 | is the down step |
| SchedulerState.Scheduler.SemaphoreUp | os/include/semaphore.h:32-45 | is the up step |
| Spinlock.StepKeepsValid | os/include/spinlock.h:16-40 | every atomic step keeps: one holder exactly while the word is not 1, and at most one decrement for each waiting processor |
| Spinlock.MutualExclusion | os/include/spinlock.h:16-40 | in every run of N processors at most one holds the lock, the word is at most 0 exactly while one does, and never below 1 - N |
| Spinlock.FreeLockIsTaken | os/include/spinlock.h:16-31 | in every reachable state a decrement obtains the lock exactly when nobody holds it |
| Spinlock.LookSeesFreeLock | os/include/spinlock.h:21-25 | in every reachable state a look leads back to the decrement exactly when nobody holds the lock, and else changes nothing |
| Spinlock.WaiterGetsIn | os/include/spinlock.h:18-40 | after an unlock, a look and a decrement put a waiter inside |
| Spinlock.EnterAndUnlock | os/include/spinlock.h:16-40 | entering leads to the decrement, and leaving sets the word to 1 |
| Spinlock.Machine.DecrementStep | os/include/spinlock.h:18-20 | the locked decrement and the jump on its sign |
| Rings.AddToBefore | os/include/lib.h:35-41 | the pointers form the ring with the new node right before the entry, at any place |
| Rings.AddToBehind | os/include/lib.h:27-33 | the pointers form the ring with the new node right behind the entry |
| Rings.Del | os/include/lib.h:43-46 | the other nodes form the ring without the entry, which keeps its old links |
| Rings.IsEmpty | os/include/lib.h:48-53 | true exactly when the head is alone |
| Rings.Rotated | os/include/lib.h:35-41 | a ring may be read from any node: put before the head is put at the end |
| Rings.Enqueue | os/kernel/schedule.c:47 | read from the head, insertion before it appends to the queue |
| Rings.Dequeue | os/kernel/schedule.c:22-23 | the node behind the head is the first of the queue, and the rest stays queued |
| Mirror.Disk.WriteEntry | os/kernel/fat32.c:83-95 | the patched sector buffer goes to every copy and nowhere else |
| Mirror.Disk.ReadEntry | os/kernel/fat32.c:74-81 | after any sequence of writes since any earlier state of the disk, the entry reads as the value last written to it, or as it was |
| Mirror.ReadAfterWrite | os/kernel/fat32.c:74-95 | a read gives the value written modulo 2^28 if and only if there is a copy to write to or nothing had to change |
| Mirror.WrittenWhere | os/kernel/fat32.c:89-93 | in every copy, at the entry's place in its sector, the low 28 bits are the value's and the rest is as in the first copy |
| Mirror.WriteRefinesFlat | os/kernel/fat32.c:83-95 | a write inside the table is one update of a flat map, keeps identical copies identical, and touches no sector outside |
| Mirror.TableIsAMap | os/kernel/fat32.c:74-95 | over any sequence of writes each entry reads as the value last written to it, and its reserved top bits never change |
| Mirror.IdenticalIffInside | os/kernel/fat32.c:83-95 | the copies stay identical if and only if the entry is inside one copy, or past them all, or nothing changes |
| Mirror.CopiesPart | os/kernel/fat32.c:83-95 | an entry past the first of two copies whose write parts them |
| Numbers.BufferSuffices | os/kernel/printk.c:102 | at most 41 digits from base 3 on; the buffer of 50 overflows if and only if the base is 2 and the number is 2^50 or more |
| Numbers.Number | os/kernel/printk.c:100-152 | for every flag combination the text is sign, prefix, zeros and digits in a padded field; nothing for a base outside 2 to 36 |
| Numbers.Spelled | os/kernel/printk.c:122-126 | the buffer holds the digits, least significant first, also for the least number and for unsigned words |
| Numbers.LengthOfText | os/kernel/printk.c:117-151 | the length is the field width, or sign, prefix and the larger of digits and precision if that is more |
| Numbers.SignText | os/kernel/printk.c:111-116 | which of minus, plus, space or nothing is the sign |
| Numbers.PrefixText | os/kernel/printk.c:133-140 | "0" for octal, "0x" or "0X" for hexadecimal numbers on request |
| Numbers.DigitText | os/kernel/printk.c:103-106 | the digits are 0 to 9 and capital letters, or small ones on request |
| Numbers.FillIsOnOneSide | os/kernel/printk.c:128-150 | where the fill goes and which character it is, for left-justified, zero-padded and plain fields |
| Numbers.TextReadsBack | os/kernel/printk.c:100-152 | the text reads back as the number, signed if signs were asked for and else as the unsigned word |

## Left out

- `slab_create`, `slab_malloc`, `slab_free`, `slab_destroy`: same ideas as `kmalloc`, with an initial account that differs.
- `init_memory`, `pagetable_init`: firmware tables and page tables; the allocator starts from tables that meet `Frames.Tables`.
- The branch of `kmalloc_create` for a size that is no class: `kmalloc` never asks for one.
- Slabs are values in a sequence per class and not nodes of a pointer ring; the pointer operations are in `Rings`, on nodes alone.
- The bytes inside blocks are not modelled; that they overlap nothing else is.
- Frames.FrameAllocator.FreePages: frames must be in use; `Frames.ReleaseKeepsCountsIffUsed` says what a frame freed twice does to the accounts.
- Kmalloc.KernelHeap.Kfree: the address must lie in a block that a caller holds or in no slab's frame; `Slabs.DropKeepsCountsIffUsed` says what a block freed twice does to its slab's account.
- `layer_setbuf`, and what layers do to their buffers: a layer's buffer may change while it is hidden, or be redrawn and refreshed.
- Layers.Controller.RaisePast: when all 64 layers are shown, or the slot above the top was never used, the source reads outside the array or follows a pointer that was never set.
- Layers.Controller.SetHeight: positions and sizes are unbounded integers, without the wrap-around of `int`.
- Sub-controllers of layers: a layer's own controller pointer is not kept.
- FatBoot.SearchRootDir: names are compared as a whole and not byte by byte, since the bytes of the slots are not modelled.
- Directory slots are names, first clusters and sizes; their 32 bytes, the 8.3 padding and the timestamps are not modelled. A name whose first byte is 0 or 0xe5 would read back as no file.
- FatTool.Image.Save: clusters beyond the end of the disk count as storage, as the tool's writes extend the image file; `FatBoot.PicksStayOnDisk` says when none is used.
- FatBoot.LoadChain: the file's clusters must be on the disk, since the boot sector reads sectors of the disk alone.
- Sleeping by `init`, exit of tasks, and priorities other than those that `do_fork` gives after boot.
- SchedulerState.Scheduler.TimerInterrupt: preemption is enabled at every tick; timers and soft interrupts are left out.
- SchedulerState.Scheduler.InsertTaskQueue: runtimes beyond the sentinel, where signed arithmetic would overflow.
- `spin_trylock`: its exchange does not share the invariant of the lock.
- Spinlock.Machine.DecrementStep: the preemption counter, which the source changes without a lock prefix, changes atomically here.
- Numbers.Number: flags are a record of booleans, the output is a string and not a pointer, and widths are unbounded integers.
- `vsprintf`, `color_printk`, the disk driver, FAT32 path walking, timers, keyboard, mouse, interrupts and start-up: hardware or easy members.
