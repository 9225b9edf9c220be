# Storage and floppy layers of DiskFlashback: a verified model

DiskFlashback mounts Amiga, IBM PC and Atari ST disks under Windows. This project models its two
stateful cores, the PFS3 storage engine (`PFS3lib`) and the floppy bit layer (`adf`), and proves
what they are for. `dafny verify dfyconfig.toml` checks all of it.

## PFS3

- **User blocks** (`Extents`, `Bitmaps`, `Ledger`, `Postponement`, `ScanOrder`, `Volumes`, `Stores`). The bitmap,
  the anode chains and the tobefreed list of runs. A volume is an object with the fields of
  `alloc_data`, the cached anode table and the `tobedone` record; `disk` is what the last commit wrote and
  `commits` is every commit so far. Whether an online update is due is left open, so that a theorem
  holds for every choice of intermediate commits. `Complete` says what the recorded operation makes of a disk;
  `FreeAcrossCrashes` and `MountUntilDone` are the crash theorems, and `AllocateBlocksAC` and `BlocksApart`
  those about allocation and ownership.
- **Metadata** (`ReservedTree`, `CommitSteps`, `MetadataCache`, `ReservedBitmaps`). Directory, anode, index and bitmap
  blocks form a tree below the root block. `ReadsAs` says what a reader that starts at the root
  block on disk sees. `history` records disk, root block and committed tree after every single write;
  `UpdateDisk` proves that every one of them is a tree as committed, the old one before the last write
  and the new one after it, and `Serve` that this holds over whole runs.
- **Data cache** (`DataCaches`). Slots in arrays, as in the source; the specification is a plain disk (`view`).
- **Files** (`Positions`, `Contents`, `Files`, `FileFaults`). A file is a chain of a volume read through the data cache;
  its specification is a sequence of bytes.
- **Anodes, directories, extra fields** (`AnodeAllocation`, `Entries`, `Spills`, `Directories`, `ExtraFields`). Allocation
  of anodes with lazily cleared flags; the packed variable-length entries of directory blocks with the open handles into
  them; the packed optional fields of an entry.

## Floppy bits

- **PLL** (`Plls`). Integer arithmetic with truncating division and a clamped clock. The region
  `InRegion` bounds phase and frequency together, which neither a bound on the phase nor one on the frequency does alone.
- **Bit streams** (`BitStreams`, `ClockRule`, `SectorCommon`). A track is a ring of bits, read in
  bytes and words from any bit position.
- **Amiga tracks** (`AmigaMfm`, `AmigaFormat`, `AmigaSectors`, `AmigaFinding`, `AmigaRoundTrip`, `SyncSearch`, `AmigaTrack`).
  Encoder, decoder, and the theorem that the second undoes the first from any rotation of the track.
- **IBM tracks** (`Crcs`, `IbmMfm`, `IbmFormat`, `IbmSectors`, `IbmFinding`, `IbmMarks`, `IbmTrack`). The same for IBM and Atari
  formats, with the CRC of section 2 of ITU-T V.41.

## Assumptions

- The disk does not fail, memory can be had, and big-endian fields are read as numbers.
- `MFM_MASK` is 0x55555555 and `DEFAULT_SECTOR_BYTES` is 512; the header that defines them is not part of this model.
- Sizes that depend on the format (block size, index entries, anodes per block, entry space) are constants with the bounds
  the source relies on, or fields.
- The comment on the Amiga encoder (`adf/amiga_sectors.cpp:326`) asks for buffers of 13542 and 27076 bytes; the code needs
  13630 and 27252 for a full track (`AmigaFormat.BufferNeeded`) and writes nothing to smaller ones. The code is followed.
- Names are at most 107 bytes long, which is what the buffers for new entries allow; the limit stored on the volume
  is taken to be no larger.
- Where the scan of a longword or a block runs on, it does so with the bit index it has: the index is
  reset behind a longword that was looked at, but not behind a zero one, as in the code.

## What the code does not meet

Each of these has its exact condition and an input, as members of the model.

- Offsets are signed in 32 bits when seeking. A seek within a file is refused exactly from 2 GB on, and a seek from
  there is reported as failed even when it was made (`Files.SeekExact`, `Files.File.Seekfile`; input:
  `Files.SeekEndRefused`). The sum of a seek from the current position can overflow, which C++ leaves
  undefined; the model lets it wrap around.
- The number of blocks of a file is computed in 32 bits. A file that ends in the last block below 4 GB seems to
  need no blocks at all (`Files.Blocks32Exact`), and growing a file to such an end leaves it without its blocks
  unless it had them (`Files.File.Grow`; input: `Files.GrowLost`). What is then written goes elsewhere, or the
  number of blocks to write comes out as 0; the model stops before that (`Overrun`, with its condition, in
  `Files.File.WriteToFile`). The buffer for an indirect read of that length is too small (`TooLong` in
  `Files.File.ReadFromFile`, `Files.BufferSize`).
- A file that ends in the last block of a volume that exactly fills its bitmap cannot grow: the bit behind
  it is looked up in a bitmap block that does not exist (`Volumes.Volume.StartPosition`, `Stores.Store.Extend`;
  input: `Stores.LastBlockFaults`).
- A read that starts with part of a block, from a position right behind an anode with the next one elsewhere,
  reads the block behind the anode (`Astray`, shown to be exact by `Files.File.AstrayExact`; what is returned is in
  `Files.File.ReadFromFile`). A file that ended there leaves its handles in such a position when it is made
  longer, by `ChangeFileSize` through the same handle for one (`Positions.ProlongsPosition` says exactly when;
  input: `FileFaults.ReadGoesAstray`).
- When no reserved block is free, a block is marked dirty where it is. That is sound if and only if the committed
  tree has no block there (`CommitSteps.InPlaceStep`, `CommitSteps.InPlaceWritten`,
  `MetadataCache.Metadata.MakeBlockDirty`; input: `CommitSteps.InPlaceSeen`).
- When a rename has to move entries and no directory block can be had, the failure is not noticed. Whether the entry
  is renamed all the same depends on the old contents of its block and the room in the one before (`Renames` in
  `Spills`, an if-and-only-if in `Directories.Directory.RenameWithinDir`). If not, the entry keeps its old name;
  or the search for it leaves its block; or another entry of the block is replaced and lost: which of these is
  decided at the first entry that cannot be moved (`StopsAs`, in the same contract; input:
  `Directories.RenameHitsOther`).
- When the header of an IBM sector is bad, its data is filed without errors, because the condition
  groups as `(headerErrors + dataValid) ? 0 : 1` (`IbmFinding.FiledClean`, `IbmFinding.GradeTells`; input:
  `IbmFinding.BadHeaderHides`).

## Model

| member | source | states |
|---|---|---|
| `Extents.ChainUnique` | PFS3lib/anodes.cpp:67-94 | an anode chain on the table is determined by its head anode |
| `Extents.TruncFlat` | PFS3lib/allocation.cpp:361-497 | after a free the blocks that remain are exactly the leading ones, in their old order |
| `Extents.TailBlocksFlat` | PFS3lib/allocation.cpp:405-450 | the blocks freed are exactly the trailing ones of the file |
| `Extents.TruncTwice` | PFS3lib/allocation.cpp:361-497 | freeing a blocks and then b more leaves the chain that freeing a + b leaves: the ground for resuming a free |
| `Extents.TruncTableTwice` | PFS3lib/allocation.cpp:430-450 | the same for the anode table as stored, cleared anodes included |
| `Extents.TruncOnTable` | PFS3lib/allocation.cpp:503-526 | what is left on the table after a free is exactly the remaining chain, properly ended |
| `Extents.TruncUntouched` | PFS3lib/allocation.cpp:361-497 | no anode of another chain changes or is taken |
| `Extents.TruncClears` | PFS3lib/allocation.cpp:444-449 | every anode dropped from the chain can be handed out again, but for the reserved ones, which stay taken |
| `Extents.ProlongsTrunc` | PFS3lib/allocation.cpp:274-283 | giving back what an allocation added leaves every old position (anode and offset) valid |
| `Ledger.CommitBalanced` | PFS3lib/allocation.cpp:531-573 | a commit that frees the waiting runs conserves blocks: same ledger, every block still owned once, counter equal to the number of free bits |
| `Ledger.QueueBalanced` | PFS3lib/allocation.cpp:434-443 | moving the end of a chain to the tobefreed list conserves blocks |
| `Ledger.TakeBalanced` | PFS3lib/allocation.cpp:214-261 | moving a free block into a chain conserves blocks and lowers the counter by one |
| `Ledger.InLedger` | PFS3lib/allocation.cpp:106-336 | a block of a chain lies in the user area and is not free |
| `Postponement.CompleteUnique` | PFS3lib/init.cpp:61-101 | the completed state is determined by what is on disk alone |
| `Postponement.CompleteFrees` | PFS3lib/allocation.cpp:361-526 | the completed state of a free, said of blocks and anodes: the file keeps its leading blocks on the same anodes, the other anodes can be handed out again or, in keep mode, stay, the trailing blocks are free and counted, all else is as it was |
| `Postponement.ClearChainFrees` | PFS3lib/directory.cpp:1686-1719 | clearing a chain leaves all its anodes to be handed out again and touches no other |
| `Postponement.RoundRepeatable` | PFS3lib/allocation.cpp:361-497 | keep mode may free the whole tail again, whatever part of it is free already |
| `Postponement.CommitFreeCompletes` | PFS3lib/allocation.cpp:455-475 | a commit inside a FreeAnodes run, with the remaining size recorded, completes to the same state as no interruption |
| `Postponement.CommitKeepCompletes` | PFS3lib/allocation.cpp:455-475 | the same in keep mode, where the record holds the whole size and the blocks already counted: argument3 prevents double counting |
| `Postponement.CommitClearCompletes` | PFS3lib/directory.cpp:1686-1719 | a commit inside the clearing of an anode chain completes to the same table |
| `Postponement.EndFree` | PFS3lib/allocation.cpp:476-497 | when the loop ends nothing is left to do: bitmap, count and table are those of the completed operation |
| `Volumes.Volume.UpdateFreeList` | PFS3lib/allocation.cpp:531-573 | exactly the blocks of the waiting runs become free and are counted; the list is empty afterwards |
| `Volumes.Volume.UpdateDisk` | PFS3lib/update.cpp:75-184 | the state committed is the cached one with all waiting runs freed |
| `Volumes.Volume.RestoreAnodeChain` | PFS3lib/allocation.cpp:503-526 | the table holds the remaining chain with its last link cut, or an emptied head anode |
| `Volumes.Volume.FreeFromLast` | PFS3lib/allocation.cpp:405-450 | one round of the loop leaves exactly the rest of the operation to do, in both modes, and queues the run it took |
| `Volumes.Volume.IntermediateUpdate` | PFS3lib/allocation.cpp:455-475 | whatever this commit writes completes to the state of an uninterrupted run, and the loop can go on from it |
| `Volumes.Volume.FreeBlocksAC` | PFS3lib/allocation.cpp:361-526 | for every chain, size and mode and every choice of intermediate commits: exactly the trailing blocks become free and are counted, the dropped anodes can be handed out again, all else stays; blocks are conserved, the tobefreed list never overfills, and every commit on the way completes to that state |
| `Volumes.Volume.FreeAnodesInChain` | PFS3lib/directory.cpp:1686-1719 | every anode of the chain can be handed out again, no other changes, and every commit on the way completes to that |
| `Volumes.Volume.MakeAnodeChain` | PFS3lib/anodes.cpp:67-94 | reads exactly the chain that is on the table |
| `Volumes.Volume.DoPostponed` | PFS3lib/init.cpp:61-101 | a mount performs exactly the recorded operation, and each of its own commits still completes to the same state |
| `Volumes.MountAndFinish` | PFS3lib/init.cpp:61-101 | a mount of a disk that completes to some state reaches that state |
| `Volumes.MountUntilDone` | PFS3lib/init.cpp:61-101 | any number of mounts, each losing power at any commit: once one gets through, the disk holds the completed operation |
| `Volumes.FreeAcrossCrashes` | PFS3lib/allocation.cpp:361-526 | a free that loses power at any of its commits, followed by any such mounts, leaves the disk an uninterrupted free leaves |
| `Volumes.Volume.StartPosition` | PFS3lib/allocation.cpp:137-178 | faults exactly if the last run ends where the bitmap ends, a bit that is looked up unasked; else starts right behind the chain if and only if that block is free, and at the roving pointer if not |
| `Volumes.Volume.ConnectBlock` | PFS3lib/allocation.cpp:215-255 | a block that follows lengthens the last anode, any other starts a new one; the file grows by that block only |
| `Volumes.Volume.TakeBlock` | PFS3lib/allocation.cpp:212-261 | takes one free block, free on disk too: no other bit changes, blocks are conserved |
| `Volumes.Volume.OnlineUpdate` | PFS3lib/allocation.cpp:263-285 | goes on with the chain, or gives up with everything taken given back |
| `Volumes.Volume.GiveBack` | PFS3lib/allocation.cpp:274-283 | freeing what was taken restores the old blocks of the file, and nothing is lost |
| `Volumes.Volume.ScanField` | PFS3lib/allocation.cpp:193-296 | the free blocks of a longword from a bit on are taken in order until the size is reached |
| `Volumes.Volume.FillChain` | PFS3lib/allocation.cpp:180-310 | terminates with all blocks found although the bit index is not reset on a zero field, so that a free bit may take a second lap; each block is the next free one, round the bitmap |
| `Volumes.Volume.UpdateRoving` | PFS3lib/allocation.cpp:311-332 | the roving pointer is at the last block taken, or, behind an extended file, that many bits on, round the bitmap |
| `ScanOrder.StartTaken` | PFS3lib/allocation.cpp:160-172 | if the search starts at a free block, that is the first one taken |
| `ScanOrder.TakesUnique` | PFS3lib/allocation.cpp:180-310 | being the next free one each time determines the blocks taken, from bit 0 of a longword or from a free block on |
| `Volumes.Volume.AllocateBlocksAC` | PFS3lib/allocation.cpp:106-336 | succeeds if enough is available, unless online updates run out of reserved blocks or it faults; the flattened chain is the old one followed by exactly `size` blocks, each free in memory and on disk when handed out; they are the next free ones from right behind the chain or from the roving pointer on, which then stands as stated; a new anode starts only where blocks do not follow each other; on failure the old blocks and the roving pointer are as they were, blocks are conserved and no other anode changes; the fault has its exact condition |
| `Stores.Store.BlocksApart` | PFS3lib/allocation.cpp:106-336 | in every reachable state the blocks of a file are distinct, in the user area and in no other file |
| `Stores.Store.Extend` | PFS3lib/disk.cpp:629-640 | the file keeps its blocks and gains n at the end; on failure it keeps what it had; other chains stay; a fault only where the volume exactly fills its bitmap, with its exact condition |
| `Stores.LastBlockFaults` | PFS3lib/allocation.cpp:145-154 | a volume of 288 blocks with one of them in use, the last: a file that ends there cannot grow |
| `Stores.Store.NewFile` | PFS3lib/directory.cpp:3156-3186 | a new file has one anode of its own and no blocks; every other file stays; fails, with nothing changed, exactly if no anode can be had |
| `Stores.Store.HandedSince` | PFS3lib/allocation.cpp:106-336 | a block handed out between two commits belongs to no file of the first of them, whatever was freed in the meantime |
| `Stores.Store.Shrink` | PFS3lib/disk.cpp:981-996 | the file loses exactly its last n blocks, other chains stay |
| `Stores.Store.Discard` | PFS3lib/directory.cpp:1553-1555 | a deleted file kept for undeletion: its blocks go, every anode stays as it was |
| `Stores.Store.Sync` | PFS3lib/update.cpp:75-184 | after a commit no block of a live file is free on disk; the files are recorded as those last committed |
| `ReservedTree.WriteElsewhere` | PFS3lib/update.cpp:371-397 | a write to a block outside a tree changes nothing a reader of that tree sees |
| `ReservedTree.WriteSeen` | PFS3lib/update.cpp:462-475 | exactly: a write is invisible to a reader of the committed tree if and only if it goes outside the tree or repeats what is there |
| `ReservedTree.StoredReads` | PFS3lib/update.cpp:75-184 | if every block is stored where its parent records it, a reader from the root block sees the tree in memory |
| `ReservedTree.ParentNumber` | PFS3lib/anodes.cpp:501-532 | a directory block is found in the anode block that the upper 16 bits of its anode number name, and anode and bitmap blocks in the index block their number falls in |
| `CommitSteps.ReadStep` | PFS3lib/lru.cpp:91-182 | reading a block into the cache gives its current contents and keeps the invariant |
| `CommitSteps.EvictStep` | PFS3lib/lru.cpp:107-135 | evicting a block, written early if dirty, keeps the invariant: the committed tree stays intact on disk |
| `CommitSteps.MoveStep` | PFS3lib/update.cpp:456-468 | giving a clean block a new number keeps the invariant, with the block marked as moving |
| `CommitSteps.RelinkStep` | PFS3lib/update.cpp:529-640 | recording the new number one level up completes the move and makes that level the one that changed |
| `CommitSteps.CreateStep` | PFS3lib/anodes.cpp:489-532 | a new block with a new number keeps the invariant |
| `CommitSteps.ChangeStep` | PFS3lib/update.cpp:451-484 | changing the contents of a block leaves it to be made dirty |
| `CommitSteps.InPlaceStep` | PFS3lib/update.cpp:469-475 | marking a block dirty where it is keeps the invariant if and only if the committed tree has no block there |
| `CommitSteps.InPlaceWritten` | PFS3lib/update.cpp:469-475 | writing it out early leaves the committed tree readable if and only if that tree has no block there, or this one unchanged |
| `CommitSteps.InPlaceSeen` | PFS3lib/update.cpp:469-475 | a volume of one index block on which it does not: the change shows before the commit |
| `CommitSteps.FlushStep` | PFS3lib/update.cpp:338-397 | writing a dirty block and freeing its old number keeps the committed tree readable |
| `CommitSteps.FreeStep` | PFS3lib/update.cpp:399-412 | freeing the number of an evicted block: it was not free and belongs to no block of the tree |
| `CommitSteps.NothingWaits` | PFS3lib/update.cpp:75-184 | at the end of an update each reserved block is free or in the tree, never both |
| `CommitSteps.RootStep` | PFS3lib/update.cpp:152-163 | with the root block written a reader sees the tree in memory |
| `MetadataCache.Metadata.Evict` | PFS3lib/lru.cpp:107-135 | an eviction adds at most one disk write, after which a reader still sees the committed tree |
| `MetadataCache.Metadata.AllocLRU` | PFS3lib/lru.cpp:91-182 | a buffer is free afterwards; if none was, one unlocked block went or there are more buffers; locked blocks stay; every write on the way leaves the committed tree readable |
| `MetadataCache.Metadata.Fetch` | PFS3lib/lru.cpp:91-182 | brings a block and the blocks above it into the cache, locked blocks staying |
| `MetadataCache.Metadata.Exists` | PFS3lib/anodes.cpp:501-506 | a block is found by way of its parents if and only if it is in the tree |
| `MetadataCache.Metadata.Move` | PFS3lib/update.cpp:456-468 | the block gets a free number and keeps its old one for the commit |
| `MetadataCache.Metadata.Relink` | PFS3lib/update.cpp:529-640 | the number ends up where a reader looks for it, no data changes |
| `MetadataCache.Metadata.MakeBlockDirty` | PFS3lib/update.cpp:451-484 | the recursion ends after at most one reallocation a level; the tree in memory keeps its data; every disk write on the way leaves the committed tree readable; where no reserved block is free a block is marked dirty in place, which is sound if and only if the committed tree has no block there |
| `MetadataCache.Metadata.Change` | PFS3lib/update.cpp:451-484 | changes the data of one block and of no other, and nothing of the committed tree; the same if and only if when no reserved block is free |
| `MetadataCache.Metadata.Create` | PFS3lib/anodes.cpp:489-532 | adds one block to the tree, with every other block keeping its data; fails exactly if no reserved block is free |
| `MetadataCache.Metadata.UpdateBlock` | PFS3lib/update.cpp:338-397 | one dirty block becomes clean, the others stay; the committed tree is still what a reader sees |
| `MetadataCache.Metadata.UpdateList` | PFS3lib/update.cpp:338-369 | all dirty blocks of the list become clean under the same guarantee |
| `MetadataCache.Metadata.CommitReservedToBeFreed` | PFS3lib/update.cpp:399-412 | no number is left waiting |
| `MetadataCache.Metadata.WriteRoot` | PFS3lib/update.cpp:152-163 | one write makes the tree in memory the committed one |
| `MetadataCache.Metadata.UpdateFreeList` | PFS3lib/allocation.cpp:531-573 | each bitmap block named has the contents given last for it, all other data stays; with two reserved blocks for each none is marked dirty in place |
| `MetadataCache.Metadata.UpdateDisk` | PFS3lib/update.cpp:75-184 | crash atomicity: at every write before the last a reader sees the old committed tree, after the last the tree in memory with the new bitmap contents; nothing is dirty then, and each reserved block is free or in the tree; stops before these writes if a block is marked dirty in place, which takes too few reserved blocks |
| `MetadataCache.Serve` | PFS3lib/update.cpp:75-184 | any run of changes, additions, evictions and commits: each that can be served, which has its condition, changes the data as it says and no other; a commit makes a tree with the data in memory the committed one; after every single disk write a reader sees a tree as committed, the first one and then each in turn, never again one before |
| `ReservedBitmaps.ReservedBitmap.UsableIs` | PFS3lib/allocation.cpp:579-632 | a bit stands for a block exactly if that block is not behind the last reserved one |
| `ReservedBitmaps.ReservedBitmap.Search` | PFS3lib/allocation.cpp:590-618 | finds the first free bit from a position on, or there is none |
| `ReservedBitmaps.ReservedBitmap.AllocReservedBlock` | PFS3lib/allocation.cpp:579-632 | takes the first free block from the roving pointer on, wrapping once; 0 exactly if the count is 0; the count stays the number of free bits |
| `ReservedBitmaps.ReservedBitmap.FreeReservedBlock` | PFS3lib/allocation.cpp:662-674 | sets one bit; the count stays right if and only if the block was not free before |
| `DataCaches.ViewUnique` | PFS3lib/disk.cpp:1050-1187 | tags, slots and disk determine the logical contents of the disk |
| `DataCaches.WriteBack` | PFS3lib/disk.cpp:1146-1163 | writing a run of adjacent slots changes neither the logical contents nor any clean slot elsewhere |
| `DataCaches.DataCache.CheckDataCache` | PFS3lib/disk.cpp:1050-1061 | finds the slot of a block, or the block is in none |
| `DataCaches.DataCache.MarkAdjacent` | PFS3lib/disk.cpp:1146-1163 | the run flushed starts at the slot and holds consecutive blocks |
| `DataCaches.DataCache.UpdateSlot` | PFS3lib/disk.cpp:1146-1163 | cleans a slot without changing the logical contents or dirtying another |
| `DataCaches.DataCache.CachedRead` | PFS3lib/disk.cpp:1067-1087 | the slot holds the block, and is the one the roving counter names unless the block was there; a true read changes nothing logically, a fake one puts filler in that block only |
| `DataCaches.DataCache.CachedReadD` | PFS3lib/disk.cpp:1089-1098 | gives the block, or fails exactly if its number is behind the end of the device |
| `DataCaches.DataCache.WriteInSlot` | PFS3lib/disk.cpp:703-708 | changes exactly those bytes of that block |
| `DataCaches.DataCache.CachedWrite` | PFS3lib/disk.cpp:1103-1119 | sets exactly that block, in its slot or the one the roving counter names, evicting another without loss |
| `DataCaches.DataCache.ValidateCache` | PFS3lib/disk.cpp:1168-1187 | reading: the range on disk is current; writing: no slot holds a block of the range |
| `DataCaches.DataCache.UpdateDataCache` | PFS3lib/disk.cpp:1134-1141 | disk and logical contents are equal |
| `DataCaches.DataCache.FlushDataCache` | PFS3lib/disk.cpp:1124-1130 | the cache is dropped: what is on disk is what is seen |
| `DataCaches.DataCache.DiskRead` | PFS3lib/disk.cpp:1209-1230 | returns the last values written; fails exactly for the block number of an anode without blocks |
| `DataCaches.DataCache.DiskWrite` | PFS3lib/disk.cpp:1245-1274 | replaces exactly those blocks; fails likewise |
| `DataCaches.Serve` | PFS3lib/disk.cpp:1050-1274 | for every run of requests the outputs are those of a plain disk, and after an update the disk is that disk |
| `Positions.CorrectedKeeps` | PFS3lib/anodes.cpp:153-165 | correcting a position does not move it |
| `Positions.PositionUnique` | PFS3lib/anodes.cpp:153-165 | a corrected position is determined by the block it denotes |
| `Positions.CorrectedFromHead` | PFS3lib/disk.cpp:838-903 | correcting from anywhere gives what a seek from the head of the chain gives |
| `Positions.FlatRun` | PFS3lib/disk.cpp:523-539 | from a corrected position the blocks up to the end of the anode are consecutive blocks of the file |
| `Positions.ProlongsIndex` | PFS3lib/disk.cpp:631-645 | a stored position stays valid when an allocation lengthens the chain |
| `Positions.ProlongsPosition` | PFS3lib/disk.cpp:961-985 | when the chain grows a corrected position stays corrected unless it is at the end of an anode that was the last, is not now, and did not grow |
| `Positions.TruncPosition` | PFS3lib/disk.cpp:981-1006 | a stored position in what remains of a shortened chain denotes the same block |
| `Positions.CorrectAnodeAC` | PFS3lib/anodes.cpp:153-165 | gives the corrected position; succeeds exactly short of the end of the chain |
| `Positions.NextBlockAC` | PFS3lib/anodes.cpp:141-145 | the same, one block on |
| `Positions.CorrectAnode` | PFS3lib/anodes.cpp:185-197 | on the stored anodes it arrives at the same anode and offset, with the same success |
| `Contents.ReadRun` | PFS3lib/disk.cpp:523-539 | reading consecutive blocks of a file reads its bytes there |
| `Contents.WriteRun` | PFS3lib/disk.cpp:727-777 | writing consecutive blocks of a file replaces its bytes there and no others |
| `Contents.OtherFile` | PFS3lib/disk.cpp:598-825 | a file none of whose blocks is written keeps its bytes |
| `Contents.BlocksForUnique` | PFS3lib/disk.cpp:629-630 | the block count is the least number of blocks that holds that many bytes |
| `Files.WantedRight` | PFS3lib/disk.cpp:503-552 | the part of the block whose number is at the position, followed by the rest of the file, are the bytes of the file from there on, as long as that number is the one of the block there |
| `Files.AddressExact` | PFS3lib/disk.cpp:505-520 | at a position in the file the number `currnode.blocknr + anodeoffset` is that of the block there if and only if the position is not right behind an anode with the next one elsewhere |
| `Files.BufferSize` | PFS3lib/disk.cpp:481-487 | the size of the buffer for an indirect read, shifted in 32 bits, comes out too small exactly if it is 4 GB or more |
| `Files.ReadAt` | PFS3lib/disk.cpp:433-569 | both modes read the same bytes: those of the file, but in direct mode the first part from the block whose number is at the position; fails exactly if there is no such number, or in that case none on the device |
| `Files.ReadDirect` | PFS3lib/disk.cpp:495-552 | the part of the first block, read by its number, the whole blocks and the part of the last add up to the bytes wanted |
| `Files.ReadIndirect` | PFS3lib/disk.cpp:484-494 | the wanted part of a buffer of whole blocks are the bytes of the file, wherever they start |
| `Files.WriteRound` | PFS3lib/disk.cpp:727-777 | one round writes the next blocks of one run; filler gets behind the end of a growing file only |
| `Files.WriteRest` | PFS3lib/disk.cpp:717-792 | the blocks and the last part together write all of the source |
| `Files.WriteIndirect` | PFS3lib/disk.cpp:658-678 | writing back the beginning of the first block with the change amounts to the change |
| `Files.WriteDirect` | PFS3lib/disk.cpp:679-715 | a cached first part and the rest amount to the change |
| `Files.WriteAt` | PFS3lib/disk.cpp:598-800 | in every mode the bytes of the file are spliced, with filler only behind the end of a growing file |
| `Files.Blocks32Exact` | PFS3lib/disk.cpp:629-630 | the 32-bit block count is right if and only if the file ends at least a block short of 4 GB; otherwise it is 0 |
| `Files.File.SeekInFile` | PFS3lib/disk.cpp:838-903 | fails, with the position as it was, exactly if the sum as a signed 32-bit number is outside the file; else denotes that number; the result is the old offset as such a number |
| `Files.File.Seekfile` | PFS3lib/pfs3.cpp:568-587 | reports success if and only if the seek was accepted and the old offset was below 2 GB; accepted or not, the position is as for the seek |
| `Files.SeekExact` | PFS3lib/disk.cpp:851-890 | a seek gets to its target if and only if that is in the file and below 2 GB; one outside the file is accepted exactly if it lies past 4 GB by no more than the size |
| `Files.SeekEndRefused` | PFS3lib/disk.cpp:851-890 | in a file of 2 GB a seek to the end is refused in each mode, one to the byte before is not |
| `Files.File.AstrayExact` | PFS3lib/disk.cpp:503-520 | when a read starts with a part of a block, the block it reads is the one at the offset if and only if it does not go astray |
| `Files.File.ReadFromFile` | PFS3lib/disk.cpp:433-569 | returns the bytes from the offset on, as many as there are, and the position is then what a seek computes; gone astray it returns for the first part what is in the block it reads; fails exactly if there is no block to read there; from a position as a seek computes it neither happens; nothing changes |
| `Files.File.ChangeFileSize` | PFS3lib/disk.cpp:914-1017 | the file has its new end and keeps its bytes up to there; its chain grows at its end by the blocks more it needs, or loses exactly the last blocks it no longer needs, or stays; the position stays, astray or not, unless it is behind the end, and then is what a seek to the end computes; the three failures, with their conditions, change neither contents nor blocks |
| `Files.File.Grow` | PFS3lib/disk.cpp:629-640 | the bytes of the file stay; the file then has the blocks for its new end if and only if 32 bits can count them or it had them; faults exactly as the allocation does |
| `Files.GrowLost` | PFS3lib/disk.cpp:629-640 | an empty file that is to reach the largest size gets no block at all |
| `Files.File.PutData` | PFS3lib/disk.cpp:641-810 | the contents are spliced and the size is the larger end |
| `Files.File.WriteToFile` | PFS3lib/disk.cpp:598-825 | success: contents old[..off] + data + old[off + size..], position behind it, and the blocks more that are needed; otherwise nothing changes; refused only for a file of 4 GB or for want of blocks; the overrun and the fault have their exact conditions, and in an overrun the file lacks blocks or the number of blocks to write comes out as 0; every other file keeps its contents |
| `FileFaults.ReadGoesAstray` | PFS3lib/disk.cpp:503-552 | a file of one block is sought to its end and made longer: a read of one byte returns one of another file, and the file holds a different one there |
| `Files.WriteAndReadBack` | PFS3lib/disk.cpp:433-903 | what was written at an offset below 2 GB is read there again |
| `AnodeAllocation.Anodes.FirstFree` | PFS3lib/anodes.cpp:318-333 | an anode for a new chain is the first free one outside the reserved last slots, or none is free there |
| `AnodeAllocation.Anodes.LastFree` | PFS3lib/anodes.cpp:290-302 | an anode that continues a chain is the last free one of that block, or the block is full |
| `AnodeAllocation.Anodes.ScanWord` | PFS3lib/anodes.cpp:311-338 | flags are cleared of exactly the blocks passed over, which exist and are full |
| `AnodeAllocation.Anodes.Scan` | PFS3lib/anodes.cpp:303-342 | all blocks passed over exist and are full; stops at the first free slot of a block or at a missing block |
| `AnodeAllocation.Anodes.AllocAnode` | PFS3lib/anodes.cpp:282-387 | an anode that was all zero is marked used, nothing else changes; it is the last free one of the block to connect to, or the first free one of the first block that is not full, from the current word of flags on and then from the start; a new block is made exactly when all before it are full; fails exactly when that cannot be had; the retries terminate |
| `AnodeAllocation.Anodes.NewAnodeBlock` | PFS3lib/anodes.cpp:489-532 | adds an empty block, its flag set, exactly if it can be had |
| `AnodeAllocation.Anodes.ReallocAnodeBitmap` | PFS3lib/anodes.cpp:925-946 | old flags stay, new ones are set, the new block has a flag |
| `AnodeAllocation.Anodes.FreeAnode` | PFS3lib/anodes.cpp:394-406 | one anode becomes free to be handed out again, or stays marked if it is one of the first; its flag is set and no other changes; cleared flags still mean full |
| `AnodeAllocation.WithoutFlat` | PFS3lib/anodes.cpp:798-825 | without its k-th anode the file has lost exactly the blocks of that anode |
| `AnodeAllocation.RemoveFromAnodeChain` | PFS3lib/anodes.cpp:798-825 | the table then holds the chain without the anode, under the same head; the anode that is not needed any more can be handed out again, other anodes stay |
| `ExtraFields.FlagsTell` | PFS3lib/directory.cpp:3401-3416 | flag i is set exactly if word i is not zero |
| `ExtraFields.ReadWritten` | PFS3lib/directory.cpp:3344-3356 | unpacking what was packed gives all words back, zeros included |
| `ExtraFields.GetExtraFields` | PFS3lib/directory.cpp:3344-3356 | returns the fields the packed words stand for |
| `ExtraFields.InMemory` | PFS3lib/blocks.h:255-266 | the words, lower byte first, are link, user, group, protection, virtual size, roll pointer and the upper bits of the size, in this order |
| `ExtraFields.AddExtraFields` | PFS3lib/directory.cpp:3389-3425 | behind name and comment are the words that are not zero, last one first, and a word with bit i set if and only if word i is not zero; sets the length, leaves every other byte alone |
| `ExtraFields.AddAndGet` | PFS3lib/directory.cpp:3344-3425 | round trip for all field values and all name and comment lengths; byte 16 of the entry is the lowest protection byte, bytes 17 and 18 on are name and comment, which stay; the entry ends right behind the flags |
| `ExtraFields.EntryFits` | PFS3lib/blocks.h:417-422 | whatever the fields, an entry with a name and a comment as they are taken fits the buffer all callers use, and its length fits in a byte |
| `ExtraFields.LengthEven` | PFS3lib/directory.cpp:3398-3425 | the entry length is even, and the fields start behind name and comment |
| `Entries.OneReading` | PFS3lib/directory.cpp:2795-2809 | a block can be parsed in one way only |
| `Entries.RemoveHolds` | PFS3lib/directory.cpp:2954-2980 | a block with an entry shifted out holds the others and its end mark |
| `Entries.AppendHolds` | PFS3lib/directory.cpp:2854-2861 | a block with an entry appended holds it behind the others, ended again |
| `Entries.ReplaceHolds` | PFS3lib/directory.cpp:2914-2945 | a block with an entry replaced by one of another length holds the new one in its place |
| `Entries.RemoveOff` | PFS3lib/directory.cpp:3084-3139 | entries behind a removed one move down by its length, others stay |
| `Entries.ReplaceOff` | PFS3lib/directory.cpp:3084-3139 | entries behind a replaced one move by the difference in length |
| `Directories.HandleRemoved` | PFS3lib/directory.cpp:3084-3139 | after a removal every reference to another entry, as updated, denotes that entry |
| `Directories.HandleReplaced` | PFS3lib/directory.cpp:3084-3139 | the same after a replacement; a reference to the entry itself denotes the new one |
| `Directories.AllUpdate` | PFS3lib/directory.cpp:2758-2980 | changing one block changes the entries of the directory by exactly that difference |
| `Directories.AllInsert` | PFS3lib/directory.cpp:2862-2897 | a new block adds exactly its entries |
| `Directories.StepTracking` | PFS3lib/directory.cpp:2758-2787 | across one spill every reference still leads to its own entry, and the entry being renamed is followed |
| `Spills.StopUnique` | PFS3lib/directory.cpp:2758-2787 | at most one entry is the first that cannot be moved to the block before |
| `Spills.SomeStop` | PFS3lib/directory.cpp:2758-2787 | one is, unless all entries before the one to rename can be moved |
| `Spills.NoRename` | PFS3lib/directory.cpp:2758-2787 | if there is no room for the new length after any of the moves that can be made, the entry cannot be renamed |
| `Directories.Directory.EndOfBlock` | PFS3lib/directory.cpp:2795-2809 | walking the entries ends at the end mark |
| `Directories.Directory.CheckFit` | PFS3lib/directory.cpp:2795-2809 | gives the end of the block exactly if that many bytes and an end mark fit |
| `Directories.Directory.UpdateChangedRef` | PFS3lib/directory.cpp:3084-3139 | each reference changes as the rule says, for every handle |
| `Directories.Directory.RemoveDirEntry` | PFS3lib/directory.cpp:2954-2980 | exactly one entry is gone from its block; the space gained is cleared only if an entry follows |
| `Directories.Directory.PutBefore` | PFS3lib/directory.cpp:2844-2897 | the entry goes to the block before or to a new one in between, and the directory has gained it alone; fails, with nothing changed, only if the block before has no room and no block can be had |
| `Directories.Directory.TakeOut` | PFS3lib/directory.cpp:2902-2908 | an entry copied elsewhere is gone from its old place and all references follow it |
| `Directories.Directory.MoveToPrevious` | PFS3lib/directory.cpp:2818-2909 | the entry goes from its block, and the new one to the end of the block before or, alone, to a new block in front of its own; every handle denotes its own entry; fails, with nothing changed, as PutBefore does |
| `Directories.Directory.RenameInPlace` | PFS3lib/directory.cpp:2914-2945 | the entry is exchanged where it is; every handle denotes its own entry |
| `Directories.Directory.SpillFirst` | PFS3lib/directory.cpp:2774-2778 | spilling the first entry leaves the directory unchanged as a multiset and keeps track of the entry to rename; if it fails nothing has changed but the reference to that entry |
| `Directories.Directory.RenameWithinDir` | PFS3lib/directory.cpp:2758-2787 | however many entries spill and blocks are added: the multiset of entries changes from -> to only, every block parses, every open handle denotes its own entry; when no block can be had, the entry is renamed if and only if some number of entries can move to the block before, over the old contents, and leave room for it; if not, which of the three failures results is stated likewise |
| `Directories.Directory.GoOn` | PFS3lib/directory.cpp:2774-2783 | after a failed spill: the search leaves the block if and only if the offset is no multiple of the length of the first entry; if it is one, the first entry is replaced if and only if the block before has room for the new one |
| `Directories.RenameHitsOther` | PFS3lib/directory.cpp:2774-2783 | a directory of two blocks in which renaming one entry loses another |
| `Directories.Directory.AddDirectoryEntry` | PFS3lib/directory.cpp:3000-3077 | the entry goes to the end of the first block that has room, or alone to a new first block; handles keep theirs; fails, with nothing changed, only if no block has room and none can be had |
| `Plls.MismatchBound` | adf/pll.cpp:57-87 | inside the region the phase mismatch of a flux stays below half a clock, for all three interval lengths |
| `Plls.RightCount` | adf/pll.cpp:57-64 | a flux within the tolerance is counted as the right number of cells |
| `Plls.RegionStep` | adf/pll.cpp:66-80 | the region is kept under the truncating divisions, for all three interval lengths |
| `Plls.StaysLocked` | adf/pll.cpp:57-87 | a flux within the tolerance is counted right, keeps the region, and never reaches the clamp |
| `Plls.DecodeTrack` | adf/pll.cpp:29-98 | from reset, any run of fluxes within 200 ns of 2, 3 or 4 cells decodes to exactly those cells |
| `Plls.PLL.Reset` | adf/pll.cpp:29-35 | no bits, centre clock, no residual |
| `Plls.PLL.AddBit` | adf/pll.cpp:44-54 | appends one bit to what the byte buffer stands for |
| `Plls.StepFollows` | adf/pll.cpp:57-87 | in numbers: which cell a flux ends in, that the part by which it misses is halved, and by how much the clock is adjusted, up to the nearest number in its limits |
| `Plls.OutOfSync` | adf/pll.cpp:70-76 | after 0 or more than 3 zeros the clock comes a tenth of the way back to its centre, never farther from it |
| `Plls.TrackOnes` | adf/pll.cpp:82-87 | the bits of a track are ones at the ends of the intervals and zeros elsewhere |
| `Plls.PLL.DecodeFlux` | adf/pll.cpp:57-87 | the timing follows; a flux that ends a cell appends its zeros and a one, any other nothing |
| `Plls.PLL.FinaliseTrack` | adf/pll.cpp:90-98 | the buffer, read from the top, starts with exactly the bits emitted |
| `AmigaMfm.DecodedEncoded` | adf/amiga_sectors.cpp:108-126 | decoding gives back what was encoded, whatever the clock bits are |
| `AmigaMfm.ChecksumSame` | adf/amiga_sectors.cpp:108-126 | clock bits do not count in a checksum |
| `AmigaMfm.PairXorAll` | adf/amiga_sectors.cpp:242-266 | the checksum does not depend on the order in which the longs are summed |
| `AmigaMfm.EncodeMFMdata` | adf/amiga_sectors.cpp:242-266 | writes the halves in its own slice and returns the checksum a decoder computes |
| `AmigaMfm.DecodeMFMdata` | adf/amiga_sectors.cpp:108-126 | returns the decoded bytes and their checksum |
| `AmigaSectors.ClockByte` | adf/amiga_sectors.cpp:304-320 | each clock bit is set exactly between two zeros |
| `AmigaSectors.FillClocks` | adf/amiga_sectors.cpp:304-320 | the whole sector body gets its clock bits, nothing else changes |
| `AmigaFormat.SectorStands` | adf/amiga_sectors.cpp:269-323 | field by field, as a reader finds them: format 255, track, number and how many sectors there are from this one on; an empty label; the parity of header and label, and that of the data, byte by byte; the data; and a clock bit exactly between two zeros |
| `AmigaFormat.TrackBytesStand` | adf/amiga_sectors.cpp:327-355 | 1654 bytes of filler, or twice that, the sectors, and eight bytes that fit the last data bit |
| `AmigaFormat.BufferNeeded` | adf/amiga_sectors.cpp:327-333 | a full track needs a buffer of 13630 bytes, or 27252 |
| `AmigaSectors.EncodeSector` | adf/amiga_sectors.cpp:269-323 | writes exactly one sector, in its place, its fields as stated; of data that is not 512 bytes long only the start |
| `AmigaSectors.EncodeSectorsIntoMFM` | adf/amiga_sectors.cpp:327-355 | writes the whole track, sectors in some order, each with its fields as stated, or nothing if the buffer is too small |
| `AmigaFinding.ExtractRawSector` | adf/amiga_sectors.cpp:80-102 | copies the bits from any position on, around the end of the track |
| `AmigaFinding.DecodeSector` | adf/amiga_sectors.cpp:129-181 | judges header and data and files the sector unless a better one is there |
| `AmigaFinding.ErrorsTell` | adf/amiga_sectors.cpp:140-170 | a sector is read without errors exactly if both checksums are right and the header names the track and a number of sectors to come; with a wrong header checksum it has more errors than with the right one |
| `AmigaFinding.StaysUnlessBetter` | adf/amiga_sectors.cpp:172-181 | once filed, a sector stays until it is read with fewer errors |
| `AmigaFinding.BestKept` | adf/amiga_sectors.cpp:172-213 | of all readings of a sector, one with the fewest errors is kept, and nothing is filed that was not read |
| `AmigaFinding.FindSectors` | adf/amiga_sectors.cpp:184-236 | the shift register scan of the circular track finds what the specified scan finds, missing sectors filled in and errors counted |
| `SectorCommon.FillIn` | adf/amiga_sectors.cpp:216-235 | exactly the missing sectors are filled in, with zeros and 0xFFFF errors, when their number is known; the result is how many of those expected have errors |
| `AmigaRoundTrip.JudgedRight` | adf/amiga_sectors.cpp:129-181 | a sector as written is read with its data, its number and no errors |
| `AmigaRoundTrip.TrackLayout` | adf/amiga_sectors.cpp:327-355 | in an encoded track the clock rule is broken in the sync words only, seams and padding included |
| `SyncSearch.GapPlace` | adf/amiga_sectors.cpp:304-320 | a missing clock bit marks a sync word |
| `SyncSearch.NoSyncWord` | adf/amiga_sectors.cpp:304-320 | bits that obey the clock rule contain no sync word at any offset, in either phase |
| `SyncSearch.OnlyAtSync` | adf/amiga_sectors.cpp:200-213 | the 32-bit pattern occurs nowhere in the track but at its real syncs, wrap-around included |
| `AmigaTrack.MatchIsPattern` | adf/amiga_sectors.cpp:200-213 | a match of the register, even one that has hardly begun to fill, is the pattern on the rotated track |
| `AmigaTrack.SectorRead` | adf/amiga_sectors.cpp:199-214 | behind every match lies a sector, read without errors |
| `AmigaTrack.OnlyWritten` | adf/amiga_sectors.cpp:199-214 | nothing is filed at any time that was not written |
| `AmigaTrack.StaysFiled` | adf/amiga_sectors.cpp:199-214 | once its sync has passed, a sector is filed for good |
| `AmigaTrack.AllFound` | adf/amiga_sectors.cpp:184-236 | for every rotation of an encoded track exactly the sectors written are found |
| `AmigaTrack.FindWritten` | adf/amiga_sectors.cpp:184-236 | round trip: every emission order, every bit rotation: the same sectors, with no errors |
| `Crcs.Crc16` | adf/ibm_sectors.cpp:153-161 | the 32-bit accumulator computes the 16-bit register form |
| `Crcs.CheckValue` | adf/ibm_sectors.cpp:153-161 | the CRC of the digits 1 to 9 is 0x29B1 |
| `Crcs.LowStep` | adf/ibm_sectors.cpp:153-161 | the upper half of the accumulator never reaches the lower |
| `Crcs.CrcChain` | adf/ibm_sectors.cpp:153-161 | the CRC of a concatenation is the CRC of the second part started with that of the first |
| `Crcs.CrcIsBits` | adf/ibm_sectors.cpp:153-161 | a byte at a time equals a bit at a time |
| `Crcs.StepLinear` | adf/ibm_sectors.cpp:153-161 | the zero-input step is linear over XOR |
| `Crcs.CrcAffine` | adf/ibm_sectors.cpp:153-161 | the difference of two CRCs is the CRC of the difference |
| `Crcs.UnstepStep` | adf/ibm_sectors.cpp:153-161 | the zero-input step is invertible |
| `Crcs.BurstShows` | adf/ibm_sectors.cpp:153-161 | at most 16 bits, not all zero, leave a register that is not zero |
| `Crcs.ZerosKeep` | adf/ibm_sectors.cpp:153-161 | zeros leave a register zero exactly if it was |
| `Crcs.BurstDetected` | adf/ibm_sectors.cpp:153-161 | in messages of any length every burst of at most 16 bits changes the CRC |
| `IbmMfm.EncodeByte` | adf/ibm_sectors.cpp:122-150 | a byte becomes its two bytes with clock bits |
| `IbmMfm.EncodeMFMdata` | adf/ibm_sectors.cpp:122-150 | writes the encoding, and nothing outside the buffer |
| `IbmMfm.WriteRawMFM` | adf/ibm_sectors.cpp:346-358 | repeats the value, its clock bit adapted to what comes before |
| `IbmMfm.MfmNoGap` | adf/ibm_sectors.cpp:122-150 | encoded data obeys the clock rule, seams included |
| `IbmSectors.WriteMarkerMFM` | adf/ibm_sectors.cpp:361-374 | writes the mark as it stands, from its top byte down |
| `IbmSectors.GapFillMFM` | adf/ibm_sectors.cpp:338-343 | appends a gap to the track |
| `IbmSectors.PutSector` | adf/ibm_sectors.cpp:443-474 | appends header, gap and data with their CRCs to the track |
| `IbmFormat.TrackHolds` | adf/ibm_sectors.cpp:377-479 | between its clock bits a track holds, byte by byte: 80 of 0x4E, the track mark, the gap; then for each sector twelve zeros, mark, cylinder, head, number and length code, CRC, gap, twelve zeros, mark, data, CRC, gap; then the last gap |
| `IbmFormat.Checks` | adf/ibm_sectors.cpp:443-470 | each CRC is that of mark and fields together |
| `IbmFormat.HighFirst` | adf/ibm_sectors.cpp:443-470 | a CRC is stored with its high byte first |
| `IbmSectors.ChooseGaps` | adf/ibm_sectors.cpp:377-436 | the gaps chosen for a number of sectors are those of the layout |
| `IbmSectors.EncodeSectorsIntoMFM` | adf/ibm_sectors.cpp:377-479 | writes the whole track, with that on it, if the buffer is large enough, and never behind the buffer; refuses more than 21 sectors |
| `IbmFormat.LengthCodeIs` | adf/ibm_sectors.cpp:456 | 128 bytes have length code 0, and twice as many the next one |
| `IbmFinding.RegisterShift` | adf/ibm_sectors.cpp:214-219 | shifting in a bit makes the 64-bit register the window one bit on |
| `IbmFinding.MarkNotEarly` | adf/ibm_sectors.cpp:213-221 | no mark is seen before 63 bits have been read |
| `IbmFinding.ExtractMFMDecodeRaw` | adf/ibm_sectors.cpp:164-184 | copies the data bits, around the end of the track |
| `IbmFinding.ReadHeader` | adf/ibm_sectors.cpp:222-248 | grades a header as specified |
| `IbmFinding.HeaderClean` | adf/ibm_sectors.cpp:231-247 | a header has no errors exactly if its CRC is right and it names a sector from 1 on of this cylinder and side; a sector 0 is taken for 1 |
| `IbmFinding.ReadingFiled` | adf/ibm_sectors.cpp:249-292 | every reading, deleted data too, is filed if its number is below 22, unless there is one with as few errors; sectors change at no other time |
| `IbmFinding.ReadData` | adf/ibm_sectors.cpp:249-292 | reads and files the data behind a header |
| `IbmFinding.FiledClean` | adf/ibm_sectors.cpp:264-285 | a sector is filed without errors if and only if its data is good or its header is bad |
| `IbmFinding.GradeTells` | adf/ibm_sectors.cpp:264-271 | the errors filed tell good data from bad, for all data and CRCs, if and only if the header had none |
| `IbmFinding.BadHeaderHides` | adf/ibm_sectors.cpp:234-285 | the header of sector 1 with a wrong CRC and 512 bytes with a wrong CRC: filed without errors |
| `IbmFinding.FindSectors` | adf/ibm_sectors.cpp:188-330 | the scan finds what the specified scan finds, missing sectors filled in and errors counted |
| `IbmMarks.GapPlace` | adf/ibm_sectors.cpp:361-374 | a missing clock bit lies in a mark |
| `IbmMarks.SectorAligned` | adf/ibm_sectors.cpp:214-222 | the pattern of a sector mark occurs only where one starts |
| `IbmMarks.TrackAligned` | adf/ibm_sectors.cpp:214-222 | so does that of a track mark |
| `IbmMarks.MatchIsMark` | adf/ibm_sectors.cpp:214-222 | if the register holds the value of a mark, that mark has just been read |
| `IbmMarks.MarkIsMatch` | adf/ibm_sectors.cpp:214-222 | and every mark is seen when its last bit is read |
| `IbmTrack.LaidSector` | adf/ibm_sectors.cpp:443-474 | appending a sector breaks the clock rule in its two marks only |
| `IbmTrack.LaidUpTo` | adf/ibm_sectors.cpp:377-479 | so does a whole track, for every number and size of sectors and both gap layouts |
| `IbmTrack.ScanIsFold` | adf/ibm_sectors.cpp:213-299 | scanning bit by bit is treating the marks one after the other |
| `IbmTrack.SectorRead` | adf/ibm_sectors.cpp:222-292 | the two marks of a written sector add it, with its data and no errors |
| `IbmTrack.FoldSectors` | adf/ibm_sectors.cpp:213-299 | after the marks of the first n sectors exactly these are found |
| `IbmTrack.AllFound` | adf/ibm_sectors.cpp:188-330 | every sector of a written track is found, with its data and without errors |
| `IbmTrack.WriteAndFind` | adf/ibm_sectors.cpp:188-479 | round trip: writing and reading gives every sector with no errors, for standard and Atari gaps |

## Left out

- Volumes.Volume.AllocateBlocksAC: with online updates, which free blocks in between, the order is stated for the first block only; behind a fault, which ends the program, nothing is modelled.
- Volumes.Volume.OnlineUpdate: the thresholds for updates (`tbf_resneed`, `rtbf_index`, reserved blocks left) are a free choice, which covers every threshold.
- Volumes.Volume.FreeBlocksAC: in keep mode nodes behind the freed tail stay in the cached chain in the source and are dropped in the model; the chain is not used afterwards.
- The user bitmap is one run of bits; its split over bitmap blocks appears only in the order of the scan.
- Stores.Store.NewFile: the directory entry is not part of it.
- Volumes.Volume.ConnectBlock: takes any free anode; how one is found is modelled in `AnodeAllocation`.
- MetadataCache.Metadata.MakeBlockDirty: behind a block marked dirty in place where the committed tree has one, nothing more is stated than that state and what its write shows.
- MetadataCache.Metadata.UpdateDisk: stops at a block marked dirty in place; the root block and the reserved bitmap behind it are one write; which bitmap blocks change is an argument; date stamps, `softprotect` and the checks for removed volumes are not modelled.
- The supermode index level (its update marks the root extension dirty without moving it), the removal of empty directory, anode and index blocks, and the setting up of the deleted-files directory: each frees or rewrites a block of the committed tree before the commit.
- MetadataCache.Metadata.AllocLRU: which unlocked block is evicted is a free choice; that a list of buffers cannot be had is not modelled.
- LRU queues as linked lists, malloc and I/O failures, endian swapping, buffer alignment beyond the flag `maskok`.
- MetadataCache.Serve: requests for which too few reserved blocks are free are passed over.
- Files.File.WriteToFile: what is written in an overrun, and where, is not modelled; nor are files of the deleted-files directory and access modes.
- Files.File.ReadFromFile: what an indirect read does with a buffer that is too small is not modelled.
- DataCaches.DataCache.CachedReadD: behind a failed read of a block that the device does not have, the slot that carries its number is not modelled.
- Files.File.ChangeFileSize: that other handles behind the new end are moved there too is not modelled; a sum beyond 32 bits, which C++ leaves undefined, wraps around.
- Files.File.SeekInFile: rollover and deleted files are not modelled.
- AnodeAllocation.Anodes.AllocAnode: split mode only; whether a new block can be had is an argument, which covers the limits on their number.
- ExtraFields.AddExtraFields: names and comments beyond their limits are not modelled; an entry without name is 20 bytes long.
- Directories.Directory.RenameWithinDir: once a block cannot be had, none can be had for the rest of the call; behind a search that left its block nothing is modelled; the chain of a directory is a list of block numbers; parent dates and references of directory scans (`nextentry`) are not modelled.
- Directories.Directory.PutBefore: an anode for a new directory block can always be had once the block can; when `AllocAnode` returns 0 there, which the source does not look at, the link to the blocks behind is lost.
- Directories.Directory.MoveToPrevious: the same holds for it.
- Directories.Directory.AddDirectoryEntry: the same holds for it.
- Directories.Directory.UpdateChangedRef: the call without a new place (an entry deleted for good) is not modelled.
- Plls.DecodeTrack: 200 ns is not the largest tolerance; overflow of the 32-bit flux counter is not modelled.
- AmigaTrack.FindWritten: track numbers up to 166 and fewer than 256 sectors, as the header can hold; bootblock code is not modelled.
- AmigaFinding.DecodeSector: a raw sector always has its fixed size.
- AmigaSectors.EncodeSectorsIntoMFM: sectors have 512 bytes; the refusal of other sizes is not modelled.
- IbmFinding.FindSectors: where the end of the track cuts off a sector the source reads behind its buffer and the model goes on at the start; the statistics about gaps (`nonstandardTimings`) and length codes of 25 and more, which shift beyond 32 bits, are not modelled.
- IbmTrack.WriteAndFind: the gap layout for 22 sectors cannot be reached, because more than 21 are refused.
- FatFS, ADFlib, xDMS, Dokan, dialogs, drives and SCP files: wrappers, I/O and user interface.
- Rollover files, links, path parsing and dates: many easy cases.
