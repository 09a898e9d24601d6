# ChiffOS kernel: a Dafny model

This project models the parts of the ChiffOS kernel that carry the most state and the most
arithmetic, and proves properties of them over every input, every call and every run.

* **The ext2 driver**, bottom up. `CacheSpec`, `CacheLru` and `BlockCache` hold the write-back
  block cache. `Bitmap`, `Volume`, `Allocator` and `AllocatorRuns` hold the block and inode
  allocators. `InodeTable`, `BlockMap`, `Files` and `FileData` hold the inode table, the block map
  with its indirect blocks, and file growth. `FileBytes`, `FileSystem` and `Directory` hold file
  contents, runs of writes and directories. `Ext2` is the driver object itself: a class whose methods
  run over the cache and change the descriptors and the superblock in place. `Mount` computes the
  geometry of a volume, builds the driver on it, and builds it again after a sync. `FreshVolume` is a
  formatted volume that meets all their preconditions, with the driver mounted on it, and `FreshRuns`
  runs the driver on it into the cases below.
* **Ring buffers and pipes**: `Ring` (the buffer as a class), `RingProtocol` (readers and writers
  interleaved one byte, one wake-up and one decision at a time), `RingReturns` (what a call
  has moved when it sleeps or returns), `RingSleep` (who may sleep) and `RingExact` (exactly which runs
  go wrong).
* **The doubly linked list** (`LinkedList`) and **the chained hash map** (`HashMap`), as classes
  over nodes.
* **Strings**: `StringSearch` (word-at-a-time `strchrnul`), `Tokens` (`strtok_r`, `tokenize`),
  `MemoryCopy` (`memcpy`, `memmove`) and `Args` (kernel arguments, end to end).
* **The calendar**: `Calendar` (`localtime_r` and the date sum of `read_cmos`).

`Bytes` holds little-endian fields, `Options` a value that may be missing.

## How the ext2 model is put together

A disk is a sequence of blocks. `Disk()` of the cache object is the disk as the driver sees it,
whatever is dirty; everything above the cache is stated about that view, and the refinement
theorem of `CacheSpec` is why this is sound. A ghost map, `owner`, says what every block in use is
used for: the superblock, a descriptor block, a bitmap, a table block of a group, or the single-,
double-, leaf or data block of one file at one place. Two paths through the file system that meet
in one block would need it to have two roles, so ownership is the disjointness of all reachable
blocks. `WellFormed` says that the layout is owned, that every owned block is marked in its bitmap,
that each group's free counts are the numbers of clear bits, that the superblock holds the sums, and
that the disk holds the copies of what is in memory. Every operation keeps it.

The main results, each for all inputs or all runs:

1. `CacheSpec.RunRefines`: a run over the cache answers and ends like the same run over a plain disk.
2. `CacheLru.Retention`: a block accessed at clock 1 or later outlives every run over fewer other
   blocks than there are entries; `SurvivesNextMiss` says exactly when the weakest form holds.
3. `AllocatorRuns.NeverTwice` and `Conservation`: whole runs of the allocators; `AllocateBlock` and
   `AllocateInode` are steps of such runs, and each takes the least free number.
4. `Ext2Fs.SetBlockNumber`: the map changes at one index, exactly when there is room for the missing
   indirect blocks.
5. `FileSystem.RunRepresents`: after any run of writes to any files every file holds what the same
   writes make of its byte string.
6. `Ext2Fs.CreateEntry`, `FindDir`, `DirEntry`: one list of records behind all three.
7. `RingProtocol.AlwaysFifo`, `RingReturns.Returns`, `RingExact.MutualSleepExact` and `ForgottenExact`, with the run
   `RingSleep.LostWakeup`.
8. `Args.AfterAnyParses`: what the argument table holds after any series of command lines.
9. `Mounting.WriteAndRemount`: a write survives a sync and another mount.
10. `Calendar.RoundTrip`, `MemoryCopy.MemMove`, `StringSearch.StrChrNul`.

## Where the code does not do what it is for

Each of these is kept as the code has it, with the exact condition proved.

* `create_entry` returns `E_NOSPACE` at its end even when it has added the record
  (kernel/src/ext2.c:622-740): `Ext2Fs.CreateEntry` states that status, and says when the record is
  there all the same. `FreshRuns.AddAndFind` is a run in which it is.
* `allocate_inode_block` reports success when the map could not take the block
  (kernel/src/ext2.c:551-567): with `free` free blocks and `Missing` missing indirect blocks, the
  file grows properly if and only if `free > Missing`; for `0 < free <= Missing` its record counts a
  block it does not have (`FileData.HoleAtEnd`). `FreshRuns.AllocateHole` is a run in which it does.
* The growth loop of `inode_write_block` looks at no status (kernel/src/ext2.c:603-606): it ends with
  the blocks mapped if and only if `Slack` is not negative (`Ext2Fs.GrowTo`). Otherwise it ends with a
  hole or never ends; `FreshRuns.GrowWithoutRoom` has runs of both kinds.
* An inode number that the group size divides is looked up outside its group's table
  (kernel/src/ext2.c:475-494, 1109-1128): `InodeTables.AddressedInTable`, an if-and-only-if. So
  `IsInode` is every number whose group exists and that is not such a multiple. `allocate_inode` hands
  out the multiples too, the last number of the volume among them: `FreshRuns.TakeEveryInode` is a run
  that does.
* `read_ext2` computes a wrong length for reads that start behind the end or that wrap around
  (kernel/src/ext2.c:1139-1180): `FileBytes.ReadLengthExact`, an if-and-only-if.
* The cache entry filled at clock 0 still looks unused and is evicted by the next miss
  (kernel/src/ext2.c:95-97, 158-197): `CacheLru.FirstBlockIsEvicted`, `SurvivesNextMiss`.
* Between its wake-up call and its sleep nothing protects a call (kernel/src/ringbuffer.c:79-85,
  103-113, kernel/src/pipe.c:109-113, 170-174): both sides can fall asleep over a buffer that is not
  empty. Decisions alone take a run to where both sides sleep if and only if it has a point at which a
  reader and a writer are both about to sleep (`RingExact.MutualSleepExact`). They leave behind a
  sleeper that has something to do and that nobody is about to wake if and only if the run has a point
  at which such a call is about to sleep (`ForgottenExact`). `RingSleep.LostWakeup` is such a run. In it no two calls are
  ever in their transfer loops, so the locks that are commented out around these would not help.
  Running each pass alone does (`NeverBothAsleep`, `AtomicNotBoth`).
* `days_in_month` has no December (kernel/src/localtime.c:24-50): `localtime_r` fails exactly after
  the first instant of December. On a whole hour it reports minute 60 of the hour before, and on a
  midnight its day of the year runs one ahead of its month and day (`Calendar.LocalTime`).

## Model

| member | source | states |
|---|---|---|
| CacheSpec.Victim | kernel/src/ext2.c:158-176 | the entry to evict has the least last use of all entries |
| CacheSpec.FlushKeepsView | kernel/src/ext2.c:105-110 | writing a dirty entry back changes nothing the driver can see and leaves the entry clean |
| CacheSpec.InstallView | kernel/src/ext2.c:183-197 | refilling an entry changes the visible disk at that one block only, keeps cached numbers distinct and clean entries equal to the device |
| CacheSpec.ReadRefines | kernel/src/ext2.c:133-204 | a cached read returns the visible block, keeps the visible disk and the cache invariant; block 0 is refused |
| CacheSpec.WriteRefines | kernel/src/ext2.c:213-265 | a cached write updates exactly one visible block and keeps the invariant; block 0 is refused |
| CacheSpec.SyncRefines | kernel/src/ext2.c:267-284 | after the flush loop no entry is dirty and the device equals the visible disk, which did not change |
| CacheSpec.SuperRefines | kernel/src/ext2.c:119-122 | writing the superblock past the cache changes only bytes 1024 to 2047 of block 0 of the visible disk |
| CacheSpec.StepRefines | kernel/src/ext2.c:105-284 | every operation gives the reply and the visible disk that a plain disk would give |
| CacheSpec.RunRefines | kernel/src/ext2.c:105-284 | every sequence of operations replies like a plain disk, ends in its contents, and leaves them on the device when it ends in a sync |
| CacheLru.StepKeepsClock | kernel/src/ext2.c:95-97 | every stamp stays below the clock and only unused entries and the first fill carry stamp 0 |
| CacheLru.EvictionNeedsManyBlocks | kernel/src/ext2.c:158-197 | when a block stamped later than 0 is the victim, at least as many distinct other blocks as there are entries were accessed since |
| CacheLru.StepRetains | kernel/src/ext2.c:133-265 | one operation keeps the block cached while fewer other blocks than entries have been touched |
| CacheLru.Retention | kernel/src/ext2.c:133-265 | a block accessed at clock 1 or later stays cached through every run that touches fewer distinct other blocks than there are entries |
| CacheLru.FirstBlockIsEvicted | kernel/src/ext2.c:158-197 | the block accessed at clock 0 is evicted by the next access to another block |
| CacheLru.SurvivesNextMiss | kernel/src/ext2.c:158-197 | an accessed block survives the next miss if and only if the clock had left 0 |
| BlockCaching.BlockCache.constructor | kernel/src/ext2.c:1552-1569 | a fresh cache shows the device unchanged |
| BlockCaching.BlockCache.Tick | kernel/src/ext2.c:95-97 | returns the clock and advances it by one |
| BlockCaching.BlockCache.FlushIfDirty | kernel/src/ext2.c:105-110 | the entry's block is on the device and the entry is clean; nothing else changed |
| BlockCaching.BlockCache.Search | kernel/src/ext2.c:158-176 | finds the entry of the block if there is one, otherwise the least recently used entry |
| BlockCaching.BlockCache.ReadBlock | kernel/src/ext2.c:133-204 | returns the visible block and keeps the visible disk; block 0 is refused and the buffer left alone |
| BlockCaching.BlockCache.WriteBlock | kernel/src/ext2.c:213-265 | updates exactly the visible block; block 0 is refused |
| BlockCaching.BlockCache.Sync | kernel/src/ext2.c:267-284 | the device becomes the visible disk and no entry is dirty |
| BlockCaching.BlockCache.RewriteSuperblock | kernel/src/ext2.c:119-122 | bytes 1024 to 2047 of block 0 become the superblock |
| Bitmap.SetBit | kernel/src/ext2.c:522 | exactly one bit of the bitmap becomes set |
| Bitmap.BitWeight | kernel/src/ext2.c:78 | bit k of a byte is the one with weight 2 to the k |
| Bitmap.SetBitCount | kernel/src/ext2.c:522-525 | setting a clear bit lowers the number of clear bits by one |
| Bitmap.FirstClear | kernel/src/ext2.c:505-507 | the scan ends because the free count promises a clear bit, and finds the first one |
| Volumes.WellFormedFrame | kernel/src/ext2.c:496-540 | what leaves bitmaps, descriptors and superblock alone keeps the volume consistent |
| Volumes.WriteKeeps | kernel/src/ext2.c:213-265 | writing a data, table or indirect block keeps the volume consistent |
| Allocation.SumsAfterTake | kernel/src/ext2.c:525-530 | taking from one group lowers the sum of the group counts by one, and only that of its kind |
| Allocation.BitmapToScan | kernel/src/ext2.c:503-507 | a group with a positive free count has a clear bit, and every clear bit is a block nobody owns |
| Allocation.LeastFree | kernel/src/ext2.c:502-512 | the search finds the least free block of the volume |
| Allocation.UsedOnDisk | kernel/src/ext2.c:502-512 | a block is in use exactly when its bit is set in the bitmap block that the descriptor of its group has at byte 0 |
| Allocation.InodeUsedOnDisk | kernel/src/ext2.c:748-759 | an inode, counted from 1, is in use exactly when its bit is set in the bitmap block that the descriptor of its group has at byte 4 |
| Allocation.TakenIsFresh | kernel/src/ext2.c:503-514 | the block found is not in use, owned by nobody and not block 0 |
| Allocation.TakeBlockEffect | kernel/src/ext2.c:522-538 | the new block reads as zeros, becomes used, every other block keeps its state and its contents, the free count drops by one |
| Allocation.TakeBlockKeeps | kernel/src/ext2.c:522-538 | one allocation keeps the whole volume consistent with the block owned by its new role |
| Allocation.LeastFreeInode | kernel/src/ext2.c:748-759 | the search of allocate_inode finds the least free inode |
| Allocation.TakeInodeEffect | kernel/src/ext2.c:765-778 | exactly one inode becomes used, the inode count drops by one, no owned block outside the accounting changes |
| Allocation.TakeInodeKeeps | kernel/src/ext2.c:765-778 | allocating an inode keeps the whole volume consistent |
| AllocatorRuns.TakesFree | kernel/src/ext2.c:496-540 | what a step hands out was free and unowned before and is in use after, and a new block reads as zeros |
| AllocatorRuns.NextKeeps | kernel/src/ext2.c:496-540 | taking a bit with its counts, in either allocator, or writing anything that is not accounting keeps the volume consistent |
| AllocatorRuns.RunMonotone | kernel/src/ext2.c:496-540 | along every run nothing in use becomes free |
| AllocatorRuns.NeverTwice | kernel/src/ext2.c:496-540 | no run hands out a block or an inode twice |
| AllocatorRuns.Conservation | kernel/src/ext2.c:742-779 | from a consistent volume every run of such steps ends in a consistent volume, where bitmaps, group counts and superblock agree, and initial free counts equal final free counts plus what was handed out |
| InodeTables.SlotInTable | kernel/src/ext2.c:475-494 | the driver's offsets put a valid inode in one block of its group's table, never across a block border |
| InodeTables.AddressedInTable | kernel/src/ext2.c:1109-1128 | every number is looked up inside its group's table if and only if its group exists and the group size does not divide it; of the numbers of the volume, the last included, exactly the multiples of the group size are not |
| Files.TakenAddressed | kernel/src/ext2.c:742-779 | a number that allocate_inode hands out can be looked up if and only if the group size does not divide it |
| InodeTables.SlotAddress | kernel/src/ext2.c:1109-1128 | block and byte computed from the descriptor are those of the inode's slot; SlotByFormat says which these are |
| InodeTables.SlotByFormat | kernel/src/ext2.c:1109-1128 | the slot of record y of block x of the table of group g is byte y times the record size of the x-th block behind the one that the descriptor has at byte 8 |
| InodeTables.RecordExists | kernel/src/ext2.c:475-494 | the numbers that are looked up in a table are exactly those of such records |
| InodeTables.RecordsDisjoint | kernel/src/ext2.c:475-494 | distinct inode numbers have disjoint records in blocks of their own tables |
| InodeTables.PutInodeEffect | kernel/src/ext2.c:475-494 | a written record reads back, every other record and every non-table block is unchanged, the volume stays consistent |
| BlockMaps.MapFrame | kernel/src/ext2.c:413-473 | a file's map depends only on its record and its own indirect blocks |
| BlockMaps.MapBytes | kernel/src/ext2.c:413-446 | the map is what the little-endian words of the record, its indirect blocks and its leaves say |
| BlockMaps.SetDirect | kernel/src/ext2.c:303-305 | setting a direct pointer changes the map at that index only |
| BlockMaps.SetSingleRoot | kernel/src/ext2.c:308-313 | hanging in a fresh single-indirect block changes no index of the map |
| BlockMaps.SetDoubleRoot | kernel/src/ext2.c:328-333 | hanging in a fresh double-indirect block changes no index of the map |
| BlockMaps.SetInSingle | kernel/src/ext2.c:314-321 | setting a pointer of the single-indirect block changes the map at that index only |
| BlockMaps.SetLeaf | kernel/src/ext2.c:338-343 | hanging in a fresh leaf changes no index of the map and no other leaf |
| BlockMaps.SetInLeaf | kernel/src/ext2.c:345-352 | setting a pointer of a leaf changes the map at that index only |
| Files.MetaTrans | kernel/src/ext2.c:294-404 | steps that touch only one file's metadata compose: other files' blocks and records stay |
| FileData.GrownFile | kernel/src/ext2.c:551-567 | the stored record makes the file one zero block longer and every old block reads as before |
| FileData.LostBlock | kernel/src/ext2.c:551-567 | when the map could not take the block, the record counts a block it does not have |
| FileData.NoHole | kernel/src/ext2.c:551-567 | a consistent file never counts a block it does not have |
| FileData.ChargeIsMissing | kernel/src/ext2.c:551-567 | growing by one block takes the data block and exactly the indirect blocks missing on its path |
| FileData.NeedKept | kernel/src/ext2.c:603-606 | mapping one index leaves the cost of mapping the later ones unchanged |
| FileData.GrewOneExtends | kernel/src/ext2.c:603-606 | one pass of the growth loop adds one zero block, keeps all readable contents and uses exactly its charge of free blocks |
| FileData.NoRoomShort | kernel/src/ext2.c:603-606 | a file without room for its next block, however it grew, had no room for any longer length from the start |
| FileData.ReachedRoom | kernel/src/ext2.c:603-606 | a file that reached a length had the room for it from the start |
| FileData.PutDataWrote | kernel/src/ext2.c:610-614 | writing a mapped block changes that block of that file and nothing else that can be read |
| FileBytes.ReadLengthExact | kernel/src/ext2.c:1145-1154 | the length computed is as many of the bytes asked for as the file has from offset on if and only if the file is empty, or the read starts inside the file and does not wrap |
| FileBytes.CopiedMore | kernel/src/ext2.c:1163-1175 | copying one more piece of a block extends the bytes already copied by the next bytes of the file |
| FileBytes.WroteBlockBytes | kernel/src/ext2.c:1194-1222 | reading a block, splicing bytes in and writing it back writes exactly those bytes of the file |
| FileBytes.WroteBytesTrans | kernel/src/ext2.c:1201-1222 | consecutive pieces add up to one write of their concatenation |
| FileBytes.ResizedRecord | kernel/src/ext2.c:1183-1187 | storing a record with another size changes no byte of any file |
| FileSystem.OtherFileKept | kernel/src/ext2.c:1182-1226 | an operation on one file leaves every other file consistent and byte for byte the same |
| FileSystem.ByteOnDisk | kernel/src/ext2.c:578-592 | a byte of block i of a file is that byte of the block that the map has at i |
| FileSystem.ReadsBack | kernel/src/ext2.c:1182-1226 | the written range reads back exactly and every other range reads as before |
| FileSystem.ReadAfterWrite | kernel/src/ext2.c:1139-1226 | what read_ext2 copies from the written range is the written data |
| FileSystem.ContentsAfterWrite | kernel/src/ext2.c:1182-1226 | the contents become the old ones overwritten at the offset, when the write begins inside the file or only zeros lie behind its end, and then a gap holds zeros and only zeros lie behind the new end |
| FileSystem.StepRepresents | kernel/src/ext2.c:1228-1235 | one write takes every file's byte string to what the write makes of it |
| FileSystem.RunRepresents | kernel/src/ext2.c:1228-1235 | after any run of writes to any files every file holds exactly what the same writes make of its byte string |
| FreshVolume.FreshWellFormed | kernel/src/ext2.c:1509-1585 | a freshly formatted volume of any number of blocks meets everything the driver relies on |
| FreshVolume.EmptyFile | kernel/src/ext2.c:1109-1137 | on it every inode is a consistent, empty file |
| FreshVolume.FromFresh | kernel/src/ext2.c:1228-1235 | every run of writes from a fresh volume leaves in every file what the writes make of the empty string |
| FreshVolume.MountFresh | kernel/src/ext2.c:1509-1585 | mounting a fresh device, with a cache of any size, gives a driver that sees exactly that volume and its empty files |
| FreshRuns.MakeRoot | kernel/src/ext2.c:835-852 | on a fresh volume the size and the block that mkdir_ext2 writes make a tiled directory of "." and ".." with room for every name |
| FreshRuns.AddAndFind | kernel/src/ext2.c:622-740 | for every new name, create_entry on that directory reports E_NOSPACE and finddir_ext2 then finds the entry |
| FreshRuns.FreshSlack | kernel/src/ext2.c:603-606 | on a fresh volume each of the first twelve blocks of a file takes one free block and the thirteenth takes two |
| FreshRuns.AllocateHole | kernel/src/ext2.c:551-567 | with twelve blocks mapped and one block free, allocate_inode_block reports success and leaves a hole |
| FreshRuns.GrowWithoutRoom | kernel/src/ext2.c:603-606 | growing to thirteen blocks with thirteen free blocks ends with a hole, and with fewer never ends |
| FreshRuns.TakeEveryInode | kernel/src/ext2.c:742-779 | on a fresh volume allocate_inode hands out the numbers in order up to the last of the volume, which cannot be looked up |
| Directories.FindLiveFirst | kernel/src/ext2.c:1004-1032 | the entry found is the first live one with the name, and none is found only when there is none |
| Directories.LiveAtExact | kernel/src/ext2.c:952-986 | the index-th live entry has exactly index live ones before it, and there is none only when there are no more |
| Directories.CursorStep | kernel/src/ext2.c:1030-1031 | the walk passes one record at a time and what is left is the list without its head |
| Directories.AppendTiles | kernel/src/ext2.c:713-731 | appending keeps the records tiling the block, keeps every old record in order and adds the new one last |
| Directories.DirAppend | kernel/src/ext2.c:713-733 | writing that block back appends the entry to the list of the whole directory |
| Directories.FindAfterAppend | kernel/src/ext2.c:1004-1032 | names found before an append are found as before, and a new name is found once appended |
| Directories.FitsExact | kernel/src/ext2.c:663-701 | the test holds exactly when the last record can give away more than the rounded length of the new one |
| Ext2.Ext2Fs.constructor | kernel/src/ext2.c:1571-1585 | mounting loads the superblock and every descriptor block from the disk and changes nothing visible; a disk that holds a consistent volume is mounted as that volume |
| Mounting.GroupsCover | kernel/src/ext2.c:1546-1549 | the groups computed cover all blocks and none of them is empty |
| Mounting.SpanExact | kernel/src/ext2.c:1572 | the blocks computed for the descriptor table hold it if and only if their number fits into its 8 bits |
| Mounting.FormattedOk | kernel/src/ext2.c:1531-1580 | the geometry computed from the superblock is one the driver can work with if and only if the listed conditions on the formatter's fields hold; the rest comes out of the computation; what the geometry itself is, GeometryExact says |
| Mounting.GeometryExact | kernel/src/ext2.c:1531-1572 | a workable geometry is the one computed if and only if each field is what the bytes of the superblock say: the groups cover the blocks without an empty one, share out the inodes, and their descriptors fill the table up to its last block |
| Mounting.MountExt2 | kernel/src/ext2.c:1509-1585 | NULL exactly for a wrong magic number, and then nothing changes; otherwise a driver with the geometry that the bytes of the superblock say, the number of cache entries for its block size or none, that sees the device, and as the consistent volume that is on it |
| Mounting.DescribedKept | kernel/src/ext2.c:530-531 | the geometry in the superblock does not depend on the free counts, the only fields that the driver changes |
| Mounting.RunDescribed | kernel/src/ext2.c:1228-1235 | after any run of writes the superblock still describes the consistent volume |
| Mounting.Remount | kernel/src/ext2.c:267-284 | syncing and mounting again, with or without a cache, gives a driver that sees the same volume |
| Mounting.WriteAndRemount | kernel/src/ext2.c:1228-1235 | after a write, a sync and another mount the file holds the written bytes and every other file its own |
| Volumes.MirrorUnique | kernel/src/ext2.c:1571-1585 | the disk determines the descriptors and the superblock in memory |
| Volumes.DescriptorBytes | kernel/src/ext2.c:1583-1585 | the blocks from block 1 on, in order, are the descriptor table in memory |
| Ext2.Ext2Fs.LoadDescriptors | kernel/src/ext2.c:1571-1585 | every block of the descriptor table in memory equals its block on disk |
| Ext2.Ext2Fs.WriteDescriptors | kernel/src/ext2.c:526-528 | the descriptor table in memory is written to its blocks and nothing else |
| Ext2.Ext2Fs.Sync | kernel/src/ext2.c:267-284 | the device holds what the driver sees, which has not changed |
| Ext2.Ext2Fs.FindFreeBlock | kernel/src/ext2.c:502-512 | finds a block if and only if the superblock counts a free one, and it is the least free block |
| Ext2.Ext2Fs.CommitBit | kernel/src/ext2.c:522-531 | bitmap, descriptors and superblock are written back together |
| Ext2.Ext2Fs.AllocateBlock | kernel/src/ext2.c:496-540 | fails exactly when no block is free and then changes nothing; otherwise takes the least free block, zeroed and owned, keeps the volume consistent, and is a step of the allocator runs |
| Ext2.Ext2Fs.FindFreeInode | kernel/src/ext2.c:748-759 | finds an inode if and only if the superblock counts a free one, and it is the least free inode |
| Ext2.Ext2Fs.AllocateInode | kernel/src/ext2.c:742-779 | fails exactly when no inode is free; otherwise takes the least free one, keeps the volume consistent, and is a step of the allocator runs; the number can be looked up if and only if the group size does not divide it |
| Ext2.Ext2Fs.WriteInode | kernel/src/ext2.c:475-494 | stores the record in its slot; a number past the groups is refused |
| Ext2.Ext2Fs.RefreshInode | kernel/src/ext2.c:1109-1128 | returns the record stored in the slot; for a number past the groups the buffer is left alone |
| Ext2.Ext2Fs.ReadInode | kernel/src/ext2.c:1133-1137 | returns the record stored in the slot |
| Ext2.Ext2Fs.GetBlockNumber | kernel/src/ext2.c:413-446 | returns the block number that the bytes of the record and of the indirect blocks on the way lead to, and 0 past the mapped range |
| Ext2.Ext2Fs.EnsureRoot | kernel/src/ext2.c:308-313 | afterwards the indirect block is there and the map is unchanged, or there was no room and nothing changed |
| Ext2.Ext2Fs.EnsureLeaf | kernel/src/ext2.c:335-345 | afterwards the leaf is there and the map is unchanged, or there was no room and nothing changed |
| Ext2.Ext2Fs.SetInSingleBlock | kernel/src/ext2.c:306-321 | as SetBlockNumber, for the single-indirect range |
| Ext2.Ext2Fs.SetInDoubleBlock | kernel/src/ext2.c:322-352 | as SetBlockNumber, for the double-indirect range |
| Ext2.Ext2Fs.SetBlockNumber | kernel/src/ext2.c:294-404 | succeeds if and only if the missing indirect blocks can be allocated; then the bytes on the way lead to the block, and every other index of this file, and every other file, keeps its block; on failure the map is unchanged |
| Ext2.Ext2Fs.AllocateInodeBlock | kernel/src/ext2.c:551-567 | with room for the data block and the missing indirect blocks the file grows by one zero block and stays consistent; with less room than that, but some, success is reported, the record has a hole, no block is left free and every other file is unchanged; with none nothing changes; on success the field at byte 28 counts the blocks in units of 512 bytes |
| Ext2.Ext2Fs.GrowOnce | kernel/src/ext2.c:603-606 | one pass adds exactly one block, or leaves a hole, or changes nothing, by the room there is |
| Ext2.Ext2Fs.GrowTo | kernel/src/ext2.c:603-606 | if and only if there is room for the whole growth, the loop ends with every block up to the target mapped to zero blocks of the file's own and nothing readable changed; otherwise the file grows as far as there is room, and the next pass leaves a hole or changes nothing for ever |
| Ext2.Ext2Fs.InodeReadBlock | kernel/src/ext2.c:578-590 | returns the block of the file, zeros past its blocks |
| Ext2.Ext2Fs.InodeWriteBlock | kernel/src/ext2.c:595-615 | the block of the file reads as written, the file has grown as far as needed, nothing else readable changed |
| Ext2.Ext2Fs.CopyRange | kernel/src/ext2.c:1156-1176 | the buffer gets exactly the bytes of the range |
| Ext2.Ext2Fs.ReadExt2 | kernel/src/ext2.c:1139-1180 | returns the part of the contents from offset on, all that was asked for or up to the end of the file, whose length is the field at byte 4 of the record; the rest of the buffer and the volume stay as they were |
| Ext2.Ext2Fs.Resize | kernel/src/ext2.c:1183-1187 | the size becomes the larger of the old size and the end of the write, no byte changes |
| Ext2.Ext2Fs.WriteChunk | kernel/src/ext2.c:1202-1208 | one block's part of the range is written, every other byte kept |
| Ext2.Ext2Fs.WriteRange | kernel/src/ext2.c:1189-1223 | the loop over the blocks writes the whole range and keeps every other byte |
| Ext2.Ext2Fs.WriteInodeBuffer | kernel/src/ext2.c:1182-1226 | the range reads as the buffer, every other byte of this and every other file is kept, the size is the larger of the old size and offset plus length |
| Ext2.Ext2Fs.WriteExt2 | kernel/src/ext2.c:1228-1235 | the written range and the size are the new ones and every other byte stays; the contents are overwritten at the offset, with zeros in a gap if there were only zeros behind the end; every other file keeps its contents; the call is a step of the runs above |
| Ext2.Ext2Fs.WriteThenRead | kernel/src/ext2.c:1139-1235 | writing a range and reading it back, through the cache, the allocator and the block map, gives the data, and the rest of the reader's buffer is untouched |
| Ext2.Ext2Fs.NextDirBlock | kernel/src/ext2.c:1005-1009 | moving to the next block changes nothing about the records still to come |
| Ext2.Ext2Fs.PassRecord | kernel/src/ext2.c:970-981 | one record is passed and the rest of the list is what is left |
| Ext2.Ext2Fs.FindDir | kernel/src/ext2.c:991-1032 | returns the first live entry of that name in the directory's list, none only when no live entry has it |
| Ext2.Ext2Fs.DirEntry | kernel/src/ext2.c:952-986 | returns the live entry of the same list that has exactly index live ones before it, none only when there are no more |
| Ext2.Ext2Fs.FindSlack | kernel/src/ext2.c:657-699 | the walk ends at the last record of the directory |
| Ext2.Ext2Fs.AppendInPlace | kernel/src/ext2.c:713-733 | the list gets the new entry at its end, every other file is unchanged |
| Ext2.Ext2Fs.CreateEntry | kernel/src/ext2.c:622-740 | a record that fits is appended to the list, otherwise nothing changes; the status does not tell which; a parent that is no directory or a missing name is refused; every other file is unchanged |
| Rings.CountsAgree | kernel/src/ringbuffer.c:5-31 | unread counts the pending bytes and unread plus available is the size less one |
| Rings.PutAppends | kernel/src/ringbuffer.c:96-100 | with room, storing a byte appends it to the pending bytes |
| Rings.TakeRemoves | kernel/src/ringbuffer.c:73-77 | the byte read is the oldest pending one, and the rest stays |
| Rings.RingBuffer.constructor | kernel/src/ringbuffer.c:121-139 | a new buffer has no pending bytes |
| Rings.RingBuffer.UnreadBytes | kernel/src/pipe.c:14-23 | returns the number of pending bytes |
| Rings.RingBuffer.AvailableBytes | kernel/src/pipe.c:30-40 | returns the number of bytes that still fit |
| Rings.RingBuffer.TransferOut | kernel/src/ringbuffer.c:73-77 | takes the oldest bytes in order until the request or the buffer is exhausted |
| Rings.RingBuffer.TransferIn | kernel/src/ringbuffer.c:96-100 | appends the next bytes in order until the request is done or the buffer is full |
| RingProtocol.TakeFifo | kernel/src/ringbuffer.c:73-77 | a byte taken keeps delivered bytes followed by buffered bytes equal to accepted bytes |
| RingProtocol.PutFifo | kernel/src/ringbuffer.c:96-100 | so does a byte put |
| RingProtocol.StepFifo | kernel/src/pipe.c:76-178 | every step of every call of a ring buffer or a pipe keeps first-in-first-out; when calls return, RingReturns says |
| RingProtocol.AlwaysFifo | kernel/src/ringbuffer.c:69-119 | in every interleaving delivered bytes then buffered bytes are the accepted bytes in order, each write has contributed a prefix of its data, and unread plus available is the size less one; when calls return, RingReturns says |
| RingReturns.AlwaysHands | kernel/src/ringbuffer.c:69-119 | in every run a sleeping read has no byte, and a sleeping write has bytes left and does not discard |
| RingReturns.StepCutShort | kernel/src/ringbuffer.c:80-84 | a step makes at most the call that takes the stop request return incomplete |
| RingReturns.Returns | kernel/src/ringbuffer.c:69-119 | in every run no more calls return incomplete than there were interrupts; without one a finished read has bytes and a finished write is done or discards; a pipe never discards and has no interrupts |
| RingReturns.ReturnsAll | kernel/src/pipe.c:100-177 | in every run a call behind its transfer loop has all it wanted, or the buffer was empty for a read and full for a write when its last transfer loop ended |
| RingReturns.WakesOtherSide | kernel/src/ringbuffer.c:79-88 | a wake-up call, in the loop and behind it, wakes every sleeper of the other side and nobody else |
| RingReturns.InterruptStopsOne | kernel/src/ringbuffer.c:160-164 | an interrupt wakes every sleeper; of those that go on the first takes the request and leaves its loop, the others go round again |
| RingSleep.StepSleep | kernel/src/ringbuffer.c:69-164 | while passes run alone every step keeps the sleeping invariant |
| RingSleep.NeverBothAsleep | kernel/src/pipe.c:100-177 | in every run in which passes run alone, a reader and a writer never sleep at once, and a sleeper has nothing to do or is about to be woken; RingExact has the exact conditions |
| RingSleep.LostWakeup | kernel/src/ringbuffer.c:78-85 | a run of two interleaved passes, for a ring buffer or a pipe, that ends with both sides asleep and bytes unread, although no two calls are ever in their transfer loops |
| RingExact.NeverFacing | kernel/src/ringbuffer.c:69-164 | a run without a point at which a reader and a writer are both about to sleep never has both asleep |
| RingExact.MutualSleepExact | kernel/src/ringbuffer.c:69-119 | decisions alone take a run to where both sides sleep if and only if it has a point at which a reader and a writer are both about to sleep |
| RingExact.NeverForgotten | kernel/src/ringbuffer.c:69-164 | a run without a point at which a call is about to sleep over something to do never has such a sleeper |
| RingExact.ForgottenExact | kernel/src/ringbuffer.c:79-113 | decisions alone take a run to where a sleeper has something to do and nobody is about to wake it if and only if the run has a point at which such a call is about to sleep |
| RingExact.AtomicNotBoth | kernel/src/pipe.c:100-177 | while passes run alone, no two calls are about to sleep at once |
| LinkedLists.List.constructor | kernel/src/list.c:133-140 | a new list is the empty sequence |
| LinkedLists.List.Append | kernel/src/list.c:29-46 | the sequence gets the node at its end, with all links, head, tail, length and owner consistent |
| LinkedLists.List.Insert | kernel/src/list.c:48-59 | a new node with the value is appended |
| LinkedLists.List.AppendAfter | kernel/src/list.c:61-85 | the node is put right behind the given one, or first |
| LinkedLists.List.AppendBefore | kernel/src/list.c:97-121 | the node is put right before the given one, or last |
| LinkedLists.List.Find | kernel/src/list.c:142-149 | returns the first node with the value, null only when there is none |
| LinkedLists.List.Remove | kernel/src/list.c:162-172 | the node at the index is removed, an index past the end is ignored |
| LinkedLists.List.Delete | kernel/src/list.c:174-193 | exactly that node is removed and unlinked |
| LinkedLists.List.Pop | kernel/src/list.c:195-204 | the last node is removed and returned, null for an empty list |
| LinkedLists.List.Dequeue | kernel/src/list.c:206-211 | the first node is removed and returned, null for an empty list |
| LinkedLists.List.Adopt | kernel/src/list.c:225-227 | every node of the chain has the new owner and its old links |
| LinkedLists.List.Merge | kernel/src/list.c:223-241 | the sequence becomes the concatenation, all links and owners consistent |
| HashMaps.HashMap.constructor | kernel/src/hashmap.c:42-56 | a new map is empty |
| HashMaps.Bucket.Set | kernel/src/hashmap.c:74-105 | one chain keeps each key once and stands for the updated map |
| HashMaps.Bucket.Remove | kernel/src/hashmap.c:124-154 | one chain without the key stands for the map without it |
| HashMaps.HashMap.Set | kernel/src/hashmap.c:74-105 | the chains stand for the updated map; returns the previous value |
| HashMaps.HashMap.Get | kernel/src/hashmap.c:107-122 | returns the value of the key in the map, none when it is absent |
| HashMaps.HashMap.Remove | kernel/src/hashmap.c:124-154 | the chains stand for the map without the key; returns the previous value |
| HashMaps.HashMap.Has | kernel/src/hashmap.c:156-172 | true exactly for the keys of the map |
| HashMaps.HashMap.ListKeys | kernel/src/hashmap.c:174-186 | lists every key of the map exactly once |
| HashMaps.HashMap.ListValues | kernel/src/hashmap.c:188-200 | lists the value of every key exactly once |
| StringSearch.ZeroIsSeen | kernel/src/kutils.c:349-357 | a word with a zero byte always fails the magic-bits test |
| StringSearch.NoFalseSkip | kernel/src/kutils.c:349-360 | a word that passes both tests holds neither a zero byte nor the character |
| StringSearch.FalseAlarm | kernel/src/kutils.c:349-372 | a word fails the magic-bits test if and only if some byte is zero or the top byte is 0x80 |
| StringSearch.SearchWord | kernel/src/kutils.c:349-384 | finds the first hit in the word, or goes on exactly when there is none |
| StringSearch.StrChrNul | kernel/src/kutils.c:281-388 | for every string, alignment and character returns the place a byte-by-byte scan finds |
| Tokens.StrSpn | kernel/src/kutils.c:263-279 | the length of the longest prefix of delimiters |
| Tokens.StrCspn | kernel/src/kutils.c:421-431 | the length of the longest prefix without delimiters |
| Tokens.StrPbrk | kernel/src/kutils.c:433-436 | the first delimiter of the string, none when there is none |
| Tokens.StrTokR | kernel/src/kutils.c:441-463 | token, save pointer and memory are those of one step of the splitting |
| Tokens.TokStep | kernel/src/kutils.c:441-463 | one step hands out the first run between delimiters as a string of its own and leaves the other runs behind the save pointer |
| Tokens.RunsAreWords | kernel/src/kutils.c:441-463 | the runs found by skipping are the maximal runs of non-delimiters, read one character at a time |
| Tokens.WordsFound | kernel/src/kutils.c:441-463 | words set apart by delimiters are found again, whatever the gaps |
| Tokens.Tokenize | kernel/src/ext2.c:49-62 | in the rewritten buffer the strings at the returned places are the runs of the original string, in order |
| MemoryCopy.CopyWord | kernel/src/kutils.c:31-33 | one word is copied at once |
| MemoryCopy.MemCpy | kernel/src/kutils.c:22-38 | for disjoint ranges, or a destination not above the source, the destination is the original source and the rest is unchanged |
| MemoryCopy.WordUp | kernel/src/kutils.c:485-487 | a word copied upward never reads what was already overwritten |
| MemoryCopy.WordDown | kernel/src/kutils.c:500-503 | a word copied downward never reads what was already overwritten |
| MemoryCopy.MoveUp | kernel/src/kutils.c:477-491 | the upward path copies the whole range for every alignment |
| MemoryCopy.MoveDown | kernel/src/kutils.c:492-509 | the downward path copies the whole range for every alignment |
| MemoryCopy.MemMove | kernel/src/kutils.c:465-512 | for every overlap, alignment and length the destination is the original source and the rest is unchanged |
| Args.StrDup | kernel/src/kutils.c:437-440 | a fresh buffer that holds the same string |
| Args.SplitExact | kernel/src/args.c:60-75 | a word has the name k and the value x if and only if it is k alone and x is NULL, or it is k=x, for a k without '=' |
| Args.SplitWord | kernel/src/args.c:57-75 | the word is the name alone, with NULL, or the name, which holds no '=', then '=', then the value, which may be empty |
| Args.TableMeans | kernel/src/args.c:42-82 | a name is present exactly when some word is it or begins with it and '=', and the last such word is the name alone for NULL, or else name=value |
| Args.EnterInOrder | kernel/src/args.c:42-82 | parsing one line after another is parsing all their words in order |
| Args.AfterAnyParses | kernel/src/args.c:22-82 | after any series of lines a name is present exactly when some word of some line is it or begins with it and '=', and the last such word is the name alone for NULL, or else name=value |
| Args.KernelArgs.Parse | kernel/src/args.c:42-82 | the table becomes that of the lines so far with this line behind them; a NULL line changes nothing |
| Args.KernelArgs.Split | kernel/src/args.c:46-48 | the words are the maximal runs of non-space characters |
| Args.KernelArgs.Present | kernel/src/args.c:22-26 | true exactly when some word of all lines so far has the name |
| Args.KernelArgs.ValueFor | kernel/src/args.c:31-35 | the value that the last word with the name gives it, the empty string for name=, NULL when the name is absent or stands alone |
| Calendar.YearClosed | kernel/src/localtime.c:12-14 | from 1970 to 2100 the days before a year are 365 per year and one per fourth year |
| Calendar.FindHour | kernel/src/localtime.c:91-107 | hour, minute and second add up to the time since midnight, up to and including the next midnight |
| Calendar.FindDay | kernel/src/localtime.c:85-113 | the day of the month is found up to and including the first instant of the next month |
| Calendar.FindMonth | kernel/src/localtime.c:78-119 | a month is found if and only if the time is not after the first instant of December |
| Calendar.WholeHours | kernel/src/localtime.c:94-99 | minute 60 appears exactly on whole hours after the start of the year; the day of the year agrees with month and day except at midnights |
| Calendar.EndFits | kernel/src/localtime.c:68-74 | before 2038 no sum leaves a signed 32-bit long |
| Calendar.Truncates | kernel/src/localtime.c:60-127 | the division of the fields cuts off towards zero and the remainder has the sign of the dividend |
| Calendar.LocalTime | kernel/src/localtime.c:60-127 | the year is that of the time; a result is returned if and only if the time is not after the first instant of December; then the fields are in range and stand for exactly the time; a time before 1970 is minutes and seconds that are not positive, at the start of 1970 |
| Calendar.SecsOfYears | kernel/src/cmos.c:86-103 | the seconds from 1970 to the end of the given year, modulo 2^32 |
| Calendar.SecsOfMonth | kernel/src/cmos.c:105-139 | the seconds of the months up to the given one, 0 outside 1 to 11 |
| Calendar.DateSum | kernel/src/cmos.c:167-174 | the count that the fields stand for, modulo 2^32 |
| Calendar.RoundTrip | kernel/src/cmos.c:167-174 | the date sum of the fields that localtime_r returns is the time it was given, and it returns some exactly up to the first instant of December |

## Modelling decisions

* Integers are unbounded; 16- and 32-bit fields, the length of a read, the hash and the date sums wrap
  as in the source. The cache clock does not wrap, so the sentinel 2^32-1 for "no victim yet" is the
  first entry instead.
* A buffer that a C function fills is passed in and returned. So an inode record that the caller and
  the callee share is one value that goes in and comes out, and `malloc` is a buffer of the right
  length about whose contents nothing is known.
* The device is an array of blocks and cannot fail. `Geometry.Ok` is what the geometry of a volume
  must satisfy: a block size above 1024 and below 65536 that is a
  multiple of 1024, an inode size that divides it, bitmaps of one block each, a volume below 4 GiB.
* Wait queues are the sets of sleeping calls; a wake-up reaches every sleeper of its queue.
* The byte set of `strspn` and `strcspn` is a set of bytes; addresses matter only by their alignment.
* The hash function is a parameter of the map, so every result about the map holds for all of them.

## Left out

- Volumes of 1024-byte blocks: on such a volume the first bit of a bitmap stands for block 1 (the first data block of the ext2 format), while `allocate_block` counts from block 0 (kernel/src/ext2.c:508), so the driver does not carry the property there; `Geometry.Ok` has the larger block sizes.
- Ext2.Ext2Fs.GetBlockNumber: does not cover an index whose indirect block is missing, where the source reads block 0 and returns whatever its buffer held, and does not cover the branch past double indirection.
- Ext2.Ext2Fs.SetBlockNumber: does not cover the branch past double indirection (kernel/src/ext2.c:353-397), which stores the number of the indirect block in itself instead of the data block.
- Ext2.Ext2Fs.AllocateInodeBlock: requires the next block of a consistent file when a block is free, as the growth loop asks for.
- Ext2.Ext2Fs.InodeWriteBlock: requires room for the growth; `GrowTo` says what the loop does without it, after which the source writes to whatever an unmapped index leads to, or never returns.
- Ext2.Ext2Fs.WriteChunk: requires the same room.
- Ext2.Ext2Fs.WriteRange: requires the same room.
- Ext2.Ext2Fs.WriteInodeBuffer: requires the same room.
- Ext2.Ext2Fs.WriteExt2: requires the same room.
- Ext2.Ext2Fs.WriteThenRead: requires the same room.
- Mounting.WriteAndRemount: requires the same room.
- Mounting.MountExt2: requires that a superblock with the right magic number has the fields of `Formatted` and describes the device it is on, and stops before the root node is built.
- Ext2.Ext2Fs.ReadExt2: requires the range of `ReadInRange`, outside which `ReadLengthExact` shows the length to be wrong.
- Ext2.Ext2Fs.WriteInode: requires a number that the group size does not divide and whose group exists, or one whose group number exceeds the number of groups; `AddressedInTable` shows where the multiples go.
- Ext2.Ext2Fs.RefreshInode: requires the same of the number.
- Ext2.Ext2Fs.ReadInode: requires a number that is looked up in its table.
- Ext2.Ext2Fs.CreateEntry: requires that the last record has slack, that the directory has at most 256 blocks and that the name is shorter than 256 bytes; without slack the source takes its replace path when some record is dead and otherwise stores the record behind the end of its buffer; its block counter has 8 bits and so has the stored length of a name.
- Ext2.Ext2Fs.FindSlack: requires the slack it looks for.
- Ext2.Ext2Fs.FindDir: requires tiled blocks, at most 256 of them, for the same counter, and stops at the record, before the node for it is built.
- Ext2.Ext2Fs.DirEntry: requires the same of the directory.
- Args.KernelArgs.Parse: requires fewer than 1024 words, the size of the array of the source.
- HashMaps.Bucket.Remove: does not cover an absent key in a chain of one entry.
- HashMaps.HashMap.Remove: does not cover an absent key whose bucket has exactly one entry, for which the source dereferences NULL.
- LinkedLists.List.Remove: does not cover an index equal to the length, for which the walk of the source runs off the chain.
- LinkedLists.List.AppendAfter: the assertion that the node belongs to no list is a precondition on its links.
- MemoryCopy.MemCpy: does not say what happens for a destination inside and above the source, where the C standard promises nothing and `memmove` never calls it.
- Calendar.LocalTime: does not cover times from 2038 on, where a signed 32-bit long overflows.
- `unlink`, `mkdir`, `create`, `symlink`, `chmod` and truncation of files: field assignments over the modelled pieces, or code that uses what it has freed.
- `close_pipe`, dead pipes, alert waiters and select: bookkeeping beside the byte stream.
- `list_copy`, which never advances, `mktime`, `bitset.c` and `kprintf.c`.
- The VFS, the scheduler, paging, the heap, drivers, the register polling of `read_cmos` and all user programs.
