# AstralOS kernel model

A Dafny model of the stateful core of AstralOS, with proofs of what it keeps over whole
runs: the on-disk file system, the heap allocator, the round-robin scheduler and its
spinlock, task creation, the virtual-memory region map, the string formatter and the
virtual file system tree.

`dafny verify dfyconfig.toml` checks the project.

## How it is built

**File system.** `FsLayout` gives the on-disk records byte by byte (88-byte inodes, 46 to
a 4096-byte block; 36-byte directory entries, 113 to a block; the superblock; bitmaps).
`FsSpec` gives every operation as a function on a value-level state: inode records, two
bit vectors and data blocks. `FsDisk` is the code: a class over an array of blocks with
the superblock and bitmaps in memory, whose methods read, patch and write back blocks;
each method is proved to compute the value-level function of the state that `FsView`
reads off the device. On the value level, `FsTree` and `FsInv` prove the invariant
(`FsSpec.Inv`) step by step: the block bitmap is exactly the reserved prefix plus one bit
per block held by a live inode, no block is held twice, directory sizes count entries, and
the name space is a forest of uniquely named live inodes. `FsNames`, `FsBytes`, `FsRun`
and `FsRefine` lift this to the operations and to every run: the block-level file system
refines a simple one that keeps three finite maps (inode kinds, names, written bytes) and
determines every return value; only the outcome of running out of space is left to the
disk. `FsCases` and `FsStale` have runs from a formatted disk on which the code disappoints
its caller. `FsExec` carries the theorems about runs to the code, across a remount, and
`FsHeap` puts the file system on the heap: it determines which of a call's inode copies
find memory and shows that every call leaves the live allocations as they were.

On the value level the success of those copies is a Boolean parameter (`mem`, `lookupMem`,
`targetMem`), as is the outcome of the first block read of `fs_init` (`readOk`). Callers
owe what the code does not check itself: an inode id that is in range is live (the code
never consults the bitmap), and a new inode's type is FILE or DIR. Out-of-range ids are
refused by the code and by the model. `reserved` is `data_start_block`; bit i of a bitmap
stands for inode or block i + 1, so the device has blocks 0..total_blocks.

Some properties one might expect of the code fail. For each the model has the exact
condition and an input:

- `fs_create` can return an inode that no lookup finds: exactly when the directory has no
  spare entry and the disk no free block (`CreatedIsFoundIff`; `FullDiskOrphan` fills a
  formatted disk).
- `fs_create` can enter a name twice: exactly when its own lookup could not allocate
  memory and the name was there (`CreateUniqueIff`, `DuplicateWhenStarved`; on a heap,
  `StarvedByTheHeap`).
- A write stores its bytes at their offsets exactly when the offset is below 2^44. The
  block number is truncated to 32 bits, so a write at any offset lands at its place, the
  offset modulo 2^44 (`Place`; `WriteStores`, `WriteLands`), and may replace bytes written
  there (`OverwrittenFromAfar`, `LostByte`). The simple file system has this rule built in,
  so the theorems about runs hold for writes at every offset.
- `fs_read` stores more than `count` bytes exactly when the offset is beyond the end of the
  file, `offset + count` does not wrap and the file's blocks go on that far
  (`ReadOverrunsIff`, `ReadOverruns`).
- `fs_read` delivers bytes behind the end of the file exactly when the offset is beyond the
  end or `offset + count` wraps, and the file's blocks go on behind its end
  (`ReadPastEndIff`; `ReadOverruns` for the first, `ReadRunsOn` for the second).
- Bytes of a file that were never written are not cleared: they are exactly what the last
  owner of the block left there (`StaleBytes`, `InheritedBytes`).

The layout formulas of `fs_init` have a limit that its own numbers do not reach: the inode
table is sized by bytes but packed by records, so for some numbers of inodes it is too
short. The condition is `TableInsideIff`; the 128 inodes of `fs_init` meet it.

**Heap.** `Heap` is the block list with first fit, splitting and the one-pass coalescing
walk; `HeapMem` is the allocator over raw bytes that walks the header chain. The walk never
rechecks a block it has just merged, so adjacent free blocks can remain; the key fact is
that it at least halves their number (`CoalesceHalves`), and a free adds at most two. It
leaves none exactly when it met no three free blocks in a row (`CoalescesFullyIff`). A
request above 2^64 - 8 rounds to 0, so it succeeds whenever a block is free, with a payload
that is shorter than asked for (`MallocGood`, `EmptyPayload`).

**Scheduler.** `Sched` has the table operations, the class with the code and bounded
waiting. `SpinLock` runs any number of cores, one instruction at a time, and shows that
every interleaving amounts to completed critical sections one after the other, and that a
lock taken is given back within five instructions of its holder. `Tasks` puts task creation
on top of the heap; it leaks exactly when the table is full (`LeaksIff`, `NinthTaskLeaks`).

**Others.** `VmMap` (regions; an allocation is recorded exactly when nothing overlaps its
slot's range, `AllocateRecordedIff`, `UnrecordedAllocation`; new flags reach a region exactly
when no empty one in an earlier slot hides it, `ProtectReachesIff`, `HiddenByEmpty`), `Format` and `CLib` (itoa, vsnprintf, string helpers),
`Vfs` (linked tree nodes).

## Model

| member | source | states |
|---|---|---|
| `FsLayout.InodeRoundTrip` | kern/fs/fs.h:19-31 | loading the 88 stored bytes of an inode record gives the record back |
| `FsLayout.SuperblockRoundTrip` | kern/fs/fs.h:40-52 | the same for the superblock |
| `FsLayout.EntryRoundTrip` | kern/fs/fs.h:34-37 | the same for a directory entry |
| `FsLayout.InodeBytes` | kern/fs/fs.h:19-31 | which bytes of a stored record are which field, little-endian |
| `FsLayout.SuperblockBytes` | kern/fs/fs.h:40-52 | the same for the eleven words of the superblock |
| `FsLayout.EntryBytes` | kern/fs/fs.h:34-37 | the inode number in bytes 0 to 3 of an entry, the name field from byte 4 on |
| `FsLayout.PlacedBytes` | kern/fs/fs.c:24-52 | record n of a table block starts at byte 88 * n, entry n of a directory block at byte 36 * n |
| `FsLayout.InodeInPut` | kern/fs/fs.c:43-52 | patching one packed record of a table block returns it there and keeps the other 45 |
| `FsLayout.EntryInPut` | kern/fs/fs.c:205-208 | the same for the 113 entries of a directory block |
| `FsLayout.RawOfName` | kern/fs/fs.c:189-192 | the copied name field reads back as the name and is terminated |
| `Bytes.BitsPutBit` | kern/fs/fs.c:57-93 | setting or clearing a bit in the byte array changes that bit of the vector and no other |
| `Bytes.BitOfMeans` | kern/fs/fs.c:57-61 | bit k of a byte is the one of weight 2^k |
| `FsView.InodeOnWrite` | kern/fs/fs.c:21-55 | write_inode then get_inode returns the written record, every other id's record is unchanged |
| `FsView.WhereThingsAre` | kern/fs/fs.c:24-26 | the record of an id is at byte (id - 1) % 46 * 88 of block table_start + (id - 1) / 46; bit n of a bitmap is bit n % 8 of its byte n / 8 |
| `FsView.TableInsideIff` | kern/fs/fs.c:104-111 | over the layout formulas of fs_init for every number of inodes: all ids 1..total_inodes lie inside the computed table exactly when 48 * ((n - 1) / 46) < 88 * ((n - 1) % 46 + 1) |
| `FsView.TableSizes` | kern/fs/fs.c:98-111 | the 128 inodes of the formatted layout are inside; with 93 the last would be in the data |
| `FsView.ViewWriteInode` | kern/fs/fs.c:40-55 | the block-level record write is the record update of the state and touches no data block |
| `FsView.ViewPutBlock` | kern/fs/fs.c:17-19 | a data-block write changes that block only, no inode record and no bitmap |
| `FsTree.FindAfterLink` | kern/fs/fs.c:205-214 | filling a free slot with an absent name is a map insertion |
| `FsTree.FindAfterUnlink` | kern/fs/fs.c:239-249 | clearing the first match of a name is a map removal when names are unique |
| `FsTree.LinkForest` | kern/fs/fs.c:189-217 | naming a fresh inode keeps the name space a forest |
| `FsTree.UnlinkForest` | kern/fs/fs.c:236-252 | clearing an entry keeps the forest and leaves its target unnamed |
| `FsTree.DropForest` | kern/fs/fs.c:258-268 | dropping an unnamed inode keeps the forest, its children staying live |
| `FsTree.NoCycle` | kern/fs/fs.c:160-271 | no walk from directory to entry comes back to its start |
| `FsTree.DirectoryHasFreeSlot` | kern/fs/fs.c:196-217 | pigeonhole: with no more inodes than 1130 slots no directory is full |
| `FsInv.AddInodeInv` | kern/fs/fs.c:174-187 | allocating and recording an inode keeps the whole invariant |
| `FsInv.AttachInv` | kern/fs/fs.c:197-200 | taking a block for an inode keeps the whole invariant |
| `FsInv.FillSlotInv` | kern/fs/fs.c:207-213 | writing an entry and adjusting the size keeps the whole invariant |
| `FsInv.FillSlotSlots` | kern/fs/fs.c:207-211 | writing entry k changes slot k of that directory and no slot of any other |
| `FsInv.ReclaimInv` | kern/fs/fs.c:261-267 | freeing an unnamed inode with its blocks keeps the whole invariant |
| `FsInv.FreeBlockIsUnheld` | kern/fs/fs.c:76-86 | a block handed out is a data block that nobody holds |
| `FsInv.SpaceConserved` | kern/fs/fs.c:76-93 | the number of set bits is the reserved prefix plus the number of block holdings of live inodes |
| `FsInv.PutBlockInv` | kern/fs/fs.c:389-390 | patching a block of a file keeps the invariant and the name space |
| `FsInv.FormattedInv` | kern/fs/fs.c:98-144 | the formatted disk satisfies the invariant |
| `FsNames.CreateInv` | kern/fs/fs.c:160-221 | create keeps the invariant, whatever the allocator answers |
| `FsNames.CreateInserts` | kern/fs/fs.c:160-221 | creating an absent name inserts it (if there is room) and every other lookup answers as before |
| `FsNames.CreateUniqueIff` | kern/fs/fs.c:169-172 | names stay unique across a create exactly when its lookup was not starved of memory |
| `FsNames.DuplicateWhenStarved` | kern/fs/fs.c:169-172 | a run on which a starved lookup does produce a duplicate |
| `FsNames.NeverFull` | kern/fs/fs.c:196-217 | no live directory runs out of entry slots |
| `FsNames.RoomIff` | kern/fs/fs.c:196-204 | a directory can take an entry exactly when a block has an empty one or the disk has a block |
| `FsNames.CreatedIsFoundIff` | kern/fs/fs.c:174-220 | the created name is found afterwards exactly when there was a spare entry or a free block |
| `FsNames.DeleteInv` | kern/fs/fs.c:223-271 | delete keeps the invariant and the uniqueness of names |
| `FsNames.DeleteRemoves` | kern/fs/fs.c:223-271 | delete succeeds exactly when the name is there; the name and its inode are gone, all else answers as before |
| `FsNames.DeleteFreesBlocks` | kern/fs/fs.c:261-265 | a successful delete frees exactly the blocks of its target, all of which were taken, and the number of set bits falls by their number |
| `FsBytes.WriteLoopInv` | kern/fs/fs.c:360-392 | the write loop keeps the invariant, the name space and all other inodes, for every offset |
| `FsBytes.WriteLoopPlace` | kern/fs/fs.c:360-363 | at every 64-bit offset the write loop does what it does at the offset modulo 2^44 |
| `FsBytes.ReadLoopPlace` | kern/fs/fs.c:317-320 | the same for the read loop |
| `FsBytes.WriteLands` | kern/fs/fs.c:350-401 | at every offset: the reported bytes are in the file at the place of the offset, all others are kept, the size grows to the end, a short count means blocks ran out |
| `FsBytes.WriteStores` | kern/fs/fs.c:350-401 | a write that reports bytes has stored them at their offsets exactly when the offset is below 2^44 |
| `FsBytes.OverwrittenFromAfar` | kern/fs/fs.c:361-390 | a byte written and read back at x is replaced by a write any multiple of 2^44 beyond it |
| `FsBytes.WriteInv` | kern/fs/fs.c:350-401 | a write keeps the invariant, the name space and every byte of every other inode |
| `FsBytes.ReadLands` | kern/fs/fs.c:300-348 | at every offset: a read returns the bytes from the place of the offset up to the clamped count or the first missing block |
| `FsBytes.ReadRefusedIff` | kern/fs/fs.c:301-305 | a read is refused exactly without memory or for what is no regular file |
| `FsBytes.ReadOverrunsIff` | kern/fs/fs.c:306-308 | more than count bytes arrive exactly when the offset is beyond the end, the sum does not wrap and the blocks go on |
| `FsBytes.ReadPastEndIff` | kern/fs/fs.c:306-308 | at every offset, bytes behind the end of the file arrive exactly when the offset is beyond the end or offset + count wraps, and the blocks go on |
| `FsBytes.ReadAfterWrite` | kern/fs/fs.c:300-401 | at every offset, reading back the bytes a write reported returns exactly those bytes |
| `FsRun.ReachableInv` | kern/fs/fs.c:160-401 | every legal run of create, delete and write keeps the invariant |
| `FsRun.FormattedRunInv` | kern/fs/fs.c:95-401 | so it holds in every state reachable from a formatted disk |
| `FsRun.RunNeverFull` | kern/fs/fs.c:196-217 | over every run no directory is full |
| `FsRun.RunSpaceConserved` | kern/fs/fs.c:160-401 | over every run the set bits number the reserved prefix plus the blocks held by live inodes |
| `FsRun.CreatedIsEmpty` | kern/fs/fs.c:180-187 | every field of a created record: its id, the type asked for, permissions 0644, all else zero; no other inode's attributes change |
| `FsRun.FormattedRoot` | kern/fs/fs.c:131-140 | every field of the formatted root: id 1, a directory with permissions 0755, all else zero; nothing else is live and only the reserved prefix is taken |
| `FsRun.RunAttributes` | kern/fs/fs.c:160-401 | over every run an inode keeps its id, type, permissions, owner and times for as long as it lives |
| `FsRun.CreateFiles` | kern/fs/fs.c:160-221 | create leaves every byte and attribute of every file alone |
| `FsRun.DeleteFiles` | kern/fs/fs.c:223-271 | delete leaves every file but its target alone |
| `FsRefine.CreateRefines` | kern/fs/fs.c:160-221 | create is the simple file system's insertion and returns its answer: accepted or not, and the least unused id; room exactly with a spare entry or a free block |
| `FsRefine.DeleteRefines` | kern/fs/fs.c:223-271 | delete is the simple file system's removal and returns its answer |
| `FsRefine.WriteRefines` | kern/fs/fs.c:350-401 | write at any offset is the simple file system's byte-map update and returns its answer, short only for want of a block |
| `FsRefine.StepRefines` | kern/fs/fs.c:160-401 | every call changes the disk as it changes the simple file system and returns what that returns |
| `FsRefine.RunRefines` | kern/fs/fs.c:160-401 | over every run the disk represents the simple file system, and all return values agree |
| `FsRefine.RunAnswers` | kern/fs/fs.c:273-348 | from a formatted disk, after any run, lookups answer as the name map, reads agree with every written byte and deliver at least the written prefix of their range |
| `FsCases.FullDiskOrphan` | kern/fs/fs.c:196-220 | a run from a formatted disk that uses up every block, after which create returns a live inode that lookup does not find |
| `FsCases.FillFile` | kern/fs/fs.c:360-392 | ten blocks written into an empty file take ten blocks, or all that are left |
| `FsCases.LostByte` | kern/fs/fs.c:361-363 | a run from a formatted disk on which a byte read back at x is lost to a write at 2^44 + x |
| `FsCases.ReadOverruns` | kern/fs/fs.c:306-308 | a run after which reading one byte at 100 of a ten-byte file stores 3996 bytes |
| `FsCases.ReadRunsOn` | kern/fs/fs.c:306-308 | a run after which a read at 5 with count 2^64 - 1 of a ten-byte file delivers 4091 bytes |
| `FsStale.StaleBytes` | kern/fs/fs.c:366-390 | the bytes of a newly taken block that a write does not cover are those the disk held there |
| `FsStale.InheritedBytes` | kern/fs/fs.c:366-390 | a run: write a file, delete it, create another and write its byte 4095; reading it returns the bytes of the first |
| `FsHeap.CallNeutral` | kern/fs/fs.c:160-401 | no create, delete or write changes the set of live heap allocations, whichever of its copies find memory |
| `FsHeap.CopyAroundNeutral` | kern/fs/fs.c:32-38 | the same for the one copy of a lookup or a read |
| `FsHeap.FlagsIff` | kern/fs/fs.c:32-38 | a copy finds memory exactly when a block of 88 bytes is free at that moment |
| `FsHeap.PerformAllInv` | kern/fs/fs.c:160-401 | over every run of file system calls and other allocations on one heap both invariants hold |
| `FsHeap.StarvedByTheHeap` | kern/fs/fs.c:163-172 | a run on a 224-byte heap in which the second create's lookup finds no memory and the name is entered twice |
| `FsExec.Execute` | kern/fs/fs.c:160-401 | the code executing a run leaves the state and the return values of that run |
| `FsExec.WhereContentsAre` | kern/fs/fs.c:317-341 | byte o of a file is byte o % 4096 of the device block named by direct block o / 4096; slot k of a directory is entry k % 113 of direct block k / 113 |
| `FsExec.ServeAfterRemount` | kern/fs/fs.c:145-157 | after a run from a formatted disk and a remount, the code's lookups and its reads at every offset answer as the simple file system |
| `FsDisk.FileSystem.Init` | kern/fs/fs.c:95-158 | format leaves the formatted state, mount the state that the disk alone determines |
| `FsDisk.FileSystem.Format` | kern/fs/fs.c:98-144 | the bytes written by the format branch are the formatted state with 128 inodes and 1024 blocks; the counters say 127 and 1011 |
| `FsDisk.FileSystem.Load` | kern/fs/fs.c:145-157 | the mount branch accepts exactly a disk with the magic number |
| `FsDisk.FormatSuperblock` | kern/fs/fs.c:98-114 | the computed layout is blocks 1, 2, 3-5 and data from 6 |
| `FsDisk.Remount` | kern/fs/fs.c:145-157 | mounting again after any operation gives the same state, so all answers stay |
| `FsDisk.FileSystem.GetInode` | kern/fs/fs.c:21-38 | returns the record of an id in range, nothing otherwise or without memory |
| `FsDisk.FileSystem.WriteInode` | kern/fs/fs.c:40-55 | updates one record of the state and refuses ids out of range |
| `FsDisk.FileSystem.AllocateInode` | kern/fs/fs.c:57-67 | takes the first clear bit, writes the bitmap through and counts it, or reports none |
| `FsDisk.FileSystem.FreeInode` | kern/fs/fs.c:69-74 | clears the bit, writes the bitmap through and counts it |
| `FsDisk.FileSystem.AllocateBlock` | kern/fs/fs.c:76-86 | takes the first clear bit, writes the bitmap through and counts it, or reports none |
| `FsDisk.FileSystem.FreeBlock` | kern/fs/fs.c:88-93 | clears the bit, writes the bitmap through and counts it |
| `FsDisk.FileSystem.WriteDataBlock` | kern/fs/fs.c:17-19 | called for data blocks only; every other block of the device keeps its bytes |
| `FsDisk.FileSystem.Lookup` | kern/fs/fs.c:273-298 | the block scan finds the first slot that shows the name |
| `FsDisk.FileSystem.FindEntry` | kern/fs/fs.c:283-294 | the nested scan shared by lookup and delete |
| `FsDisk.FileSystem.Create` | kern/fs/fs.c:160-221 | the code computes the value-level create |
| `FsDisk.FileSystem.AddNamed` | kern/fs/fs.c:174-220 | after its checks, create takes the first free inode and enters it when there is room, or changes nothing |
| `FsDisk.FileSystem.LinkEntry` | kern/fs/fs.c:194-217 | the nested loop puts the entry into the first free slot, taking a zeroed block if needed |
| `FsDisk.FileSystem.Delete` | kern/fs/fs.c:223-271 | the code computes the value-level delete |
| `FsDisk.FileSystem.ReclaimInode` | kern/fs/fs.c:261-267 | the freeing loop releases exactly the inode's blocks and the inode |
| `FsDisk.FileSystem.Read` | kern/fs/fs.c:300-348 | the code fills the caller's buffer with the value-level result, for every offset and count, and leaves the rest of it alone |
| `FsDisk.FileSystem.ReadInto` | kern/fs/fs.c:314-344 | the copy loop |
| `FsDisk.FileSystem.Write` | kern/fs/fs.c:350-401 | the code computes the value-level write |
| `FsDisk.FileSystem.WriteChunk` | kern/fs/fs.c:365-391 | one turn of the write loop |
| `Heap.CoalesceHalves` | kern/memory/kmalloc.c:53-60 | one coalescing pass at least halves the number of adjacent free pairs |
| `Heap.CoalescesFullyIff` | kern/memory/kmalloc.c:53-60 | the pass leaves no adjacent free pair exactly when no three free blocks were in a row |
| `Heap.FreeCoalescesIff` | kern/memory/kmalloc.c:47-61 | a free leaves the heap fully coalesced exactly when it makes no three free blocks in a row; on a coalesced heap, exactly when the neighbours are not both free |
| `Heap.CoalesceKeeps` | kern/memory/kmalloc.c:53-60 | the pass keeps the total size and every payload in use |
| `Heap.MallocFailsIff` | kern/memory/kmalloc.c:23-45 | kmalloc fails exactly for size 0 or when no free block is as large as the rounded size, and then changes nothing |
| `Heap.MallocGood` | kern/memory/kmalloc.c:23-45 | success adds exactly one payload, at most 31 bytes over what is granted and as long as asked exactly for requests up to 2^64 - 8, and keeps tiling, alignment and the pair bound |
| `Heap.MallocSplitsIff` | kern/memory/kmalloc.c:31-41 | the found block is split exactly when more than a header would be left over: the payload is then the rounded size and the rest a free block that is not empty; otherwise the whole block is handed out |
| `Heap.FreshNoneEmpty` | kern/memory/kmalloc.c:31-41 | over every run from kmalloc_init whose requests do not wrap, no block is ever empty |
| `Heap.EmptyPayload` | kern/memory/kmalloc.c:26 | a request above 2^64 - 8 succeeds with an empty payload |
| `Heap.FreeGood` | kern/memory/kmalloc.c:47-61 | a free removes exactly that payload and keeps tiling, alignment and the pair bound |
| `Heap.LiveDisjoint` | kern/memory/kmalloc.c:31-40 | payloads in use never overlap, a header lies between any two |
| `Heap.PayloadAligned` | kern/memory/kmalloc.c:26-40 | payloads are 8-aligned when the heap start is |
| `Heap.FreshRunInv` | kern/memory/kmalloc.c:14-61 | over every run from kmalloc_init all of this holds, with at most one adjacent free pair |
| `Heap.AllFreed` | kern/memory/kmalloc.c:47-61 | once everything is freed one or two blocks remain |
| `Heap.TwoBlocksRemain` | kern/memory/kmalloc.c:53-60 | a run from kmalloc_init, two allocations freed in the same order, that ends with two free blocks |
| `HeapMem.Allocator.Init` | kern/memory/kmalloc.c:14-21 | one free block over the whole heap |
| `HeapMem.Allocator.Kmalloc` | kern/memory/kmalloc.c:23-45 | for every 64-bit request the header walk computes the block-list kmalloc and changes no byte of a payload in use |
| `HeapMem.Allocator.Claim` | kern/memory/kmalloc.c:30-41 | splitting and marking change bytes of the chosen block only |
| `HeapMem.Allocator.Kfree` | kern/memory/kmalloc.c:47-61 | the header walk computes the block-list free and changes no byte of a payload still in use |
| `HeapMem.Allocator.Visit` | kern/memory/kmalloc.c:54-60 | one step of the coalescing walk |
| `HeapMem.InUseIsLive` | kern/memory/kmalloc.c:5-9 | the protected bytes are those of the live payloads |
| `HeapMem.HeaderBytes` | kern/memory/kmalloc.c:5-9 | size, next pointer and free flag are bytes 0 to 7, 8 to 15 and 16 to 19 of a header |
| `Sched.ApplyInv` | kern/sched/astral_sched.c:48-100 | every critical section keeps current_task == task_list[current_task_index] and the bound on tasks |
| `Sched.ScheduleIs` | kern/sched/astral_sched.c:59-82 | the first schedule makes the first listed task current |
| `Sched.YieldIs` | kern/sched/astral_sched.c:84-100 | a yield makes the task after the current one current, the first after the last |
| `Sched.BoundedWaiting` | kern/sched/astral_sched.c:48-57 | every listed task becomes current within MAX_TASKS - 1 yields, additions included |
| `Sched.AddedTaskRuns` | kern/sched/astral_sched.c:48-57 | a task added to a table with room becomes current within MAX_TASKS - 1 further yields |
| `Sched.CurrentIff` | kern/sched/astral_sched.c:48-100 | from the empty table a run leaves a current task exactly when it schedules after an addition or yields after two |
| `Sched.EachOnce` | kern/sched/astral_sched.c:84-100 | n yields among n tasks make each task current exactly once |
| `Sched.Scheduler.Init` | kern/sched/astral_sched.c:41-46 | the empty table |
| `Sched.Scheduler.AddTask` | kern/sched/astral_sched.c:48-57 | appends the task unless the table is full |
| `Sched.Scheduler.ScheduleTasks` | kern/sched/astral_sched.c:59-82 | starts task 0 when none is current, yields otherwise |
| `Sched.Scheduler.YieldNow` | kern/sched/astral_sched.c:84-100 | advances to the next task when there is more than one |
| `SpinLock.NextInv` | kern/sched/astral_sched.c:20-39 | every instruction of every core keeps the lock and monitor invariant |
| `SpinLock.WinLock` | kern/sched/astral_sched.c:22-30 | a successful store-exclusive finds the lock word still zero |
| `SpinLock.Acquires` | kern/sched/astral_sched.c:20-30 | a free lock is taken by four instructions of one core in a row, which change nothing else |
| `SpinLock.Spins` | kern/sched/astral_sched.c:20-30 | a taken lock keeps a core between load and test and nothing changes |
| `SpinLock.FailedStoreRetries` | kern/sched/astral_sched.c:20-30 | a store-exclusive that fails sends the core back to the load |
| `SpinLock.CallAlone` | kern/sched/astral_sched.c:48-100 | with the lock free a call that runs alone completes, committing its operation, and a yield after it exactly when sched_schedule finds a current task |
| `SpinLock.MutualExclusion` | kern/sched/astral_sched.c:20-100 | at most one core is in a critical section; with the lock free the current task is the indexed one |
| `SpinLock.StepRefines` | kern/sched/astral_sched.c:48-100 | each instruction changes nothing published or applies one whole operation |
| `SpinLock.RunRefines` | kern/sched/astral_sched.c:48-100 | every interleaving amounts to the completed critical sections in sequence |
| `SpinLock.ConcurrentWaiting` | kern/sched/astral_sched.c:84-100 | bounded waiting on the concurrent machine |
| `SpinLock.HolderUnlocks` | kern/sched/astral_sched.c:20-100 | the core that holds the lock gives it back within five instructions of its own, whatever the others do |
| `SpinLock.LockIsGivenBack` | kern/sched/astral_sched.c:20-100 | in every reachable state with the lock taken some core is such that every run with five of its instructions frees the lock |
| `Tasks.FailureRestores` | kern/sched/astral_sched.c:102-123 | when any of the three allocations fails the live allocations are as before |
| `Tasks.CreateInv` | kern/sched/astral_sched.c:102-126 | task creation keeps the listed tasks' regions allocated and distinct |
| `Tasks.TasksDisjoint` | kern/sched/astral_sched.c:102-126 | over every run control blocks, stacks and page tables of listed tasks are pairwise disjoint |
| `Tasks.SpInOwnStackIff` | kern/sched/astral_sched.c:102-126 | over every run the initial sp is in the task's own stack exactly for stack sizes from 16 to 2^64 - 8, and the 16 bytes above it are then in no other region of any listed task |
| `Tasks.LeaksIff` | kern/sched/astral_sched.c:102-126 | task creation leaves regions that no listed task owns, three of them, exactly when its allocations succeed and the table is full |
| `Tasks.NinthTaskLeaks` | kern/sched/astral_sched.c:102-126 | the ninth task on a fresh heap of 40000 bytes does |
| `VmMap.CoveredOnce` | kern/memory/vm_maps.c:65-97 | an address is covered by at most one live region, non-empty regions start at distinct addresses |
| `VmMap.RunDisjoint` | kern/memory/vm_maps.c:79-160 | over every run live regions are pairwise disjoint |
| `VmMap.AddEntryIs` | kern/memory/vm_maps.c:79-97 | a mapping that overlaps nothing is recorded as given in the first free slot; otherwise nothing changes |
| `VmMap.OverlapsIff` | kern/memory/vm_maps.c:65-76 | overlapping means a common address, for empty ranges lying strictly inside |
| `VmMap.ProtectIs` | kern/memory/vm_maps.c:129-140 | the first live region at the address gets the flags; no other field and no other region changes |
| `VmMap.UnmapIs` | kern/memory/vm_maps.c:117-127 | the first live region at the address becomes free; nothing else changes |
| `VmMap.ProtectChangesFlags` | kern/memory/vm_maps.c:129-140 | exactly the addresses of the protected region get the new flags |
| `VmMap.ProtectReachesIff` | kern/memory/vm_maps.c:129-140 | new flags reach a region exactly when no live region in an earlier slot starts at its address; such a region is empty |
| `VmMap.HiddenByEmpty` | kern/memory/vm_maps.c:129-140 | after vm_init, an empty mapping that hides a later one from vm_protect |
| `VmMap.AllocateThenFree` | kern/memory/vm_maps.c:143-160 | an allocation with a free slot is recorded at its address, and deallocating it removes that entry only |
| `VmMap.RunPlaced` | kern/memory/vm_maps.c:143-160 | over every run that leaves the upper range to the allocator the premise of that holds |
| `VmMap.FreesOwnSlot` | kern/memory/vm_maps.c:158-160 | in any placed map, deallocating the address of a live slot region removes that entry only |
| `VmMap.AllocateRunFree` | kern/memory/vm_maps.c:143-160 | an allocation stays recorded through any run that does not name its address, and its deallocation then removes exactly it |
| `VmMap.AllocateRecordedIff` | kern/memory/vm_maps.c:143-155 | in any map an allocation that finds a slot is recorded exactly when no live region overlaps its range; otherwise the map is unchanged and the address is returned all the same |
| `VmMap.UnrecordedAllocation` | kern/memory/vm_maps.c:143-160 | after vm_init and an allocation of two megabytes the next one returns an address that is not recorded and cannot be unmapped |
| `VmMap.RegionMap.Init` | kern/memory/vm_maps.c:100-106 | only the kernel mapping is live |
| `VmMap.RegionMap.FindFreeSlot` | kern/memory/vm_maps.c:56-62 | the first free slot or -1 |
| `VmMap.RegionMap.CheckOverlap` | kern/memory/vm_maps.c:65-76 | true exactly when a live region overlaps |
| `VmMap.RegionMap.AddEntryCall` | kern/memory/vm_maps.c:79-97 | inserts into the first free slot unless blocked, keeping disjointness |
| `VmMap.RegionMap.ProtectCall` | kern/memory/vm_maps.c:117-140 | changes the flags of the first live region at the address |
| `VmMap.RegionMap.AllocateCall` | kern/memory/vm_maps.c:143-155 | the slot-derived allocation |
| `VmMap.RegionMap.Deallocate` | kern/memory/vm_maps.c:158-160 | frees the first live region at the address |
| `CLib.StrLen` | kern/lib/lib.c:96-102 | the length of the terminated string |
| `CLib.StrCmp` | kern/lib/lib.c:58-64 | zero exactly for equal strings, otherwise the first difference |
| `CLib.StrNCpy` | kern/lib/lib.c:76-85 | the string padded with NULs to n bytes, the rest untouched |
| `CLib.MemCpy` | kern/lib/lib.c:49-56 | the n bytes are copied and every other byte of the destination is kept |
| `Format.NumeralCanonical` | kern/lib/lib.c:104-138 | the numeral parses back to the number and has no leading zero |
| `Format.NumeralFits` | kern/lib/lib.c:156-157 | sign and digits of every value fit the 32-byte buffer |
| `Format.LiteralExpands` | kern/lib/lib.c:181-184 | a format without '%' expands to itself |
| `Format.ExpandAppend` | kern/lib/lib.c:144-186 | a format in two parts expands part by part, each with its own arguments |
| `Format.DecimalPrints` | kern/lib/lib.c:154-162 | %d and %i print the numeral that parses back to the number, without leading zero |
| `Format.HexPrints` | kern/lib/lib.c:163-171 | %x and %p print the hexadecimal numeral that parses back to the number |
| `Format.OthersPrint` | kern/lib/lib.c:147-180 | %s prints the string, %c one byte, %% a percent sign, any other letter nothing |
| `Format.DigitIs` | kern/lib/lib.c:124 | the digits are 0 to 9 and a to f |
| `Format.Itoa` | kern/lib/lib.c:104-138 | digit loop and in-place reversal leave the canonical numeral and a NUL |
| `Format.ReverseInPlace` | kern/lib/lib.c:133-137 | the two-pointer loop reverses the prefix |
| `Format.VSnprintf` | kern/lib/lib.c:140-196 | the first min(length, size - 1) bytes of the expansion, then NUL, nothing written beyond size |
| `Vfs.AddNodeInv` | kern/fs/vfs.c:53-61 | appending a child keeps the ordered tree: parents precede children, child lists are disjoint, files are leaves |
| `Vfs.CreateGrafts` | kern/fs/vfs.c:36-94 | a create appends one leaf to its parent's children in the rose tree and changes nothing else |
| `Vfs.FirstIsEarliest` | kern/fs/vfs.c:98-108 | lookup's answer is the earliest-created child of that name |
| `Vfs.NoCycle` | kern/fs/vfs.c:46-51 | following parent links never comes back |
| `Vfs.AppendedWired` | kern/fs/vfs.c:54-61 | the link assignments spell out the extended tree |
| `Vfs.Vfs.Init` | kern/fs/vfs.c:13-26 | the root alone |
| `Vfs.Vfs.Create` | kern/fs/vfs.c:36-94 | links the new node as last child; a refused or failed call changes nothing |
| `Vfs.Vfs.Lookup` | kern/fs/vfs.c:98-108 | the sibling walk finds the first child with the name |

## Left out

- Device failure, power loss inside an operation, and use of ids of deleted inodes: the block device is a reliable array, and callers pass live ids.
- The superblock's free counters over whole runs: their value after format and their change by each allocation and release are stated, no more; format subtracts the reserved area twice (kern/fs/fs.c:114, 124-127), so the block counter is not the number of clear bits.
- In the file system class the transient inode copies are values, and whether their allocation succeeds is a parameter; `FsHeap` accounts for the allocations, not for the copied bytes. Allocation of the bitmap buffers at mount is assumed to succeed.
- The three padding bytes of a stored directory entry are modelled as zero; the code copies whatever the stack held. Nothing reads them as part of an entry.
- `FsDisk.FileSystem.Read`: requires a buffer that holds what arrives; `ReadOverrunsIff` says when that is more than the requested count.
- `FsDisk.FileSystem.Init`: a disk with the magic number is assumed to have a layout that fits it; the code does not check, and a layout that does not fit is not modelled.
- `FsDisk.FileSystem.Load`: a disk with the magic number is assumed to have a layout that fits it; the code does not check, and a layout that does not fit is not modelled.
- `FsNames.CreateInv`: requires that an id in range is live and that the type is FILE or DIR; the code checks neither.
- `FsNames.CreateInserts`: requires that an id in range is live and that the type is FILE or DIR; the code checks neither.
- `FsDisk.FileSystem.Create`: requires that an id in range is live and that the type is FILE or DIR; the code checks neither.
- `FsNames.DeleteInv`: requires that an id in range is live.
- `FsNames.DeleteRemoves`: requires that an id in range is live.
- `FsDisk.FileSystem.Delete`: requires that an id in range is live.
- `FsDisk.FileSystem.Lookup`: requires that an id in range is live.
- `FsDisk.FileSystem.Write`: requires that an id in range is live.
- `FsRefine.CreateRefines`: excludes a create that is starved of memory for its own lookup while the name is there, the case in which names stop being unique (`CreateUniqueIff`).
- `FsRefine.StepRefines`: excludes a create that is starved of memory for its own lookup while the name is there, the case in which names stop being unique (`CreateUniqueIff`).
- `FsRefine.RunRefines`: excludes a create that is starved of memory for its own lookup while the name is there, the case in which names stop being unique (`CreateUniqueIff`).
- `FsRefine.RunAnswers`: excludes a create that is starved of memory for its own lookup while the name is there, the case in which names stop being unique (`CreateUniqueIff`).
- `FsExec.ServeAfterRemount`: excludes a create that is starved of memory for its own lookup while the name is there, the case in which names stop being unique (`CreateUniqueIff`).
- `HeapMem.Allocator.Kfree`: requires null or a payload in use; the code does not check.
- `Format.Itoa`: requires a value above the least 64-bit number, and a non-negative one for base 16; the code negates and takes remainders of negative numbers otherwise.
- `Format.VSnprintf`: requires arguments that match the conversions, hex arguments below 2^63 and no lone '%' at the end of the format, after which the code reads past the terminator.
- `VmMap.RegionMap.CheckOverlap`: requires ranges that do not wrap around the address space.
- `VmMap.RegionMap.AddEntryCall`: requires ranges that do not wrap around the address space.
- `VmMap.RegionMap.AllocateCall`: requires ranges that do not wrap around the address space.
- `Vfs.Vfs.Create`: names are values; the code keeps the caller's pointer, so later changes of the caller's buffer are not modelled. The allocation failure of vfs_init is not modelled.
- Weak memory: the concurrent machine interleaves whole instructions; acquire and release orderings are not modelled beyond that. A timer interrupt inside a critical section is not modelled.
- Context switches change the current task only; registers, page-table contents, cpu_enable_mmu, TLB maintenance and the halted state are left out.
- The task id field read outside the lock, and the reads of current_task after the lock is released in sched_schedule.
- vfs_mount, vfs_read and vfs_write: thin delegation whose calls do not match the file system's signatures.
- Device drivers, device tree, console, security and boot code.
