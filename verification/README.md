# A verified model of PseudoFS

PseudoFS keeps a whole virtual disk in memory, as an array of 512-byte blocks, and runs two file-system
engines on it behind one file interface.

* The **UNIX engine** keeps its free blocks in a grouped list. A 50-entry stack sits in the super block, and
  further groups of 50 are stored inside the free blocks themselves. On top of it are inodes with 6 direct, 2
  single-indirect and 1 double-indirect address, a 64-slot inode cache with reference counts and dirty flags,
  files, and directories stored as files.
* The **FAT engine** keeps one file allocation table, with two copies of it on disk. A file is a chain of
  clusters, linked through the table and closed by 0xFFFF.

Next to them stand two independent pieces: the two-level open-file table both engines share, and the shell's
glob matcher.

## How the model is built

State that the program changes in place is a class with the same fields: `BlockDevice` (an array of blocks),
`SuperBlock`, `InodeManager` and its `MemINode` slots, `DirectoryManager`, `UnixFs`, `Fat16Fs` and
`OpenFileTable`. Methods follow the program's branches and loops. Each is proved against functions and
predicates on plain values (the state before, the state after), and the laws are lemmas about those.

| files | what they hold |
|---|---|
| `Bytes`, `BlockDevice` | bytes, 16-bit words, blocks, the disk |
| `FreeList`, `FormatList`, `FreeListLaws`, `CollectLaws`, `SuperImage`, `SuperBlock` | the grouped free list as a value, its laws over all runs, the super block |
| `InodeTree`, `InodeWalk`, `InodeView`, `InodeGrowth`, `DiskInode`, `InodeCache`, `InodeLife`, `InodeManager`, `Volume` | index trees and who owns each block, the truncation walk, what growing a file takes, the cache, the life of an inode, what a disk holds at rest |
| `FileSpec`, `FileContent`, `FileGrowth`, `ZeroFill`, `BlockMap`, `UnixFs` | what a file means as bytes, exactly what a write stores and shows, the UNIX engine's reads, writes, format, mount and usage figures |
| `DirEntry`, `DirFile`, `Paths`, `SystemDir`, `Directory` | directory records as a finite map, directories as files, path resolution, the directories of a fresh volume |
| `FatChain`, `FatFile`, `FatDisk`, `Fat16Fs` | cluster chains, files over chains, the copies on disk, the FAT engine |
| `OpenFileTable`, `Glob` | descriptors and their counts, the matcher |

Three predicates carry the invariants. `FreeLists.Represents` says that the stack, the chain of group blocks
and the disk stand for one list of distinct free blocks. `InodeViews.Consistent` says that every managed block
is either free or at exactly one position of exactly one inode's tree. `FatChains.FatOk` says that the
allocated clusters are partitioned into disjoint chains, each linked from its first cluster to the end mark.
`InodeManager.Valid` adds the cache, the inode stack and the count of free inodes to the first two; every public
operation keeps it, and `FsFormat` establishes it. `Alive` adds that every name in every live directory leads to a
live inode, so that no walk meets a dead one: `FsFormat` establishes that too, reading, writing to a file,
linking a live inode and unlinking a name keep it, and destroying an inode keeps it exactly when no other directory
names it (`LiveTreeDestroyedIff`).

Data blocks are numbered from 0 and lie at disk block 34 and up. Block 0 of the data area also means "no block",
both as the end of the free chain and as an unmapped address.

## What turned out to be conditional

* Releasing a block is safe exactly when the stack still holds its link slot (`ReleaseSafeIff`). A failed
  allocation sets the count to 0 (src/fs/unix/super_block.cpp:126-128), and `StaleLink` shows what then goes
  wrong. The algorithm in docs/课设要求.md:133-147 leaves the count at 1. The code is followed: `BFree`
  says what happens either way, and operations that free many blocks ask for a count of at least 1, which is exactly
  what they need (`ReleaseAllSafeIff`). `FsFormat` establishes it, and `FsWrite` says which writes lose it: exactly
  those that end early for want of a block.
* Formatting yields a meaningful free list exactly when at least one block is reserved (`Format`,
  `AllBlocksIsTooMany`).
* A write is an overlay of the old bytes when it starts at or before the end of a file without holes. In general
  old bytes can show. In the UNIX engine data blocks are not cleared when handed out. `FsWrite` says what every byte
  of the file is afterwards, read off the state before, and `ZeroFilledIff` says exactly when the result is the old
  file, padded with zeros to the offset and overlaid with the data. The condition, `NothingShows`, can be evaluated
  before the call: the bytes between size and offset are zeros, and so are the unwritten parts of the free blocks that
  will take the place of holes at the two ends of the data. `TruncatedThenWritten` is an input for which it fails: two
  descriptors are open on a file, one truncates it, and the other writes at its old offset
  (src/fs/unix/unix_fs.cpp:174-179, 276-299). `HoleStaysZeroIff` is the statement for one block.
* In the FAT engine a write past the recorded end lets old bytes of the chain show through, and on a full disk it may
  not reach its offset at all. What a read sees afterwards is the old file padded with zeros to the offset and overlaid
  with the data exactly when the offset is within what the chain and the free clusters can hold and the chain holds
  zeros from the end of the file to the offset (`Fat16Fs.FsWrite`, `FatFiles.CoveredZeroFilledIff`).
  `FatFiles.TruncatedThenWritten` is an input that fails the second part. `SizeRaisedForNothing` and `FullVolume` fail
  the first: with no cluster free and an offset beyond the chain, nothing is written but the size is raised
  (src/fs/fat16/fat16_fs.cpp:332-337), and the file reads shorter than its size.
* Freeing a chain gives up after 2000 clusters; it frees the whole chain exactly when the chain is no longer
  (`WholeChainFreedIff`). A longer one leaves an orphan chain behind, as `TailLeftBehind` shows for 2001
  clusters.
* `fs_open` drops its inode reference (src/fs/unix/unix_fs.cpp:180), so a descriptor can outlive its inode. Taking and
  giving back a reference through a managed number leaves the inode stack free of duplicates exactly when the number is
  live, as long as any inode is (`StaleReferenceIff`); `StaleDescriptor` is an input for which a number is pushed twice.
  `Get` and `Put` say for every number what they do to the stack, and reads and walks say when they meet a dead inode:
  the state stays in order if and only if they do not (`FsRead`, `NameI`, `DeadOn`).
* A full cache makes path resolution miss names (`WalkResolvesIff` says exactly when, `FullCache` gives an input), and
  `fs_read` and `fs_write` fail. In a state the engine keeps in order that cannot happen: at most 50 inode numbers are
  managed, and the cache has 64 slots (`SpareSlot`). `NameI` therefore always finds what the maps say.
* For a given name the glob matcher is right about every pattern exactly when the name holds no `*`
  (`RightIffNoStar`). It never accepts wrongly.
* The header says `bmap` returns INVALID_BLK for a hole (include/fs/unix/inode.h:61); the code returns 0, and the
  model follows the code.

## Model

| member | source | states |
|---|---|---|
| FreeLists.AllocatePops | src/fs/unix/super_block.cpp:117-148 | on a meaningful free list, balloc returns the head of the list and leaves the tail, or fails exactly when the list is empty; what it leaves is again meaningful, also when it crosses into the next group |
| FreeLists.ReleasePushes | src/fs/unix/super_block.cpp:154-174 | bfree puts the block at the front of the list, also when the full stack is saved into the very block being freed |
| FreeLists.RepresentsFrame | src/fs/unix/super_block.cpp:154-174 | overwriting a block that is not free disturbs neither the group chain nor the list, although both live among file data |
| FreeLists.MetadataFrame | src/fs/unix/super_block.cpp:105-111 | writes outside the data area cannot disturb the free list |
| FreeListLaws.RepresentationUnique | src/fs/unix/super_block.cpp:117-174 | a super block and a disk stand for at most one free list |
| FreeListLaws.ReleaseThenAllocate | src/fs/unix/super_block.cpp:117-174 | bfree(b) then balloc() returns b and restores the live stack, the chain and the list; no block but b may have changed |
| FreeListLaws.AllocateThenRelease | src/fs/unix/super_block.cpp:117-174 | a successful balloc() then bfree of its result restores the live stack, the chain and the list, across group boundaries too |
| FreeListLaws.ReleaseSafeIff | src/fs/unix/super_block.cpp:154-174 | a release leaves a meaningful free list if and only if s_nfree >= 1 |
| FreeListLaws.ReleaseAllSafeIff | src/fs/unix/super_block.cpp:154-174 | releasing any number of held blocks one after another leaves a meaningful free list if and only if there are none or s_nfree >= 1 at the start; a lost link slot is never made up for |
| FreeListLaws.StaleLink | src/fs/unix/super_block.cpp:124-128 | after a failing balloc, freeing a block of text leaves a list whose next group would have 0x6161 entries |
| FreeListLaws.FormattedIsSafe | src/fs/unix/super_block.cpp:15-95 | the list format builds, with nothing held, is a safe starting point for runs |
| FreeListLaws.StepSafe | src/fs/unix/super_block.cpp:117-174 | each balloc, each bfree of a held block while s_nfree >= 1, and each overwrite of a held block keeps the safety invariant |
| FreeListLaws.SafeAllocate | src/fs/unix/super_block.cpp:117-148 | in a safe state held plus free blocks are all managed blocks; balloc fails exactly when all are held and otherwise returns a managed block nobody holds |
| FreeListLaws.RunSafe | src/fs/unix/super_block.cpp:15-174 | over every run, balloc never returns a reserved, out-of-range or still-held block, fails exactly when nothing is free, and s_nfree never exceeds 50 |
| FreeListLaws.DrainYieldsAll | src/fs/unix/super_block.cpp:117-148 | k allocations in a row after format yield exactly min(k, 2048 - r) distinct blocks, for every reserved count r >= 1 |
| FormatLists.GroupAdded | src/fs/unix/super_block.cpp:53-66 | writing one group of 50 at the cursor extends a well-formed chain that covers exactly the blocks passed so far |
| FormatLists.FormatDone | src/fs/unix/super_block.cpp:68-77 | with the remainder on the stack, the list covers every block from the reserved ones up, each once |
| FormatLists.AllBlocksIsTooMany | src/fs/unix/super_block.cpp:15-40 | with no reserved block the free count claims block 0 too, which no list can hold |
| SuperBlocks.SuperBlock.Format | src/fs/unix/super_block.cpp:15-95 | the free list covers exactly the blocks from the reserved count up if that is at least 1 and is meaningless if it is 0; the inode stack holds the lowest free numbers, smallest on top; the super block on disk decodes to this state |
| SuperBlocks.SuperBlock.StackInodes | src/fs/unix/super_block.cpp:79-92 | the inode stack holds up to 50 numbers in descending order, so that the smallest is handed out first |
| SuperBlocks.SuperBlock.PopStack | src/fs/unix/super_block.cpp:117-148 | the loop over a group block computes the allocation step on the whole state |
| SuperBlocks.SuperBlock.BAlloc | src/fs/unix/super_block.cpp:117-148 | pops the free list, or fails with s_nfree = 0 when it is empty |
| SuperBlocks.SuperBlock.BFree | src/fs/unix/super_block.cpp:154-174 | with s_nfree >= 1 the block goes to the front of the free list; with s_nfree = 0 the state left behind stands for no free list at all; no disk block but that one changes |
| SuperBlocks.SuperBlock.IAlloc | src/fs/unix/super_block.cpp:177-189 | pops the inode stack; an empty stack fails whatever the disk holds |
| SuperBlocks.SuperBlock.IFree | src/fs/unix/super_block.cpp:192-205 | pushes while there is room; a full stack only lowers the scan start |
| SuperBlocks.SuperBlock.CollectFreeBlocks | src/fs/unix/super_block.cpp:209-232 | the link-following walk lists exactly the blocks balloc could hand out, each once, and as many as the free count; its guard never cuts it short |
| CollectLaws.WalkStep | src/fs/unix/super_block.cpp:220-231 | following one link moves exactly one group from the blocks still to come to those listed |
| SuperBlocks.SuperBlock.Flush | src/fs/unix/super_block.cpp:105-111 | the super block written decodes to the state saved, only that block changes, and the free list stays meaningful |
| SuperBlocks.SuperBlock.Load | src/fs/unix/super_block.cpp:98-102 | every field becomes what the block on disk decodes to |
| SuperImages.DecodeEncode | src/fs/unix/super_block.cpp:98-111 | loading what was flushed gives back every field of the super block |
| SuperImages.SuperLayout | include/fs/unix/super_block.h:16-28 | every field of the super block is read from the bytes where the C struct has it, low byte first |
| InodeTrees.LeafRefInjective | src/fs/unix/inode.cpp:202-238 | different logical blocks use different positions of the tree |
| InodeTrees.LeafRefSurjective | src/fs/unix/inode.cpp:202-238 | every data position of the tree is one logical block below 6 + 2*256 + 256*256: six direct ones, then 256 per single-indirect block, then 256 per entry of the double-indirect one |
| InodeTrees.SlotAttached | src/fs/unix/inode.cpp:243-299 | recording a block in an address slot, a new index block zeroed first, changes exactly one position of one tree |
| InodeTrees.EntryAttached | src/fs/unix/inode.cpp:274-325 | writing an index entry changes exactly one position of one tree, although index blocks share the disk with all else |
| InodeTrees.TreesFrame | src/fs/unix/inode.cpp:181-187 | no tree changes when only data blocks or blocks nobody owns are written |
| InodeManagers.InodeManager.Bmap | src/fs/unix/inode.cpp:202-238 | the nested lookups return the block at the leaf position of the logical block, 0 for a hole or an index beyond the tree |
| InodeManagers.InodeManager.AllocSlot | src/fs/unix/inode.cpp:243-299 | takes the first free block for an empty slot and attaches it there and nowhere else; with no free block nothing changes |
| InodeManagers.InodeManager.AllocEntry | src/fs/unix/inode.cpp:274-325 | the same for an empty entry of an index block |
| InodeManagers.InodeManager.BmapAlloc | src/fs/unix/inode.cpp:242-328 | a one-key update of the logical-to-physical map: on success the leaf holds the returned non-zero block and every other leaf of every inode is as it was; on failure every leaf is, even if index blocks were added; it fails exactly beyond the tree or when fewer blocks are free than are missing on the path, and loses the link slot of the free-block stack exactly in the latter case; on success exactly the missing blocks left the free list, in its order, the data block last and with the bytes it held while free, and exactly the positions on the path were filled |
| InodeViews.ReachedAfterIndex | src/fs/unix/inode.cpp:259-325 | adding an index block first does not weaken what mapping a leaf promises |
| InodeViews.AttachedConsistent | src/fs/unix/inode.cpp:242-328 | attaching the first free block at an empty position keeps every managed block in exactly one place |
| InodeViews.GrewOthers | src/fs/unix/inode.cpp:242-328 | adding blocks to one file leaves every other inode's record, tree and file data alone |
| InodeGrowths.MissingNow | src/fs/unix/inode.cpp:242-328 | while consecutive blocks of a file are mapped, what the next one is missing can be read off the tree as it was at the start |
| InodeGrowths.RangedStep | src/fs/unix/inode.cpp:242-328 | mapping one block after another takes exactly the blocks they need off the free list, in its order, fills exactly the positions on their paths, and leaves the bytes of blocks still free alone |
| InodeGrowths.FreshContents | src/fs/unix/inode.cpp:242-328 | the block that takes the place of a hole is the free block whose turn it is, counted from the start, and it still holds the bytes it held then |
| InodeWalks.NotYetFreed | src/fs/unix/inode.cpp:332-385 | while truncate runs, a block whose turn has not come is intact and not free, although freed blocks may already hold group data |
| InodeWalks.SpansStep | src/fs/unix/inode.cpp:332-385 | each step of the walk frees the block at the next position, never one freed before |
| InodeWalks.SkipIndex | src/fs/unix/inode.cpp:343-368 | stepping over a missing index block misses no block of the tree |
| InodeWalks.WalkDone | src/fs/unix/inode.cpp:332-385 | at the end the freed blocks are exactly the inode's, the others' trees are as before, and every managed block is in one place |
| InodeManagers.InodeManager.Truncate | src/fs/unix/inode.cpp:332-385 | hands back exactly the blocks of the inode's tree, each once, and zeroes its addresses; no other inode's tree or data changes |
| InodeManagers.InodeManager.FreeIndexBlock | src/fs/unix/inode.cpp:343-377 | frees everything an index block holds and then the block itself, from a copy of the index that the frees cannot overwrite |
| DiskInodes.InodeRoundTrip | src/fs/unix/inode.cpp:20-39 | the 64-byte record holds every field of an inode |
| DiskInodes.InodeLayout | include/fs/unix/inode.h:14-26 | every field of an inode is read from the bytes where the C struct has it, low byte first, 64 bytes an inode, 8 to a block |
| DiskInodes.WriteInodeIsolated | src/fs/unix/inode.cpp:31-39 | the read-modify-write of 64 bytes changes that inode, none of the other seven in its block, and no block outside the inode area |
| InodeCaches.CacheModify | src/fs/unix/inode.cpp:44-94 | changing a cached copy and marking it dirty keeps the cache transparent: cached copy where there is one, disk copy elsewhere, no inode in two slots |
| InodeCaches.CacheWriteBack | src/fs/unix/inode.cpp:130-136 | writing a copy back cleans its slot and changes no inode as callers see it |
| InodeManagers.InodeManager.CacheLookup | src/fs/unix/inode.cpp:44-51 | finds the slot that holds the inode, or none when no slot does |
| InodeManagers.InodeManager.CacheAlloc | src/fs/unix/inode.cpp:54-63 | claims and clears an unused slot, and fails exactly when all 64 are used |
| InodeManagers.InodeManager.Get | src/fs/unix/inode.cpp:73-94 | for any number: gains one reference, modulo 2^16, to a cached inode or loads it into a free slot; fails exactly for a number out of range or, when it is not cached, a full cache; the inode table callers see is unchanged; a reference to a dead inode is the only one and shows an empty record; the cache and inode invariants hold afterwards if and only if it failed or the inode is live and its count did not wrap to 0 |
| InodeManagers.InodeManager.WriteBack | src/fs/unix/inode.cpp:130-136 | saves the inode to its 64 bytes, cleans the slot, and leaves the inode table as callers see it unchanged |
| InodeManagers.InodeManager.Put | src/fs/unix/inode.cpp:98-127 | for a reference to a live or a dead inode: one reference fewer, modulo 2^16, and only the last one acts; a linked inode stays as callers see it; an unlinked one is destroyed then and only then, exactly its blocks are freed, and its number is pushed while the stack has room, even if it was dead and on the stack already; invariants that held before hold afterwards |
| InodeManagers.InodeManager.DestroyInode | src/fs/unix/inode.cpp:112-119 | truncates, clears mode and size, saves the record and returns the number to the stack if there is room |
| InodeManagers.InodeManager.Alloc | src/fs/unix/inode.cpp:141-168 | creates an inode under a number that was not live, with the mode and owners given, one link, no bytes, no blocks and all three times now, or fails exactly when the stack is empty or the cache full, and then the number is back on the stack |
| InodeLives.LiveCount | src/fs/unix/super_block.cpp:177-205 | stacked plus live inode numbers is constant, so while an inode is live the stack has room and ifree never takes its stack-full branch |
| InodeLives.SpareSlot | src/fs/unix/inode.cpp:44-94 | while cache and numbers are in step a cache slot is free, because only live numbers are cached, none twice, and at most 50 are managed |
| InodeLives.StaleReferenceIff | src/fs/unix/inode.cpp:73-127 | getting a managed number that nobody holds and giving it back leaves no number on the stack twice if and only if the number was live or the stack was full; with any inode live, if and only if the number is |
| InodeLives.StaleDescriptor | src/fs/unix/inode.cpp:73-127 | on a formatted volume whose root has just been created, a reference taken and given back through the free number 2 puts it on the stack twice, so the next two files would share it |
| InodeLives.Destroyed | src/fs/unix/inode.cpp:98-127 | destroying an unlinked inode keeps cache and numbers in step: not live, not cached, once on the stack |
| InodeLives.Created | src/fs/unix/inode.cpp:141-168 | a new inode keeps cache and numbers in step: its number leaves the stack and becomes live |
| BlockMaps.BlocksConserved | src/fs/unix/inode.cpp:242-385 | free blocks plus owned blocks is the number of managed blocks |
| BlockMaps.UsedCellsCount | src/fs/unix/unix_fs.cpp:861-872 | the cells marked used are as many as the data blocks that are not free |
| UnixFileSystem.UnixFs.FsBlockMap | src/fs/unix/unix_fs.cpp:861-872 | every cell is metadata, free or used as its block is; the used cells number 2048 less the free count, as fs_disk_usage reports |
| UnixFileSystem.UnixFs.FsDiskUsage | src/fs/unix/unix_fs.cpp:850-857 | the reported used blocks are the reserved ones plus those some inode owns, and the used inodes are the reserved numbers plus the live ones |
| UnixFileSystem.UnixFs.FormatVolume | src/fs/unix/unix_fs.cpp:30-35 | after zeroing and laying out, everything the inode layer keeps true holds: every managed block free, no inode live, an empty cache in front of empty records |
| UnixFileSystem.UnixFs.FsFormat | src/fs/unix/unix_fs.cpp:30-75 | formatting cannot fail and leaves the cache empty; inodes 1, 2 and 3 are live and no others, and numbers 4 to 50 are stacked, 4 on top; blocks 3 and up are managed, three of them taken, and the free-block stack has its link slot; the root, inode 1, names exactly `.`, `..`, `etc` and `home`, the other two exactly `.` and `..`; walking to /etc and /home finds them; the saved disk holds the whole volume, ready to be mounted; every name in every directory leads to a live inode |
| UnixFileSystem.UnixFs.FormatAndFind | src/fs/unix/directory.cpp:202-228 | on a formatted volume namei of /etc gives 2 and of /home gives 3, from every current directory |
| UnixFileSystem.UnixFs.FsUnmount | src/fs/unix/unix_fs.cpp:92-99 | with no inode in the cache, saving the super block leaves the whole volume on the disk |
| UnixFileSystem.UnixFs.FsMount | src/fs/unix/unix_fs.cpp:82-89 | a file system that holds nothing takes over the volume on its disk: all invariants hold, and table, owners, live inodes, free list and root are those saved |
| UnixFileSystem.UnixFs.Remount | src/fs/unix/unix_fs.cpp:12-99 | unmounting and mounting the same disk with a newly built file system gives back the inode table, owners, live inodes, free list, root and every data block, and a directory tree that leads to live inodes if it did before |
| Volumes.OneVolume | src/fs/unix/unix_fs.cpp:82-89 | the disk alone settles what is mounted: table, live inodes, owners, group chain and free list of two volumes on it are the same |
| SystemDirs.DirAddedFrom | src/fs/unix/unix_fs.cpp:49-65 | creating a directory, linking it into a small root and saving it adds exactly that name, leaves every other directory reading as before, and costs exactly one block |
| SystemDirs.SystemPaths | src/fs/unix/unix_fs.cpp:49-65 | from a root that names them, both system directories are found by walking their paths, their `.` leads to themselves and their `..` leads back |
| UnixFileSystem.UnixFs.LinkAlive | src/fs/unix/directory.cpp:116-145 | linking a live inode keeps every name in every directory leading to a live inode, and fails exactly when Link does |
| FileSpecs.ReadAfterWrite | src/fs/unix/unix_fs.cpp:209-312 | reading what was just written returns it, and reading elsewhere returns the old bytes |
| FileSpecs.OverlayCompose | src/fs/unix/unix_fs.cpp:283-299 | writing in consecutive pieces is writing at once |
| FileContents.WrittenIsOverlay | src/fs/unix/unix_fs.cpp:263-312 | a write at or before the end of a file without holes makes it the overlay of its old bytes with the data, and leaves no hole |
| FileContents.HoleStaysZeroIff | src/fs/unix/unix_fs.cpp:283-299 | writing part of a block into a hole leaves the rest of the block reading as zeros if and only if the free block whose turn it is, the first one or the one after the missing index blocks, holds zeros there, because data blocks are not cleared |
| FileContents.OthersContent | src/fs/unix/unix_fs.cpp:263-312 | while one file grows, every other file keeps its bytes and its holes |
| FileContents.ContentSameData | src/fs/unix/inode.cpp:31-39 | saving inodes and super block changes no file's bytes |
| FileGrowths.StopsOnce | src/fs/unix/unix_fs.cpp:278-299 | the number of bytes a write stores is settled by the tree and the free list before it: all if there is room for their blocks, else up to the first block there is no room for |
| FileGrowths.WholeOutcome | src/fs/unix/unix_fs.cpp:278-299 | after a write that found room, every byte of the file is what the state before says, and exactly the blocks needed left the free list |
| FileGrowths.PartOutcome | src/fs/unix/unix_fs.cpp:278-299 | after a write that ran out of room, the same for the part written, and the count is the one settled beforehand |
| ZeroFills.ZeroFilledIff | src/fs/unix/unix_fs.cpp:263-312 | after any write, whole or partial, at any offset, to a file with or without holes, the file is its old bytes padded with zeros to the offset and overlaid with the data if and only if nothing old shows, which the state before the call decides |
| ZeroFills.WithinFile | src/fs/unix/unix_fs.cpp:263-312 | nothing old shows in a write at or before the end of a file without holes |
| ZeroFills.FirstFresh | src/fs/unix/inode.cpp:242-328 | the fresh block of a hole at the offset of a write is the free block after the index blocks missing on its path |
| ZeroFills.TruncatedThenWritten | src/fs/unix/unix_fs.cpp:174-299 | a file truncated through one descriptor and written at the old offset of another reads as the old file in front of the data; the state in between has a super block that stands for its free list, every block in one place, an empty cache and the file live |
| UnixFileSystem.UnixFs.WriteLoop | src/fs/unix/unix_fs.cpp:278-299 | the chunk loop stores exactly as many bytes as there is room for, counted before the call; every byte of the file afterwards is given by the state before; no other file is touched; the free-block stack keeps its link slot if and only if it had one and the loop did not end early for want of a block |
| UnixFileSystem.UnixFs.WriteFile | src/fs/unix/unix_fs.cpp:263-312 | the exact count and the exact bytes of the file, the free list after a whole write; for offset <= size and no holes the file becomes the overlay of its old bytes with the prefix written, also when the disk fills part-way; every other file's bytes, holes and record are unchanged |
| UnixFileSystem.UnixFs.FsWrite | src/fs/unix/unix_fs.cpp:263-312 | the same through a descriptor, whose offset moves by what was written, and the inode is stamped with the time; fails exactly on a bad or unwritable descriptor or a number that names no inode, changing nothing; no other descriptor moves, every reference count and the inode stack are as before, and unless the descriptor is open on a directory every name still leads to a live inode; releasing blocks afterwards is safe if and only if it was before and the write ended for no want of a block |
| UnixFileSystem.UnixFs.ReadLoop | src/fs/unix/unix_fs.cpp:234-251 | the chunk loop returns exactly the requested range of the file, holes as zeros |
| UnixFileSystem.UnixFs.FsRead | src/fs/unix/unix_fs.cpp:209-259 | returns exactly the slice of the file at the descriptor's offset and moves the offset by its length; no other descriptor moves and every reference count is as before; at a live inode no data block, no owner, neither free list nor inode stack and nothing but an access time of an inode changes, and every name still leads to a live inode; through a descriptor whose inode is dead it reads nothing, the number is returned once more, and then only do the invariants break |
| DirEntries.SameName | src/fs/unix/directory.cpp:107-107 | the 14-character comparison says equal exactly when the two strings fill a name field the same way |
| DirEntries.ParsePack | src/fs/unix/directory.cpp:42-95 | entries written as 16-byte records read back as the same entries |
| DirEntries.EntryLayout | include/fs/unix/directory.h:16-19 | an entry is 14 bytes of name and then the inode number, low byte first |
| DirEntries.LinkedDir | src/fs/unix/directory.cpp:116-145 | adding an absent name, by slot reuse or at the end, adds exactly that key to the map |
| DirEntries.LinkedUnique | src/fs/unix/directory.cpp:116-145 | linking keeps live names unique |
| DirEntries.ClearedDir | src/fs/unix/directory.cpp:149-163 | clearing the entry of a name removes exactly that key and keeps live names unique |
| DirFiles.WholeDirWritten | src/fs/unix/directory.cpp:69-95 | a directory rewritten to its last block reads back as exactly the entries written |
| DirFiles.DirWriteStopped | src/fs/unix/directory.cpp:77-81 | a rewrite that cannot map a block stops past every old entry, so a directory that was only to grow reads as before |
| DirFiles.RoomInPlace | src/fs/unix/directory.cpp:69-95 | rewriting a readable directory in place always finds room and takes no block |
| DirFiles.RoomForOneMore | src/fs/unix/directory.cpp:69-95 | with one more entry it finds room if and only if enough blocks are free for what the place of that entry is missing, and takes exactly those |
| Directories.DirectoryManager.ReadDirData | src/fs/unix/directory.cpp:42-65 | returns exactly the entries stored in the file, and fails exactly when a block below the size is unmapped |
| Directories.DirectoryManager.WriteDirData | src/fs/unix/directory.cpp:69-95 | succeeds if and only if there is room for the blocks of the new contents, and then the file holds exactly the entries and exactly those blocks left the free list; on failure the size stays and entries not meant to change read as before; no other file is touched |
| Directories.DirectoryManager.Lookup | src/fs/unix/directory.cpp:100-112 | reads the directory's map: the inode number of the name, INVALID_BLK if it is absent or the directory unreadable |
| Directories.DirectoryManager.Link | src/fs/unix/directory.cpp:116-145 | adds exactly one key, over the first free slot or at the end; fails if and only if the directory is unreadable, has the name, or has neither a free slot nor room for a new entry; takes exactly the blocks the new entry's place was missing, and loses the link slot of the free-block stack only when there was no room; a failed link leaves the entries as they were |
| Directories.DirectoryManager.Unlink | src/fs/unix/directory.cpp:149-163 | succeeds exactly when the name is present, clears its first live entry to zeros and no other, and so removes exactly that key; the free list is as before |
| Directories.DirectoryManager.InitDir | src/fs/unix/directory.cpp:172-184 | a new directory holds `.` for itself and `..` for its parent and nothing else; fails, leaving it empty, exactly when there is no room for its first block |
| Paths.SplitJoin | src/fs/unix/directory.cpp:19-36 | joining any names with slashes and splitting the path gives the names back |
| Paths.SplitGivesNames | src/fs/unix/directory.cpp:19-36 | no piece of a split path is empty or contains a slash |
| Paths.SplitPath | src/fs/unix/directory.cpp:19-36 | the cursor loop cuts any path, with whatever slashes, into exactly those names |
| Paths.ResolveLast | src/fs/unix/directory.cpp:202-264 | walking a whole path is walking to its parent and looking the last name up there, INVALID_BLK if the parent is missing or no directory |
| Paths.WalkLeads | src/fs/unix/directory.cpp:202-228 | a walk of at least one name ends where the map of the last directory says, or nowhere if that is no readable directory or lacks the name |
| Paths.LiveTreeLinked | src/fs/unix/directory.cpp:116-145 | linking a live inode, or failing to, keeps every name leading to a live inode |
| Paths.LiveTreeWritten | src/fs/unix/unix_fs.cpp:263-312 | writing to an inode that is no directory keeps every name leading to a live inode |
| Paths.LiveTreeRead | src/fs/unix/unix_fs.cpp:209-259 | reading a file keeps every name leading to a live inode |
| Paths.LiveTreeUnlinked | src/fs/unix/directory.cpp:149-163 | removing one key from a directory keeps every name leading to a live inode |
| Paths.LiveTreeDestroyedIff | src/fs/unix/inode.cpp:98-127 | destroying an inode keeps every name leading to a live inode if and only if no other live directory names it |
| Paths.WalkResolves | src/fs/unix/directory.cpp:202-228 | with a free cache slot a walk through the cache is the walk through the maps |
| Paths.WalkResolvesIff | src/fs/unix/directory.cpp:202-228 | with whatever cache, a walk finds what the maps say or nothing; it differs from the maps if and only if they name an inode and the walk meets one that cannot be opened |
| Paths.FullCache | src/fs/unix/directory.cpp:202-228 | with a cache full of other inodes a name the maps have is not found |
| Paths.LiveWalk | src/fs/unix/directory.cpp:202-228 | while every name leads to a live inode, a walk from a live one meets no dead inode and ends at a live one or nowhere |
| Paths.DeadOnStep | src/fs/unix/directory.cpp:202-228 | a walk goes on from a live inode as the maps say, and ends at the first dead one |
| Paths.WalkLast | src/fs/unix/directory.cpp:202-264 | with whatever cache, walking a whole path is walking to its parent and taking one more step |
| Directories.DirectoryManager.StepInto | src/fs/unix/directory.cpp:214-226 | one get-lookup-put step finds what the map says, whatever the number; at a live inode it leaves every reference count, the inode table, the free list and all data as they were; at a dead one it finds nothing and returns its number once more; the invariants hold afterwards if and only if it met no dead inode |
| Directories.DirectoryManager.NameI | src/fs/unix/directory.cpp:202-228 | resolves any path as the maps say: from the root if it begins with a slash, whatever the current directory, and from the current directory otherwise, whatever the root; the last name is looked up in the map of the directory before it; leaves every reference count, the inode table and all data as they were unless the walk meets a dead inode, whose number it then returns once more; while names lead to live inodes it meets none and ends at a live inode or at no inode |
| Directories.DirectoryManager.NameIParent | src/fs/unix/directory.cpp:233-264 | returns the last name and the inode to look it up in, walked to from the same start: what that inode's map says of the name is where the whole path leads; the same holds of the state |
| FatChains.ChainIsLinked | src/fs/fat16/fat16_fs.cpp:688-711 | walking the table from a chain's head visits its clusters in order and meets the end mark exactly at the last one |
| FatChains.Disjoint | src/fs/fat16/fat16_fs.cpp:688-711 | no chain visits a cluster twice and no two chains share one |
| FatChains.ChainLength | src/fs/fat16/fat16_fs.cpp:950-954 | chains are finite: no longer than the 2062 clusters of the data area |
| FatChains.NewChain | src/fs/fat16/fat16_fs.cpp:688-696 | marking a free cluster as an end keeps the partition, with one more chain |
| FatChains.ChainsJoined | src/fs/fat16/fat16_fs.cpp:284-287 | linking a one-cluster chain behind another keeps the partition, with the two joined |
| FatChains.HeadFreed | src/fs/fat16/fat16_fs.cpp:703-708 | clearing the head of a chain keeps the partition; what followed is a chain of its own |
| FatChains.HeadSplit | src/fs/fat16/fat16_fs.cpp:190-191 | marking the head as an end keeps the partition; what followed is a chain of its own |
| FatChains.FreedClusters | src/fs/fat16/fat16_fs.cpp:700-711 | the clusters made free are exactly those the walk passed |
| FatChains.WholeChainFreedIff | src/fs/fat16/fat16_fs.cpp:703-703 | freeing releases the whole chain if and only if it has at most 2000 clusters |
| FatChains.TailLeftBehind | src/fs/fat16/fat16_fs.cpp:700-711 | freeing a chain of 2001 clusters leaves its last cluster allocated, as a chain nothing names |
| FatChains.SplitThenFreed | src/fs/fat16/fat16_fs.cpp:190-192 | splitting off the head and freeing the rest leaves a chain of one, and a leaked tail only beyond 2001 clusters |
| Fat16FileSystem.Fat16Fs.AllocCluster | src/fs/fat16/fat16_fs.cpp:688-696 | takes the lowest free cluster as a new chain of one, keeps the partition, and fails exactly when none is free |
| Fat16FileSystem.Fat16Fs.FreeClusterChain | src/fs/fat16/fat16_fs.cpp:700-711 | frees exactly the first min(length, 2000) clusters of the chain, keeps the partition and all file data; a reserved or end number frees nothing |
| Fat16FileSystem.Fat16Fs.Truncate | src/fs/fat16/fat16_fs.cpp:189-195 | leaves the first cluster as the chain and size 0, frees the rest, keeps the partition and every other chain |
| Fat16FileSystem.Fat16Fs.NextOrGrow | src/fs/fat16/fat16_fs.cpp:280-293 | moves to the next cluster, growing the chain by a zeroed one at its end; fails exactly at the end with no free cluster, changing nothing |
| Fat16FileSystem.Fat16Fs.LastCluster | src/fs/fat16/fat16_fs.cpp:950-954 | the unguarded walk terminates and returns the last cluster of the chain |
| Fat16FileSystem.Fat16Fs.AppendDirEntry | src/fs/fat16/fat16_fs.cpp:914-965 | stores the 32 bytes of the entry over the first slot whose first byte is 0 or 0xE5, of the root block or of the first 2000 clusters of a directory chain, or at the start of a new cluster of the chain, and changes no other byte of the root or of any chain; fails, changing nothing, exactly when every slot looked at is in use and the directory is the root or no cluster is free |
| Fat16FileSystem.Fat16Fs.CreateFile | src/fs/fat16/fat16_fs.cpp:144-167 | in the root or a subdirectory, a new file gets one zeroed cluster; its entry goes to the first slot marked 0 or 0xE5, or behind the last one, and holds the name given, the new cluster's number low byte first, and size 0; both table copies are saved; a failed create gives the cluster back and leaves table, chains, sizes, the root and the bytes of every chain as they were, with both table copies saved if a cluster had been taken |
| Fat16FileSystem.Fat16Fs.Format | src/fs/fat16/fat16_fs.cpp:74-104 | all 2062 clusters are free, the two reserved entries hold their marks, no chain exists, both copies on disk hold the table |
| FatDisks.LoadFlushed | src/fs/fat16/fat16_fs.cpp:976-1003 | loading the table from a flushed disk restores every entry, and so every chain |
| FatDisks.FatLayout | src/fs/fat16/fat16_fs.cpp:976-1003 | a copy that holds the table has entry c in the two bytes at 2c, low byte first |
| Fat16FileSystem.Fat16Fs.FlushFat | src/fs/fat16/fat16_fs.cpp:991-1003 | both copies on disk hold every entry, are the same block for block, and no block outside them changes |
| Fat16FileSystem.Fat16Fs.InitFatFromDisk | src/fs/fat16/fat16_fs.cpp:976-987 | every entry becomes the little-endian word of the first copy |
| FatFiles.GrownStored | src/fs/fat16/fat16_fs.cpp:284-290 | growing a chain by a zeroed cluster does not change its bytes |
| FatFiles.StoredIsOverlay | src/fs/fat16/fat16_fs.cpp:260-342 | a write at or before the recorded end makes the file the overlay of its old bytes with the data |
| FatFiles.WroteIsOverlay | src/fs/fat16/fat16_fs.cpp:260-342 | the same for the file as a read sees it, and the chain still covers the recorded size |
| FatFiles.OtherContent | src/fs/fat16/fat16_fs.cpp:260-342 | a write leaves every other file's chain and bytes alone |
| FatFiles.ClustersInOrder | src/fs/fat16/fat16_fs.cpp:668-670 | cluster 2 is the first block of the data area, the last cluster is the last block of the disk, and consecutive clusters lie in consecutive blocks |
| FatFiles.GapIsZeroIff | src/fs/fat16/fat16_fs.cpp:279-294 | after a write past the recorded end the bytes of the chain, continued with zeros behind its end, are zero-filled up to the offset if and only if those already in the chain were zeros |
| FatFiles.ZeroFilledIff | src/fs/fat16/fat16_fs.cpp:260-342 | after any write the file as a read sees it is its old bytes padded with zeros to the offset and overlaid with the data if and only if the chain held zeros in the gap and the file is now exactly that long |
| FatFiles.CoveredZeroFilledIff | src/fs/fat16/fat16_fs.cpp:260-342 | when the chain covered the recorded size, if and only if the chain held zeros in the gap and now reaches the offset |
| FatFiles.TruncatedThenWritten | src/fs/fat16/fat16_fs.cpp:189-342 | a file truncated through one descriptor and written at the old offset of another reads as the old file in front of the data |
| FatFiles.SizeRaisedForNothing | src/fs/fat16/fat16_fs.cpp:318-337 | in a consistent table with no cluster free, a write past what the chain holds stores nothing and still raises the recorded size beyond the chain |
| FatFiles.FullVolume | src/fs/fat16/fat16_fs.cpp:279-337 | such a table exists: all clusters in two chains; after a write at 1000 to a one-cluster file on a disk of zeros, the file reads as 512 bytes |
| FatFiles.FreeZeroed | src/fs/fat16/fat16_fs.cpp:144-151 | zeroing a newly allocated cluster changes the bytes of no chain |
| Fat16FileSystem.Fat16Fs.WriteChain | src/fs/fat16/fat16_fs.cpp:274-327 | the walk and the store loop write exactly as many bytes as the chain and the free clusters have room for; a write that ends early leaves no cluster free and no byte of the chain unused behind it; chain clusters plus free clusters is unchanged |
| Fat16FileSystem.Fat16Fs.FsWrite | src/fs/fat16/fat16_fs.cpp:260-342 | a full disk gives a prefix write of exactly the bytes there is room for, correctly recorded; for offset <= size the file becomes the overlay; at any offset the file a read sees becomes the zero-padded overlay if and only if the offset was within what the chain and the free clusters could hold and the chain held zeros between size and offset; a short write leaves no cluster free and no byte of the chain unused; the recorded size becomes the larger of the old one and the end of the write, and every other file keeps chain, size and bytes; the chain covers the recorded size afterwards if and only if the offset was within reach |
| Fat16FileSystem.Fat16Fs.ReadChain | src/fs/fat16/fat16_fs.cpp:229-252 | the skip and copy loops return exactly the slice of the chain's bytes |
| Fat16FileSystem.Fat16Fs.FsRead | src/fs/fat16/fat16_fs.cpp:216-256 | fails exactly on a bad descriptor or one not open for reading; returns exactly the slice of the file at the descriptor's offset, up to the length asked for, the recorded size or the end of the chain, and moves the offset by its length; no other descriptor moves |
| OpenFileTables.OpenFileTable.AllocFd | src/core/open_file_table.cpp:20-72 | the lowest free descriptor of the user points at a fresh instance; fails exactly for an unknown user or a full table; no other descriptor changes and every count stays the number of descriptors pointing at its entry |
| OpenFileTables.OpenFileTable.FreeFd | src/core/open_file_table.cpp:77-90 | frees one descriptor, drops one count, zeroes the instance with its last descriptor, and changes no other descriptor and no other instance |
| OpenFileTables.OpenFileTable.CloseAll | src/core/open_file_table.cpp:131-140 | empties one user's row, keeps counts exact, and changes no other user's descriptor |
| OpenFileTables.OpenFileTable.SetOffset | src/core/open_file_table.cpp:109-115 | moves the offset of the instance behind the descriptor and of no other |
| Globs.GlobMatch | src/shell/command_registry.cpp:25-44 | the single-star backtracking loop terminates and decides exactly what full backtracking over that loop's own steps decides |
| Globs.Overtaken | src/shell/command_registry.cpp:35-37 | anything a later start of a stretch of pattern could accept passes the end of the stretch no earlier, which is why only the last star need be saved |
| Globs.NewStar | src/shell/command_registry.cpp:32-34 | a new star makes every earlier saved star superfluous |
| Globs.Sound | src/shell/command_registry.cpp:25-44 | the matcher never accepts a name its pattern does not cover, whatever the name |
| Globs.Complete | src/shell/command_registry.cpp:25-44 | for names without a star the matcher equals the recursive meaning of `*` and `?` |
| Globs.RightIffNoStar | src/shell/command_registry.cpp:25-44 | for a given name the matcher is right about every pattern if and only if the name holds no star |

## Left out

- The terminal interface, command handlers, host file save and load, `sync` and the operation log: external input and output.
- Clock readings are parameters; user accounts and permission checks are not modelled, nor is the mounted flag.
- FAT names: 8.3 truncation, case folding and path lookup. A file's directory entry is a record of first cluster and size; `AppendDirEntry` works on the raw 32 bytes of an entry and looks only at the first byte of a slot.
- FAT deletion of entries, mkdir, rmdir, stat and the unused `write_cluster_chain`.
- Symlinks, recursive deletion, chdir's display path, stat and chmod.
- The UNIX engine's path-level create, delete, mkdir, rmdir and link, which combine the modelled inode, directory and path operations; their parent may be a regular file, which the program does not check.
- `fs_open` drops its inode reference, so a descriptor does not keep a deleted inode alive. Reads through a descriptor cover that; writes ask for a live inode (UNIX), and FAT reads and writes for an allocated chain.
- UnixFileSystem.UnixFs.FsWrite: asks for a live inode, because through a stale number the inode is destroyed again after the write, and a write that filled the disk would then release blocks without the link slot.
- UnixFileSystem.UnixFs.FsRead: asks, like FsWrite, NameI and NameIParent, that no reference count be 65535, because the 16-bit count would wrap to 0; `Get` and `Put` cover that case.
- InodeManagers.InodeManager.Put: destroying an inode that owns blocks asks for s_nfree >= 1, like Truncate and DestroyInode; `ReleaseAllSafeIff` shows that without it no free list is left to speak of.
- UnixFileSystem.UnixFs.FsFormat: describes a format with an empty inode cache, which the program does not empty itself.
- UnixFileSystem.UnixFs.FsMount: describes a mount by a file system whose inode cache is empty; the program reads the super block and leaves the cache as it is.
- The FAT boot sector, which format writes and mount checks.
- The FAT size field of a directory entry is a map from first clusters to sizes; the directory block rewritten by write and truncate is not modelled.
- The inode rescan when the stack of 50 numbers is empty is not implemented in the program, so allocation then fails.
- Local buffers and entry vectors are values; the padding bytes of the on-disk inode record are zero.
- The tenth address of an inode is reserved and never used.
- Lengths and offsets are unbounded inside a call; the 32-bit offset fields of the open-file table bound them between calls.
