# A verified model of xv6

A model of the parts of xv6 (x86, with semaphores and dining philosophers) whose correctness rests on invariants over
many steps: the crash-safe log over the buffer cache, the file system on top of it, user memory, address spaces, the
process table, semaphores, pipes, the shell's parser and grep's matcher. Code that updates state in place is modelled by
classes and methods, proved against specification functions; protocols are transition systems; pure recursion is functions
and lemmas. `dafny verify dfyconfig.toml` checks everything.

## Files

| file | about |
|---|---|
| Bytes.dfy | bytes, little-endian words, bits of a bitmap block |
| LogDisk.dfy | the block writes of commit and recovery, and what a crash between any two of them means |
| LogProtocol.dfy, LogRuns.dfy, LogLimits.dfy | the log under concurrent operations and crashes, as a transition system, the way back to rest, and the runs that break it |
| BufferCache.dfy | bio.c: buffers, the doubly linked LRU list, coherence with the disk |
| Log.dfy | log.c run on the buffer cache; its disk writes are the lists of LogDisk |
| Volume.dfy | the file system on disk as values: bitmap, inodes, block addresses, contents |
| Space.dfy | free blocks and missing blocks: what a write needs, and what it has taken |
| Fs.dfy, File.dfy, Dir.dfy | fs.c and filewrite on such a volume |
| LinkCount.dfy, Names.dfy, Sysfile.dfy | link counts as in-degrees, what a name leads to; link, unlink and create as steps of the tree |
| DiskFormat.dfy | the disk's structures byte by byte: inodes, bitmap, log header, directory entries, contents |
| LinkBounds.dfy, LinkRoom.dfy | how many links an inode can have, in a tree and on a volume |
| Budget.dfy | the blocks that link, create and unlink log |
| VolumeLayout.dfy, FullChunk.dfy, WideDir.dfy | volumes laid out from nothing: one on which a chunk of filewrite uses its whole budget, and one on which an unlink goes over it |
| Mkfs.dfy | mkfs.c: the image built file by file |
| Durable.dfy | the file system on the log: what a crash takes the volume back to, and that a transaction of filewrite goes through |
| FreeList.dfy, Umalloc.dfy | the user heap: its free list as values, and malloc and free |
| PageTable.dfy, Frames.dfy, Vm.dfy, Mmu.dfy | two-level page tables, the frames they take, the frame pool, address spaces, and what the hardware makes of them |
| Proc.dfy, ProcRuns.dfy | the process table as a transition system, its loops, and what its runs lead to |
| Philosophers.dfy | semaphores and philosophers, for any number of them |
| Pipe.dfy | the ring buffer with wrapping counters and its sleepers |
| ShellGrammar.dfy, ShellLanguage.dfy, Shell.dfy | the command grammar, what token lists mean by themselves, the lexer and parser, NUL termination |
| Regex.dfy | match, matchhere, matchstar against the language of a pattern |

## What turned out not to hold, and exactly when it does

- `begin_op` reserves against LOGSIZE, but the log that `mkfs` makes has LOGSIZE blocks with the header, one slot fewer.
  Keeping to the budget prevents the panic of `log_write` if and only if the log has LOGSIZE + 1 blocks
  (`BudgetSufficesIff`). The full-log test also precedes absorption (`AbsorbedWritePanics`).
- `log_write` makes that test without `log.lock`. With the log of `mkfs` two processes within their budgets can both pass it
  and name one block more than the log has slots for (`Race`); operations within their budgets never do so, and are never
  torn by a crash, if and only if the log has LOGSIZE + 1 blocks or only a header (`RoomIff`, `CrashSafetyIff`).
- A commit finds a buffer for its log blocks if and only if the transaction has fewer than NBUF blocks, and
  LOGSIZE equals NBUF (`CommitHasBuffer`); such a log comes about (`FullLog`).
- A file or directory created in a directory that has been unlinked, or a file linked there, has a link count without a
  link: `create` and `link` keep counts equal to in-degrees if and only if the parent is still linked
  (`CreateNeedsLinkedParent`, `LinkNeedsLinkedParent`); such a directory comes about (`UnlinkedDirectory`).
- `nlink` is a signed short: `link` does what it says if and only if the inode has fewer than 32767 links (`SysLink`). A
  file with that many comes about in a tree (`ManyLinks`), but on no volume with at most 1024 data blocks
  (`SmallVolumes`), and FSSIZE is 1000. The count of a directory never gets there (`DirCountFits`).
- MAXOPBLOCKS is meant to bound the blocks that any call logs. It does for `link` and `create` (`LinkCall`, `CreateCall`). An
  `unlink` that frees its inode can log every bitmap block of the data area: in a layout with more than one block of
  inodes it always keeps to MAXOPBLOCKS if and only if there are at most seven of them (`UnlinkCall`, `OverBudget`).
- `mkfs` rounds the size of the root directory up by a block that it has not allocated when the entries fill their blocks;
  the file system can start on its volume if and only if they do not (`MakeVolume`), and thirty files do it
  (`ThirtyFiles`).
- `mkfs` does not compare the names it is given: in its root names are unique if and only if those differ (`FormattedUnique`), and
  an unlinked name is gone if and only if its directory had it once (`UnlinkLookup`). Every run keeps unique names unique
  (`NamesStayUnique`).
- `malloc` returns a block of at least the size asked for if and only if rounding up does not wrap
  (`PayloadLargeEnough`), and `sbrk` is asked for the units meant if and only if there are fewer than 2^28
  (`BreakArgument`).
- `growproc` keeps a process's size equal to its mapped memory except when it shrinks to nothing (`GrowProc`).
- `kill` marks free slots too and `fork` does not clear the mark: a process is born killed if and only if its slot was
  killed since it was last reaped (`KilledExactly`); such a process comes about (`BornKilled`).
- A command line is read back as the command it was printed from if and only if no simple command has more than
  MAXARGS - 1 arguments (`RoundTrip`).
- A killed writer that fills an empty pipe leaves sleeping readers asleep; in every other case the sleepers of a pipe
  stay right (`Write`, `LostWakeup`).

## Model

| member | source | states |
|---|---|---|
| LogDisk.HeaderRoundTrip | xv6-core/log.c:84-113 | the header block written by write_head reads back as the same list of blocks |
| LogDisk.InterruptedInstall | xv6-core/log.c:69-82 | a crash at any point of installation leaves a disk that still means the same home blocks |
| LogDisk.CompleteRecovery | xv6-core/log.c:115-122 | a complete recovery leaves the home blocks the disk meant, and an empty log |
| LogDisk.InterruptedRecovery | xv6-core/log.c:115-122 | a recovery interrupted between any two writes does not change what the disk means |
| LogDisk.HeaderIsCommitPoint | xv6-core/log.c:98-113 | from the header write on the disk means the new contents, and the rest of commit is what recovery would do |
| LogDisk.InterruptedCommit | xv6-core/log.c:177-202 | after any k writes of commit the disk means exactly the old contents up to the header write and exactly the new ones from it on |
| LogDisk.CompleteCommit | xv6-core/log.c:192-202 | a complete commit installs exactly the new contents and empties the log |
| LogDisk.CrashAtomicity | xv6-core/log.c:69-122 | after a crash in commit, any number of interrupted recoveries and a complete one, the home blocks are all old or all new, new exactly when the header had reached the disk |
| LogProtocol.StepInv | xv6-core/log.c:124-233 | every step of every process, log_write's test apart from its section under the lock, of commit, of recovery and every crash keeps the invariant of the log |
| LogProtocol.CrashSafety | xv6-core/log.c:124-202 | in every run in which the header has had room for its blocks, a crash now and recovery give the initial disk with exactly the durable logged writes applied in order, and no operation is cut in two |
| LogProtocol.QuietMeansDurable | xv6-core/log.c:143-174 | with no operation and no commit in progress everything logged is durable and disk and cache agree |
| LogProtocol.DurableForever | xv6-core/log.c:115-122 | no later step, crashes included, loses or reorders a durable write |
| LogProtocol.Admission | xv6-core/log.c:125-174 | log contents plus unused budgets never exceed LOGSIZE; a commit runs only with no operation in progress; while somebody sleeps in begin_op a commit runs, or operations are in progress and with ten blocks for each and for one more the log would pass thirty, so a wakeup is still to come |
| LogProtocol.AdmittedExactly | xv6-core/log.c:124-141 | begin_op admits a process exactly when no commit runs and the blocks logged, with ten for each operation in progress and for its own, are at most thirty; otherwise it sleeps |
| LogProtocol.NoPanicWithBudget | xv6-core/log.c:213-233 | log_write does not panic for an operation with budget left when the log has LOGSIZE + 1 blocks |
| LogProtocol.BudgetFits | xv6-core/log.c:124-233 | operations within their budgets never overfill the header of a log of LOGSIZE + 1 blocks, although the test for that is made without the lock |
| LogRuns.AlwaysAtRestAgain | xv6-core/log.c:124-202 | from every state of every run, crashes included, the operations can end and the commit or recovery complete without a crash: everything logged is then durable, disk and cache agree, nobody waits and everybody is admitted |
| LogLimits.SmallLogPanics | xv6-core/mkfs.c:22-30 | with the log size of mkfs a run within all budgets fills the log |
| LogLimits.BudgetSufficesIff | xv6-core/log.c:132-220 | within-budget runs never fill the log if and only if the log has at least LOGSIZE + 1 blocks |
| LogLimits.AbsorbedWritePanics | xv6-core/log.c:218-230 | once LOGSIZE blocks are logged even a write that would be absorbed panics |
| LogLimits.Race | xv6-core/log.c:218-231 | with the log of mkfs two processes within their budgets pass the test together and the header names more blocks than there are slots |
| LogLimits.RoomIff | xv6-core/log.c:218-231 | within-budget runs never overfill the header if and only if the log has at least LOGSIZE + 1 blocks or none besides the header |
| LogLimits.CrashSafetyIff | xv6-core/log.c:115-233 | within-budget runs are crash-safe if and only if the same holds of the log's size |
| Durability.CrashGoesBack | xv6-core/log.c:98-202 | a crash takes every home block back to what the cache held when the last header was written, a moment with no operation in progress |
| Durability.VolumeSurvives | xv6-core/log.c:69-202 | if the volume is well-formed, without holes and with right link counts whenever no system call is in progress, so it is after every crash and recovery |
| Durability.SameVolumeStands | xv6-core/fs.h:5-27 | that is a property of the blocks from the inodes on, which the log does not overlap |
| Durability.ShowsStands | xv6-core/sysfile.c:118-283 | a volume that holds a tree with right counts, as every system call leaves it, is such a volume |
| Durability.WritesGoThrough | xv6-core/log.c:213-233 | in every state of an operation that may log, any list of calls of log_write goes through as Test and LogWrite steps, without a panic and with the cache it should give, if all but the last are for fewer than MAXOPBLOCKS different blocks |
| Durability.ChunkGoesThrough | xv6-core/file.c:137-146 | so does a transaction that logs what Transact logs, the block of the inode last |
| Durability.ThriftyNeverPanics | xv6-core/log.c:124-233 | no log_write of any run panics if each is called with fewer than MAXOPBLOCKS different blocks logged by its operation; blocks that others logged, or logged again, do not count |
| BufferCache.Unlink | xv6-core/bio.c:131-132 | taking a buffer out leaves the remaining ring doubly linked through the head |
| BufferCache.PushFront | xv6-core/bio.c:133-136 | putting a buffer in front leaves the longer ring doubly linked through the head |
| BufferCache.BCache.constructor | xv6-core/bio.c:38-56 | binit links all NBUF buffers in one ring, none of them holding a block |
| BufferCache.BCache.Find | xv6-core/bio.c:67-76 | finds the buffer of a block exactly when there is one |
| BufferCache.BCache.FindVictim | xv6-core/bio.c:78-92 | finds the unreferenced clean buffer released longest ago, never-released ones first, or proves there is none |
| BufferCache.BCache.BGet | xv6-core/bio.c:61-93 | returns the block's buffer or recycles the oldest clean one; panics exactly when there is neither; no block loses its contents and no block gets two buffers |
| BufferCache.BCache.BRead | xv6-core/bio.c:95-106 | returns a locked buffer with the latest contents of the block |
| BufferCache.BCache.Load | xv6-core/memide.c:38-60 | reading a block from disk gives its latest contents, because a block that differs from the disk is cached |
| BufferCache.BCache.BWrite | xv6-core/bio.c:108-116 | the block's home on disk gets the buffer's contents, the buffer is clean, and nothing else changes |
| BufferCache.BCache.BRelse | xv6-core/bio.c:118-141 | the last release moves the buffer to the front and keeps the ring, the order of releases and coherence |
| BufferCache.BCache.OnlyPinnedDiffer | xv6-core/bio.c:61-116 | with no buffer in use a block differs from the disk only if its buffer is pinned |
| BufferCache.BCache.CleanBufferLeft | xv6-core/bio.c:78-92 | some buffer is clean if and only if fewer than NBUF blocks are pinned |
| LogManager.Log.LogWrite | xv6-core/log.c:213-233 | names the block in the header once and pins its buffer, without touching the disk; panics exactly when the log is full or no operation is outstanding |
| LogManager.Log.BeginOp | xv6-core/log.c:124-141 | admitted exactly when no commit runs and the blocks logged, with a whole budget for every operation outstanding and for this one, are at most LOGSIZE; one turn of the loop is the begin or the sleep step of the transition system, from any of its states that the log is in |
| LogManager.Log.WriteLog | xv6-core/log.c:176-190 | writes to disk exactly the cached contents of the named blocks, each to its log slot, and to no home block |
| LogManager.Log.WriteHead | xv6-core/log.c:98-113 | writes exactly the header block, naming the in-memory list |
| LogManager.Log.InstallTrans | xv6-core/log.c:69-82 | writes exactly the log slots to the home blocks they are for |
| LogManager.Log.Commit | xv6-core/log.c:192-202 | the header's blocks are a transaction, and commit causes exactly the block writes whose crashes LogDisk covers |
| LogManager.Log.Committed | xv6-core/log.c:192-202 | after those writes the disk's home blocks are what the cache held and the log is empty |
| LogManager.Log.EndOp | xv6-core/log.c:143-174 | the last operation out makes the home blocks on disk those of the cache; others change nothing on disk; panics exactly during a commit |
| LogManager.Log.ReadHead | xv6-core/log.c:84-96 | the in-memory header becomes the one on disk |
| LogManager.Log.RecoverFromLog | xv6-core/log.c:115-122 | on any well-formed log recovery causes exactly the writes of LogDisk; the home blocks are then those the disk meant and the log satisfies its invariant, empty |
| LogManager.Log.CommitHasBuffer | xv6-core/log.c:177-190 | commit finds a buffer to recycle if and only if fewer than NBUF blocks are logged |
| LogManager.FullLog | xv6-core/log.c:124-233 | three operations that begin_op admits log NBUF blocks in a log of LOGSIZE + 1 blocks, so that no buffer can be recycled |
| Volume.FreeIsUnowned | xv6-core/fs.c:56-78 | a block with a clear bitmap bit is in the data area and is nobody's |
| Volume.AllocateKeeps | xv6-core/fs.c:56-78 | allocating such a block keeps the volume well-formed, every address and every file |
| Volume.SetAddr | xv6-core/fs.c:378-383 | a new direct or indirect address keeps one owner for every block |
| Volume.SetEntry | xv6-core/fs.c:385-397 | so does a new entry in an indirect block, and no file's bytes change |
| Volume.WriteFileBlock | xv6-core/fs.c:498-504 | writing one block of a file changes that block of that file alone |
| Volume.ReleaseKeeps | xv6-core/fs.c:81-95 | clearing the bit of an unowned block keeps the volume well-formed |
| Volume.WordsRoundTrip | xv6-core/fs.h:29-37 | an inode encoded into its words decodes to itself |
| Volume.StoreInode | xv6-core/fs.c:220-236 | storing one inode in its block changes what the disk says of that inode alone |
| DiskFormat.Areas | xv6-core/mkfs.c:23-27 | the bitmap takes the fewest blocks with more bits than there are blocks, and the data area follows it, at block 59 on the volume of mkfs |
| DiskFormat.InodeFields | xv6-core/fs.h:29-48 | type, devices, count, size and addresses of an inode are the little-endian fields of its 64 bytes, eight inodes to a block |
| DiskFormat.TreeFields | xv6-core/fs.h:29-37 | on a volume that holds a tree the type is 1 for a directory and 0 for a free inode, and the count the signed short there |
| DiskFormat.BitmapBit | xv6-core/fs.h:44-48 | a block is in use exactly if its bit is set, 4096 bits to a block, the lowest of a byte first |
| DiskFormat.HeaderFields | xv6-core/log.c:31-37 | the header of the log is a count and that many block numbers, four bytes each |
| DiskFormat.EntryFields | xv6-core/fs.h:50-57 | a directory entry is 16 bytes: two of inode number and the name up to a NUL or its fourteenth byte |
| DiskFormat.ContentsByte | xv6-core/fs.c:364-400 | a byte of a file is in the block that one of twelve addresses gives, or that of the indirect block |
| Volume.ReplacedContents | xv6-core/fs.c:482-511 | block-level replacement of bytes is replacement in the file's byte sequence |
| Space.MissingSplit | xv6-core/fs.c:364-400 | what blocks lo .. hi of a file are missing is what a first part is missing and what is still missing after it |
| Space.FilledMore | xv6-core/fs.c:364-400 | two allocations for a file, one after the other, take exactly the blocks that both together were missing, all of them free before |
| Space.AllocatedFree | xv6-core/fs.c:56-78 | allocating a free block leaves one free block fewer |
| Space.AddsMore | xv6-core/log.c:222-229 | two parts of a transaction log together at most what each adds to the blocks logged before it |
| FileSystem.Fs.ScanBitmap | xv6-core/fs.c:60-75 | finds the first clear bit of a bitmap block, or none |
| FileSystem.Fs.BAlloc | xv6-core/fs.c:42-78 | returns a zeroed block that nobody owned and marks it, failing exactly when no block is free; every file keeps its bytes |
| FileSystem.Fs.BFree | xv6-core/fs.c:80-95 | clears exactly the block's bit, and panics exactly if it was clear |
| FileSystem.Fs.BMap | xv6-core/fs.c:364-400 | returns the address of the file's n-th block, allocating exactly what is missing of it and the indirect block, and fails exactly when there are fewer free blocks; no file's bytes change |
| FileSystem.Fs.IUpdate | xv6-core/fs.c:216-236 | the inode on disk becomes the one in memory, and no other |
| FileSystem.Fs.WriteI | xv6-core/fs.c:479-511 | fails exactly in the code's cases and runs out of blocks exactly when fewer are free than the range is missing; otherwise replaces exactly bytes off .. off+n of the file, extends it when needed, changes no other file, keeps ownership and no holes, leaves disk and memory inode equal, and logs besides the inode's block at most the blocks written, the missing ones' bitmap blocks and the indirect block |
| FileSystem.Fs.ReadI | xv6-core/fs.c:451-476 | returns the bytes of the file from off, clipped to its size; allocates and logs nothing |
| FileSystem.Fs.ITrunc | xv6-core/fs.c:402-435 | the file is empty, exactly its blocks' bits are clear, no other file changes, and bfree does not panic; the bitmap blocks of its blocks and the inode's block are logged, and besides them only bitmap blocks |
| FileSystem.Fs.IAlloc | xv6-core/fs.c:190-214 | takes the first free inode, empty; fails exactly when there is none; logs the inode's block alone |
| FileSystem.Fs.IPutLast | xv6-core/fs.c:331-352 | the last reference to an unlinked inode frees exactly its blocks and the inode |
| FileLayer.ChunkFits | xv6-core/file.c:127-133 | no chunk of filewrite, wherever it starts, can log more than MAXOPBLOCKS blocks |
| FullChunk.FullTransaction | xv6-core/file.c:127-146 | some chunk of filewrite logs exactly MAXOPBLOCKS blocks, so the bound is sharp |
| FileLayer.ReachIs | xv6-core/file.c:134-153 | filewrite reaches all n bytes if they fit in the largest file, and else the last multiple of 1536 bytes that does |
| FileLayer.File.Transact | xv6-core/file.c:137-146 | one chunk is one transaction of at most MAXOPBLOCKS blocks, fewer before its last log_write, that replaces exactly its bytes; it runs out of blocks exactly when fewer are free than it is missing |
| FileLayer.File.Write | xv6-core/file.c:117-157 | filewrite replaces the bytes at the offset in one transaction for every 1536 bytes begun, each within the log budget, as far as Reach says, and returns the length exactly when that is all; the disk fills up on the way exactly when the bytes reached are missing more blocks than are free |
| Directory.DirentRoundTrip | xv6-core/fs.h:50-57 | an encoded directory entry decodes to itself |
| Directory.OverwriteEntry | xv6-core/fs.c:570-577 | writing 16 bytes at a slot replaces or appends that entry and no other |
| Directory.DirLookup | xv6-core/fs.c:523-548 | finds the first live entry with the name and its offset, or none; nothing changes |
| Directory.DirLink | xv6-core/fs.c:550-578 | refuses exactly a name that is present; otherwise the entry goes into the first empty slot or at the end, and no other file changes; panics exactly when the file or the disk has no room for it; logs besides the inode's block at most EntryNeed blocks |
| Directory.EntryNeeds | xv6-core/fs.c:550-578 | that is at most four blocks, two while the directory is small, and one if the entry's block is there |
| LinkCount.LinkKeeps | xv6-core/sysfile.c:118-165 | linking keeps link counts equal to in-degrees and the shape of the tree |
| LinkCount.EmptyHasOneLink | xv6-core/sysfile.c:167-181 | an empty directory other than the root has exactly one link |
| LinkCount.NamedIsLinked | xv6-core/sysfile.c:210-211 | an inode that is named has a link, so unlink's panic cannot happen |
| LinkCount.UnlinkKeeps | xv6-core/sysfile.c:183-239 | unlinking in any directory, itself linked or not, keeps link counts equal to in-degrees and the shape of the tree |
| LinkCount.CreateKeeps | xv6-core/sysfile.c:241-283 | so does creating a file or a directory with its dots |
| LinkCount.CreateNeedsLinkedParent | xv6-core/sysfile.c:241-283 | creating a file or a directory keeps the invariant if and only if the parent is still linked |
| LinkCount.LinkNeedsLinkedParent | xv6-core/sysfile.c:118-165 | so does linking a file |
| LinkCount.UnlinkedDirectory | xv6-core/sysfile.c:183-283 | mkdir and unlink reach a tree with an unlinked directory, in which nothing can be created without breaking the invariant |
| LinkCount.ReclaimKeeps | xv6-core/fs.c:331-352 | so does freeing an inode without links |
| LinkCount.FormattedInOrder | xv6-core/mkfs.c:117-163 | the tree mkfs makes satisfies the invariant |
| VolumeLayout.LaidOut | xv6-core/mkfs.c:224-253 | the disk that ialloc and balloc write has exactly the given bitmap, inodes and data blocks |
| Mkfs.AllZero | xv6-core/mkfs.c:108-115 | an image of zeros has only free inodes and no files |
| Mkfs.Img.IAppend | xv6-core/mkfs.c:255-297 | the bytes are at the end of the file and no other file changes; exactly the blocks are taken that the longer file needs; fails exactly when those are not there or the file is too large |
| Mkfs.Img.IAlloc | xv6-core/mkfs.c:223-235 | the next inode has one link and no contents, and no other changes |
| Mkfs.Img.AddFiles | xv6-core/mkfs.c:130-156 | the root has the names and the inodes after it the files, with their contents |
| Mkfs.Img.FixRoot | xv6-core/mkfs.c:158-163 | the image has no holes if and only if the entries did not fill the blocks of the root, whose new entries are then empty |
| Mkfs.Img.BAlloc | xv6-core/mkfs.c:237-253 | the blocks in use, and no others, have their bits set, exactly when one bitmap block has them all; the volume is then well-formed |
| Mkfs.TotalMore | xv6-core/mkfs.c:130-156 | one file more takes the blocks of its contents, its indirect block and what its entry adds to the root |
| Mkfs.MakeVolume | xv6-core/mkfs.c:67-168 | mkfs makes a volume if and only if inodes, blocks and sizes suffice; that volume is well-formed, has in use exactly the blocks its files take, and every file has its contents; it holds the tree that LinkCount starts from if and only if the root's entries do not fill their blocks |
| Mkfs.ThirtyFiles | xv6-core/mkfs.c:158-163 | thirty empty files on a volume of mkfs's size fit and fill a block of the root |
| LinkCount.RunsKeepCounts | xv6-core/sysfile.c:118-283 | every run of link, unlink, create and reclaim under linked parents keeps the invariant |
| LinkCount.LinkCountsAreInDegrees | xv6-core/sysfile.c:118-283 | from a fresh volume on, in every run, nlink is the number of entries not named "." in linked directories that name the inode |
| Names.LinkLookup | xv6-core/sysfile.c:118-165 | after link the name leads to the inode, and every other name in every directory where it did |
| Names.CreateLookup | xv6-core/sysfile.c:241-283 | so after create; a new directory has its dots and no other name |
| Names.UnlinkLookup | xv6-core/sysfile.c:183-239 | after unlink the name leads nowhere if and only if no other entry of the directory had it; every other name leads where it did |
| Names.NamesStayUnique | xv6-core/sysfile.c:118-283 | in every run from a tree in order, names in a directory stay unique if they were |
| Names.UnlinkedIsGone | xv6-core/sysfile.c:183-239 | so there an unlinked name is gone |
| Names.FormattedUnique | xv6-core/mkfs.c:130-156 | the names in the tree that mkfs makes are unique if and only if those it is given differ from each other, from "." and from ".." |
| LinkBounds.DirLinksBound | xv6-core/sysfile.c:241-283 | a linked directory has fewer links than entries, since each of its subdirectories has an entry in it |
| LinkBounds.FileLinks | xv6-core/sysfile.c:118-165 | a file has at most as many links as the linked directories have entries besides their dots |
| LinkBounds.ManyLinks | xv6-core/sysfile.c:118-165 | a run of mkdir, create and link from a fresh tree gives a file 32767 links, with no directory of more than 4098 entries |
| LinkRoom.LinksFit | xv6-core/sysfile.c:118-165 | a file has at least two links fewer than the data blocks have room for entries, 32 a block |
| LinkRoom.SmallVolumes | xv6-core/param.h:13-13 | on a volume with at most 1024 data blocks every inode has fewer than 32767 links |
| Sysfile.DirCountFits | xv6-core/sysfile.c:269-271 | on every volume a directory has fewer than 4480 links, so that mkdir does not wrap its parent's count |
| Sysfile.SysLink | xv6-core/sysfile.c:118-165 | refuses exactly in the code's cases and leaves the tree as it was; otherwise succeeds exactly when there is room for the entry, and is then the tree's link step if and only if the inode had fewer than 32767 links; adds to the log the blocks of two inodes and of the entry |
| Sysfile.IsDirEmpty | xv6-core/sysfile.c:167-181 | tells exactly whether every entry past the dots is empty |
| Sysfile.SysUnlink | xv6-core/sysfile.c:183-239 | performs the tree's unlink step exactly when it is allowed, changes nothing otherwise, and does not panic, in any directory; adds to the log the blocks of two inodes and of the entry |
| Sysfile.CreateInode | xv6-core/sysfile.c:241-283 | returns an existing file, refuses another existing name, or makes the inode, exactly when one is free and there is room for the entry and the dots; it is then the tree's create step |
| Sysfile.Release | xv6-core/fs.c:331-352 | performs the tree's reclaim step; logs the bitmap blocks of the inode's blocks and its own block, and besides them only bitmap blocks |
| Budget.LinkCall | xv6-core/sysfile.c:118-165 | the transaction of link logs at most six blocks |
| Budget.CreateCall | xv6-core/sysfile.c:241-283 | that of create logs at most nine |
| Budget.UnlinkCall | xv6-core/sysfile.c:183-239 | that of unlink, with the iput at its end, logs at most three blocks and the bitmap blocks of the data area; when it frees the inode, at least the bitmap blocks of its blocks, its own block, the entry's, and for a directory the parent's |
| WideDir.OverBudget | xv6-core/param.h:10-10 | in every layout with nine or more inodes and eight or more bitmap blocks of the data area some unlink on some volume in order logs more than MAXOPBLOCKS blocks |
| Umalloc.Heap.FindPlace | xv6-core/umalloc.c:30-32 | free's search terminates from any starting point at the last hole below the block |
| Umalloc.Heap.Free | xv6-core/umalloc.c:24-44 | the block returns to the list joined to the holes it touches; the list stays circular, ordered and coalesced, and no other allocation is written |
| Umalloc.Heap.MoreCore | xv6-core/umalloc.c:46-61 | fails exactly when sbrk does; otherwise at least 4096 units of new memory, and exactly the units asked for above that, are freed into the list and one hole has the units asked for; the list is otherwise what it was |
| Umalloc.Heap.Search | xv6-core/umalloc.c:74-89 | one turn round the list finds the first hole after freep that is large enough, exactly when there is one |
| Umalloc.Heap.Malloc | xv6-core/umalloc.c:63-90 | calls morecore once exactly when nothing fits, and asks it for at least 4096 units; the block is then the end of the first hole after freep that is large enough, and freep is left before it; it meets no other block, no other allocation is written, and free plus allocated units are what sbrk gave |
| Umalloc.Heap.Serve | xv6-core/umalloc.c:46-90 | a program whose mallocs need at most 4096 units together gets more memory once; every block comes from it, the first from its end and each right below the one before |
| FreeList.InsertedOrdered | xv6-core/umalloc.c:33-43 | freeing keeps the list ordered with nothing left to coalesce |
| FreeList.InsertedLinked | xv6-core/umalloc.c:33-43 | the two headers free writes make memory hold the new list |
| FreeList.Freed | xv6-core/umalloc.c:24-44 | freeing keeps the heap sound and the number of units |
| FreeList.TakenSound | xv6-core/umalloc.c:75-85 | so does allocating from a hole, exactly or by splitting |
| FreeList.FreeUndoesMalloc | xv6-core/umalloc.c:24-90 | freeing a block just allocated from the list restores the list and the allocations exactly |
| Umalloc.PayloadLargeEnough | xv6-core/umalloc.c:69-69 | the block holds nbytes if and only if nbytes is at most 2^32 - 8 |
| Umalloc.UnitsLeast | xv6-core/umalloc.c:69-69 | the units of a block are then the fewest with room for the bytes and a header, and otherwise one |
| Umalloc.BreakArgument | xv6-core/umalloc.c:52-56 | the argument of sbrk is the size meant if and only if there are fewer than 2^28 units |
| PageTable.EntryFields | xv6-core/mmu.h:89-99 | an entry made of a frame and permissions has that frame, those flags and the present bit |
| PageTable.NewTable | xv6-core/vm.c:43-53 | a new table page changes no mapping and keeps one owner for every frame |
| PageTable.MapUser | xv6-core/vm.c:72-72 | mapping a free frame at an unmapped page keeps one owner for every frame |
| PageTable.Unmap | xv6-core/vm.c:269-277 | unmapping a page changes that mapping alone and frees exactly its frame |
| VirtualMemory.JumpIsIdle | xv6-core/vm.c:267-268 | where a table is missing the plain loop does nothing up to where deallocuvm jumps |
| VirtualMemory.Vm.constructor | xv6-core/kalloc.c:31-37 | before kinit the kernel holds every frame and the invariant of memory holds |
| VirtualMemory.Vm.FreeRange | xv6-core/kalloc.c:46-53 | exactly the whole pages of the range go to the pool, the last one first on the list |
| VirtualMemory.Vm.KAlloc | xv6-core/kalloc.c:82-95 | takes a frame that was free, failing exactly when the pool is empty |
| Frames.GapsSplit | xv6-core/vm.c:32-80 | the tables still missing for a range after a first part has got its own |
| Frames.CostNext | xv6-core/vm.c:219-248 | the frames for one page more are those for the pages before it, the page, and its table if none of them has brought it |
| Frames.CostFromNothing | xv6-core/vm.c:313-345 | n pages in an empty address space take n frames and one for each 1024 begun |
| VirtualMemory.Vm.WalkPgdir | xv6-core/vm.c:32-55 | finds the table of a page or makes one, failing exactly when it may not or the pool is empty; no mapping changes |
| VirtualMemory.Vm.MapPages | xv6-core/vm.c:57-80 | maps exactly the pages of the range to consecutive frames, or a first part of them; all of them exactly when the pool has a frame for each missing table |
| VirtualMemory.Vm.SetupKvm | xv6-core/vm.c:117-137 | a new address space with exactly the mappings of kmap, whose entries KernelEntries gives as numbers, exactly when the pool has 65 frames; on failure every frame is free or in use as before |
| VirtualMemory.Vm.AllocUvm | xv6-core/vm.c:219-248 | maps zeroed frames from oldsz to newsz, exactly when the pool has a frame for each page and each missing table; on failure leaves no page of the range mapped, all others as they were, and loses nothing |
| VirtualMemory.Vm.DeallocUvm | xv6-core/vm.c:250-279 | equals, memory and free list, the plain loop over all pages, and unmaps exactly the pages of the range |
| VirtualMemory.Vm.FreeVm | xv6-core/vm.c:281-298 | frees exactly the frames of the address space and touches no other |
| VirtualMemory.Vm.CopyUvm | xv6-core/vm.c:313-345 | the child has the parent's pages below sz, bytes and flags, in its own frames, no other user page, and the kernel's entries, exactly when the pool has the frames of a kernel, of the pages and of their tables; on failure exactly the same frames are free as before; nobody else is touched |
| VirtualMemory.CopyIsFresh | xv6-core/vm.c:313-345 | the frames of the copy were free and are pairwise distinct |
| VirtualMemory.Vm.GrowProc | xv6-core/proc.c:158-180 | succeeds exactly when the pool has the frames to grow, or the process shrinks to more than nothing; pages it had and keeps have their frames and bytes, new ones are zero; the size is that of the mapped memory afterwards, except exactly when it shrinks to nothing |
| Mmu.KernelEntries | xv6-core/vm.c:104-115 | the entries of the kernel as numbers: the first megabyte writable, text and read-only data read-only, then writable memory to PHYSTOP, the devices at their own addresses, and no others |
| Mmu.KernelReaches | xv6-core/vm.c:85-115 | the hardware takes a kernel address of physical memory to the address KERNBASE below it and devices to themselves, without user rights, writable except the text, and faults on every other address above KERNBASE |
| Mmu.UserReaches | xv6-core/mmu.h:89-99 | an address that user code can reach is below KERNBASE, in a frame that belongs to that page of that address space alone |
| Mmu.NothingShared | xv6-core/vm.c:219-345 | no frame can be reached by user code from two address spaces, or from two pages of one |
| Mmu.NewMemory | xv6-core/vm.c:219-248 | memory that allocuvm has added can be read and written by user code and is zero |
| Mmu.MappedBytes | xv6-core/vm.c:219-279 | a size is that of the mapped memory if and only if exactly the addresses of the pages it reaches into are mapped |
| ProcessTable.Wakeup1 | xv6-core/proc.c:456-467 | every process asleep on the channel is runnable; every other process, and every other field, is as before |
| ProcessTable.ExitSection | xv6-core/proc.c:248-266 | exit's section under the lock is the step of the transition system, slot by slot: a zombie here, children passed to init, parent and, for a dead child, init woken if asleep in wait, nothing else changed |
| ProcessTable.WaitScan | xv6-core/proc.c:282-303 | finds the first dead child exactly when there is one, and tells exactly whether there are children |
| ProcessTable.ExitKeeps | xv6-core/proc.c:225-268 | exit keeps the invariant of the table |
| ProcessTable.ReapKeeps | xv6-core/proc.c:270-305 | so does reaping a child |
| ProcessTable.ForkKeeps | xv6-core/proc.c:71-224 | so do the steps of fork, with and without the lock |
| ProcessTable.SchedulerKeeps | xv6-core/proc.c:318-358 | so do the steps of the scheduler, the lock passing across swtch |
| ProcessTable.ProcessKeeps | xv6-core/proc.c:360-454 | so do yield, sleep, the return from them, and wait's sleeping and failing |
| ProcessTable.StepKeeps | xv6-core/proc.c:71-501 | every step keeps the invariant |
| ProcessTable.KilledExactly | xv6-core/proc.c:478-499 | in every run a slot is marked killed if and only if it was killed, in use or not, since wait last cleared it |
| ProcessTable.BornKilled | xv6-core/proc.c:73-101 | a run in which a free slot is killed and the process that fork puts there is runnable and killed |
| ProcessTable.LockFreeTable | xv6-core/proc.c:183-467 | in every run, when ptable.lock is free: RUNNING exactly if one CPU, and only one, has the process; no zombie or free slot is a parent; a process asleep in wait has a child and no dead child |
| ProcessRuns.SleepsUntilWoken | xv6-core/proc.c:418-475 | a process that sleeps on a channel sleeps through every run without a wakeup of that channel or a kill of it, and the first such step makes it runnable |
| ProcessRuns.WaitsUntilWoken | xv6-core/proc.c:270-315 | a process that sleeps in wait sleeps until a child of its exits, init is passed a dead child and it is init, or it is killed, and is then runnable |
| ProcessRuns.TakesUp | xv6-core/proc.c:318-358 | an idle CPU takes up the first runnable process of the table by its own steps and changes nothing else |
| ProcessRuns.FindsNobody | xv6-core/proc.c:318-358 | if nobody is runnable it is where it was, with the lock free |
| ProcessRuns.GoesOnBehind | xv6-core/proc.c:318-396 | when a process gives up its CPU the scheduler goes on with the first runnable process behind it in the table |
| ProcessRuns.GoesOn | xv6-core/proc.c:360-454 | a process taken up after yield, sleep or fork goes on in its own code, and the lock is free |
| ProcessRuns.ForkMakes | xv6-core/proc.c:181-224 | the steps of fork leave a runnable child of the caller in the slot found, and every other slot as it was |
| ProcessRuns.ForkFails | xv6-core/proc.c:195-200 | a fork that finds no memory leaves the table as it was |
| ProcessRuns.DeadUntilReaped | xv6-core/proc.c:225-315 | a process that exits stays dead in its slot in every run until the wait of its parent, or of init after that, frees it |
| ProcessRuns.ExitIsWaitedFor | xv6-core/proc.c:225-315 | when a child exits while its parent sleeps in wait and no slot between theirs is runnable, the same CPU takes up the parent, which frees that child and goes on |
| Philosophers.AcquireKeeps | xv6-core/proc.c:577-595 | sem_acquire keeps value plus holders at one, and sleepers on taken semaphores |
| Philosophers.ReleaseKeeps | xv6-core/proc.c:597-605 | so does sem_release |
| Philosophers.SleepsUntilGivenBack | xv6-core/proc.c:577-605 | in every run a philosopher asleep in sem_acquire stays so, at its place, until that semaphore is released, and then is awake |
| Philosophers.SecondIsNobodysFirst | xv6-core/philosopher.c:15-23 | in the even/odd order a second spoon is somebody's first only around the table's seam |
| Philosophers.SomebodyCanGo | xv6-core/philosopher.c:13-38 | in every state of the invariant some philosopher is awake and its next call goes through |
| Philosophers.Dinner | xv6-core/philosopher.c:5-41 | in every run of two or more philosophers no spoon is in two hands, neighbours do not eat at once, every semaphore's value and holders make one, and there is no deadlock |
| Philosophers.EverybodyCanEat | xv6-core/philosopher.c:13-38 | from every state of every run each philosopher can still come to eat, with both spoons in hand |
| Philosophers.Round | xv6-core/philosopher.c:13-38 | when nobody holds a spoon, three calls of its own bring a philosopher to eat and eight back to where it was, everything as before |
| Pipes.Pipe.Tests | xv6-core/pipe.c:85-106 | the comparisons of wrapping counters mean full and empty |
| Pipes.Pipe.Write | xv6-core/pipe.c:78-98 | exactly the bytes that fit in 512 are stored in order; then the writer is done, fails or sleeps; the sleepers stay right except exactly when a killed writer fills an empty pipe with sleeping readers |
| Pipes.Pipe.Take | xv6-core/pipe.c:100-121 | takes the next stored bytes in order, up to n; sleeps exactly on an empty pipe with writers; the sleepers stay right |
| Pipes.Pipe.Close | xv6-core/pipe.c:59-75 | closing an end wakes the other side and keeps the sleepers right |
| Pipes.Pipe.NeverBothAsleep | xv6-core/pipe.c:78-121 | while the sleepers are right, readers and writers never sleep together |
| Pipes.LostWakeup | xv6-core/pipe.c:85-89 | the one case: a reader asleep beside a full pipe |
| ShellGrammar.ParsePrinted | xv6-core/sh.c:344-446 | the grammar reads the printed form of a command back as the command if and only if no simple command has more than MAXARGS - 1 arguments |
| ShellLanguage.SimpleCommands | xv6-core/sh.c:374-446 | on every token list that does not start with a parenthesis, parseexec takes words and redirections in any order: the arguments are the words, the redirections are nested, the first innermost; it panics exactly at a tenth argument, a redirection without a file or another token in their midst |
| ShellLanguage.ParsedExactly | xv6-core/sh.c:327-446 | a token list is parsed as a command if and only if it means that command, by a definition that splits the list and does not parse; so no list means two |
| ShellLanguage.PanicsExactly | xv6-core/sh.c:327-446 | parsing panics exactly at the first token that cannot follow in a scan from left to right that counts parentheses and arguments, with the message of that token |
| Shell.LexedExactly | xv6-core/sh.c:265-308 | the lexer reads a line as a list of tokens if and only if the line spells them, with any whitespace between them and at least some between words, and before > that follows > |
| Shell.RoundTrip | xv6-core/sh.c:262-446 | for every command with good words and any whitespace between the tokens of its printed line, parsing gives the command if and only if no simple command has more than MAXARGS - 1 arguments |
| Shell.Parser.GetToken | xv6-core/sh.c:265-308 | returns the next token of the line and the exact span of a word |
| Shell.Parser.PeekAt | xv6-core/sh.c:310-320 | tells exactly whether the next token starts with one of the symbols |
| Shell.Parser.ParseRedirs | xv6-core/sh.c:374-397 | parses redirections as the grammar does, with the same panic |
| Shell.Parser.ParseExecAt | xv6-core/sh.c:415-446 | parses a simple command, words and redirections in any order, or a block, as the grammar does, with the same panic; SimpleCommands says what that is |
| Shell.Parser.ParseBlockAt | xv6-core/sh.c:399-413 | so for a block |
| Shell.Parser.ParsePipeAt | xv6-core/sh.c:361-372 | so for a pipeline |
| Shell.Parser.ParseLineAt | xv6-core/sh.c:344-359 | so for a line; all of them terminate on every input |
| Shell.NulTerminate | xv6-core/sh.c:448-493 | puts a NUL at the end of every word and changes nothing else |
| Shell.WordsReadBack | xv6-core/sh.c:448-493 | after that every argument and file name reads exactly its token |
| Shell.ParseCommand | xv6-core/sh.c:327-342 | parsecmd's outcome is the grammar's, and afterwards every word in the buffer is the string of its token |
| Regex.AcceptsOne | xv6-core/grep.c:93-95 | a character item consumes one fitting character |
| Regex.AcceptsStar | xv6-core/grep.c:99-106 | a starred item consumes nothing, or one fitting character and then again |
| Regex.MatchHere | xv6-core/grep.c:84-96 | true if and only if some prefix of the text is in the pattern's language, the whole text with a trailing $ |
| Regex.MatchStar | xv6-core/grep.c:98-106 | true if and only if some prefix is in the language of c* followed by the pattern |
| Regex.Match | xv6-core/grep.c:72-82 | true if and only if some suffix of the text, the text itself with a leading ^, has a prefix in the pattern's language |

## Left out

- Hardware, boot code, interrupts and the disk driver: memide.c's synchronous transfer of one block is the disk step.
- console.c, exec.c, trap.c, syscall.c and sysproc.c: terminal handling and argument fetching; calls get valid arguments.
- The inside of spinlocks and weak memory ordering: sections under a lock are single steps.
- Path lookup (namex, skipelem) and the reference counts of the inode cache (iget, idup, ilock, iunlock): the calls of
  sysfile.c start from the inodes that path lookup has found.
- runcmd, the small utilities, grep's reading loop, flpf, string.c, printf.c and ulib.c: easy or input and output only.
- Orphaned inodes after a crash: the code does not reclaim them.
- FileSystem.Fs.WriteI: device inodes are reported as such, without the device's driver.
- Durability.VolumeSurvives: that system calls leave the volume in order when none is in progress is its assumption; Sysfile
  proves it of each call by itself, and the locks of inodes that keep concurrent calls apart are not modelled.
- Durability.ChunkGoesThrough: Transact says which blocks a transaction logs; that its calls of log_write come as such a list,
  the block of the inode last, is read off the code.
- LogLimits.CrashSafetyIff: what a commit does once the header names more blocks than its array holds is not followed.
- Mkfs.MakeVolume: names come without mkfs's leading underscore and cut to DIRSIZ bytes; the superblock is a parameter, and
  its own block is not written. What mkfs does once blocks or inodes run out, which it does not check, is not followed.
- LogManager.Log.Commit: no buffer is locked and one can be recycled when commit starts; CommitHasBuffer says when.
- LogManager.Log.LogWrite: nobody comes between its test and its section under the lock; LogProtocol has those runs.
- LogManager.Log.BeginOp: one turn of the waiting loop; the sleeping and waking is in LogProtocol.
- Sysfile.SysLink: both inodes are on the root device.
- Buffer contents and the address array of an in-memory inode are values replaced as a whole, not arrays.
- Umalloc.Heap.Malloc: sbrk is a parameter (refused or not, and units others took meanwhile); addresses count header units.
  What becomes of the heap when sbrk reads its argument as another number is reported as broken and not followed;
  BreakArgument says exactly when that is.
- VirtualMemory.Vm.CopyUvm: the pool's lock and allocations by other processes meanwhile are not modelled.
- ProcessTable.LockFreeTable: files, the current directory and memory of a process are not part of the table.
- Philosophers.EverybodyCanEat: nobody is ever shut out, but that a fair scheduler feeds everybody is not shown; processes are not killed.
- ProcessRuns.TakesUp: with several CPUs, that each process is taken up in the end is not shown.
- LogRuns.AlwaysAtRestAgain: no log_write is between its test and its section under the lock.
