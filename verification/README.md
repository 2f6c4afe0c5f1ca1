# Verified models of an xv6 kernel, a log-structured file system and a proxy queue

This project models the parts of the repository whose correctness is least obvious from reading one
function, and proves what they are for. `dafny verify dfyconfig.toml` checks all of it.

The modules of each component:

| component | modules |
|---|---|
| redo log, group commit, buffer cache (`log.c`, `bio.c`, `memide.c`) | `RedoLog`, `GroupCommit`, `BufferCache`, `PinnedBuffers`, `LogDevice` |
| files on blocks (`fs.c`, `file.c`) | `BlockViews`, `FileBlocks`, `FileContent`, `FileSystem`, `Format`, `DiskFormat` |
| a file written on the log, with crashes | `CrashSafety` |
| user-level heap (`umalloc.c`) | `HeapAllocator`, `HeapLaws` |
| frames and page tables (`kalloc.c`, `vm.c`, `fork`) | `PageFrames`, `PageTables` |
| pipes with sleep and wakeup (`pipe.c`, `proc.c`) | `PipeMonitor`, `Pipe` |
| log-structured file system (`mount.wfs.c`) | `WfsTree`, `WfsNames`, `Wfs`, `WfsFaults` |
| proxy with a priority queue (`safequeue.c`, `proxyserver.c`) | `JobQueue`, `ProxyServer` |
| regular expressions (`grep.c`) | `Regex`, `RegexLaws` |

`Blocks` and `Options` hold what several of them share.

Code that updates state in place is a class whose methods have the source's branches and loops. Each
method is proved against functions and relations on values, and the properties over whole runs are
lemmas about those. A panic is an outcome (`ok == false`, or `Panic`), and so is running out of memory
or disk. Regions under a lock are single steps; one-block disk writes are single steps; a crash may
come between any two of them.

## What the proofs found

Some properties one would expect do not hold of the code. The model keeps the code's behaviour, and
states when the property holds.

- `mkfs` makes the log region one block too small for LOGSIZE blocks, so three operations that keep to
  their allowance can make `log_write` panic (`GroupCommit.SmallLogPanics`). With a larger region a new
  block never panics, but rewriting a logged block of a full log still does
  (`GroupCommit.FullLogPanicsOnRewrite`).
- NBUF equals LOGSIZE, so a commit of LOGSIZE blocks finds every buffer pinned and panics in `bget`
  (`PinnedBuffers.FullCacheHasNoRoom`). A smaller commit can panic too: `fileread` holds buffers
  without being in an operation. A commit of n blocks is safe from panic whatever others read exactly
  if they use fewer than NBUF - n buffers at a time (`LogDevice.Log.Commit`,
  `LogDevice.CrowdStopsCommit`); even then nothing is lost but what a crash at that point would lose.
- A killed writer that fills a pipe returns without waking the reader that sleeps on it. This is the
  only step that loses a wakeup (`PipeMonitor.StepKeepsInvIff`, `PipeMonitor.KillLosesWakeup`), and
  writes of at most PIPESIZE bytes never lose one (`PipeMonitor.ShortWritesLoseNothing`).
- `wfs_unlink` marks the file deleted before it checks for space, and older versions of a file stay
  live after the last one is marked: a failed unlink can bring old contents back under the path
  (`WfsFaults.OldContentsComeBack`). If there is no older version the name leads nowhere, and the next
  file created may get the same inode number, so that two paths lead to one file
  (`WfsFaults.TwoPathsOneFile`; exactly when: `WfsFaults.NextCreateAliasesIff`).
- A successful unlink marks one version only. A file that was written keeps its older version, live
  under no path: its number is not given out again (`WfsFaults.OldVersionStays`). An unlink leaves no
  inode without a name exactly if the file has no older version (`WfsNames.UnlinkNamedIff`).
- `malloc` of a request within 8 bytes of 2^32 is given too small a block, and from 2^28 units on
  `morecore` asks `sbrk` for something else than it records (`HeapAllocator.NUnitsFit`,
  `HeapAllocator.SbrkBytesExact`).
- `itrunc` logs every bitmap block that its blocks are in. With at most nine bitmap blocks on the disk
  that fits the reservation (`FileSystem.Disk.Itrunc`); with more than twelve there is a consistent disk
  with a file whose truncation does not (`Format.TruncateTooLong`).

Where a comment in the source says otherwise, the code decides: `filewrite` speaks of two blocks of slop
for unaligned writes, but each of up to four allocations may change another bitmap block; the bound
proved for a chunk is the whole reservation of ten blocks (`FileContent.ChunkFits`).

## Model

| member | source | states |
|---|---|---|
| `RedoLog.HeaderRoundTrip` | private/P5/xv6-public/log.c:102-113 | reading a header block back gives the block numbers that were written into it |
| `RedoLog.InstallKeepsMeaning` | private/P5/xv6-public/log.c:70-82 | however much of a logged transaction is installed, the disk means what it meant: the header and slots are untouched and a new install gives the same blocks |
| `RedoLog.ClearKeepsMeaning` | private/P5/xv6-public/log.c:116-122 | clearing the header after a full install makes the home blocks equal to the meaning |
| `RedoLog.RecoverKeepsMeaning` | private/P5/xv6-public/log.c:116-122 | a crash after any block write of recovery keeps the meaning; a complete recovery installs it and empties the log |
| `RedoLog.RecoverAfterRestarts` | private/P5/xv6-public/log.c:116-122 | after any number of recoveries cut short anywhere, a complete one leaves exactly the blocks the first would have left |
| `RedoLog.HeaderCommits` | private/P5/xv6-public/log.c:100-113 | the header write is the commit point: from it on the disk means the old blocks with the whole transaction laid over them |
| `RedoLog.CommitIsAtomic` | private/P5/xv6-public/log.c:192-202 | the image after any number of commit's block writes means the old home blocks if the header write had not happened, else all of the transaction; at the end the log is empty |
| `RedoLog.HomeUntouchedBeforeHeader` | private/P5/xv6-public/log.c:192-202 | no home block changes on disk before the header is written |
| `RedoLog.CommitKeepsOthers` | private/P5/xv6-public/log.c:192-202 | a block that is not logged is the same on disk throughout a commit |
| `RedoLog.RecoveryIs` | private/P5/xv6-public/log.c:116-122 | a complete recovery puts each slot into the home block the header names for it, sets the count to 0 and changes no other block |
| `GroupCommit.BeginKeepsInv` | private/P5/xv6-public/log.c:125-141 | admitting an operation keeps the invariant: the reservation still fits |
| `GroupCommit.LogWriteKeepsCounts` | private/P5/xv6-public/log.c:213-233 | a log_write within the allowance keeps the count of logged plus reserved blocks within LOGSIZE |
| `GroupCommit.LogWriteKeepsData` | private/P5/xv6-public/log.c:213-233 | the data logged so far, laid over the home blocks, is exactly what the open transaction wrote, with a block logged twice absorbed |
| `GroupCommit.EndKeepsWhole` | private/P5/xv6-public/log.c:145-174 | ending an operation keeps every operation's writes in one transaction |
| `GroupCommit.EndKeepsData` | private/P5/xv6-public/log.c:145-174 | the last end_op hands the whole open transaction to the commit |
| `GroupCommit.CommitDoneKeepsData` | private/P5/xv6-public/log.c:192-202 | a finished commit has moved the transaction to the home blocks |
| `GroupCommit.RunKeepsInv` | private/P5/xv6-public/log.c:125-233 | the invariant holds in every state of every interleaving of begin_op, log_write, end_op and single commit block writes |
| `GroupCommit.CrashShowsPrefix` | private/P5/xv6-public/log.c:125-202 | a crash in any reachable state, any number of interrupted recoveries and a complete one leave the home blocks as a prefix of the group commits made them |
| `GroupCommit.OperationsAreWhole` | private/P5/xv6-public/log.c:125-174 | no operation's writes are split over two commits, and an operation that has not ended is in no commit |
| `GroupCommit.CommitsAlone` | private/P5/xv6-public/log.c:145-174 | committing implies no outstanding operation, and the log.committing panic is unreachable |
| `GroupCommit.NewestIsAllWrites` | private/P5/xv6-public/log.c:205-233 | the same for every state that satisfies the invariant |
| `GroupCommit.ReadersSeeNewest` | private/P5/xv6-public/log.c:205-233 | in every state of every run the newest contents of a home block, its logged data or else the disk, are the outcome of all writes so far; that bread returns them is LogDevice.Log.Bread |
| `GroupCommit.RoomForReserved` | private/P5/xv6-public/log.c:126-141 | with log.size above LOGSIZE, logged plus reserved blocks never exceed LOGSIZE and log_write of a new block within its allowance never panics |
| `GroupCommit.SmallLogPanics` | private/P5/xv6-public/mkfs.c:25 | with log.size at most LOGSIZE, as mkfs sets it, there is a run within all allowances whose next log_write panics |
| `GroupCommit.FullLogPanicsOnRewrite` | private/P5/xv6-public/log.c:213-218 | the size check comes before the search, so rewriting a logged block panics once LOGSIZE blocks are logged, whatever the region's size |
| `GroupCommit.LogWritePanicsIff` | private/P5/xv6-public/log.c:213-218 | in every reachable state an allowed log_write panics exactly if LOGSIZE or log.size - 1 blocks are logged |
| `GroupCommit.BeginWaitsIff` | private/P5/xv6-public/log.c:125-141 | in every reachable state begin_op waits exactly if a commit runs or the log could exceed LOGSIZE were each operation in progress and the new one to log MAXOPBLOCKS blocks; an idle log with no operation always admits |
| `GroupCommit.BeginAdmits` | private/P5/xv6-public/log.c:136-138 | an operation that is let in is in progress, and nothing else has changed |
| `BufferCache.UniqueAfter` | private/P5/xv6-public/bio.c:81-90 | a recycled buffer may take over a block that no other buffer holds |
| `BufferCache.ToFrontPermutes` | private/P5/xv6-public/bio.c:121-141 | moving a released buffer to the head keeps the list a permutation of all buffers |
| `BufferCache.ToFrontByRelease` | private/P5/xv6-public/bio.c:121-141 | and keeps it in order of last release |
| `BufferCache.PushLinked` | private/P5/xv6-public/bio.c:47-55 | linking a buffer in after the head keeps next and prev consistent around the ring |
| `BufferCache.UnlinkLinked` | private/P5/xv6-public/bio.c:128-131 | unlinking a buffer keeps next and prev consistent for the rest |
| `BufferCache.Cache.constructor` | private/P5/xv6-public/bio.c:39-56 | binit links all NBUF buffers into one doubly linked ring, the last one first |
| `BufferCache.Cache.Bget` | private/P5/xv6-public/bio.c:62-93 | the block's buffer if it is cached; else the least recently released unreferenced clean buffer, taken over; it panics exactly if neither exists |
| `BufferCache.Cache.Bread` | private/P5/xv6-public/bio.c:97-106 | the only buffer of the block, with the disk's data if it was not valid; disk unchanged |
| `BufferCache.Cache.Bwrite` | private/P5/xv6-public/bio.c:110-116 | the buffer's data is on the disk, in one write |
| `BufferCache.Cache.Brelse` | private/P5/xv6-public/bio.c:121-141 | drops one reference; the last one moves the buffer to the head of the list and stamps its release |
| `BufferCache.Cache.Iderw` | private/P5/xv6-public/memide.c:39-60 | writes a dirty buffer or fills an invalid one, in one step |
| `PinnedBuffers.PinnedIsCached` | private/P5/xv6-public/bio.c:76-80 | a block that is pinned has a dirty buffer and no other one, so bget never looks for another |
| `PinnedBuffers.GotCached` | private/P5/xv6-public/bio.c:62-106 | bread of a cached block keeps every buffer at the newest contents of its block and every logged block pinned |
| `PinnedBuffers.GotFree` | private/P5/xv6-public/bio.c:77-90 | so does recycling any unreferenced clean buffer: it is never the buffer of a logged block |
| `PinnedBuffers.LoggedOne` | private/P5/xv6-public/log.c:221-231 | log_write makes what the operation stored the newest contents and pins the block |
| `PinnedBuffers.WroteLog` | private/P5/xv6-public/log.c:182-186 | a bwrite to the log keeps every logged block pinned with its newest contents |
| `PinnedBuffers.WroteHome` | private/P5/xv6-public/log.c:75-80 | a bwrite of the newest contents to a home block keeps cache and disk in agreement although the buffer may now be recycled |
| `PinnedBuffers.FreeIff` | private/P5/xv6-public/bio.c:81-92 | bget can recycle a buffer exactly if the pinned blocks and the clean buffers in use are together fewer than NBUF |
| `PinnedBuffers.FullCacheHasNoRoom` | private/P5/xv6-public/log.c:178-190 | with NBUF pinned blocks no other block is cached and none can be |
| `LogDevice.Log.Bread` | private/P5/xv6-public/bio.c:97-106 | in every state of the log, also between two steps of a commit, the outcome of every write logged so far; it panics exactly if the block is not cached and no buffer is free |
| `LogDevice.Log.Brelse` | private/P5/xv6-public/bio.c:121-141 | keeps the log and the cache in agreement |
| `LogDevice.Log.Change` | private/P5/xv6-public/log.c:205-211 | a store into a held buffer keeps them in agreement, with this buffer set aside until log_write |
| `LogDevice.Log.BeginOp` | private/P5/xv6-public/log.c:126-141 | admits exactly if no commit runs and the logged blocks plus MAXOPBLOCKS for each operation, the new one included, are at most LOGSIZE; takes the protocol's begin step then and none otherwise |
| `LogDevice.Log.LogWrite` | private/P5/xv6-public/log.c:214-233 | panics exactly if LOGSIZE or log.size - 1 blocks are logged; otherwise the block is logged, once, and pinned with the data stored, which is the protocol's log_write step |
| `LogDevice.Log.CopyToSlot` | private/P5/xv6-public/log.c:182-188 | one turn of write_log is one step of the commit; it panics exactly if bget finds no buffer for the slot; all other references stay as they are |
| `LogDevice.Log.CommitHead` | private/P5/xv6-public/log.c:102-113 | the same for the write of the header that commits |
| `LogDevice.Log.InstallOne` | private/P5/xv6-public/log.c:74-81 | the same for one turn of install_trans, after which the disk has the block's newest contents |
| `LogDevice.InstallShowsSlots` | private/P5/xv6-public/log.c:74-81 | during the installation what bread returns for a logged block is what its slot holds, and once it is copied so does its home block |
| `LogDevice.Log.Erase` | private/P5/xv6-public/log.c:197-199 | the same for the write that empties the header |
| `LogDevice.Log.Commit` | private/P5/xv6-public/log.c:193-202 | with readers active between any two of its steps, the block writes are the first images of RedoLog's commit, all of them if it succeeds; it fails only for want of a buffer, never if n blocks are logged and n + crowd < NBUF where others use at most `crowd` buffers at a time, and always if n is NBUF |
| `LogDevice.CrowdStopsCommit` | private/P5/xv6-public/log.c:178-190 | that bound is exact: for every commit there is a cache state with the NBUF - n other buffers held in which its first bread panics |
| `LogDevice.Log.EndOp` | private/P5/xv6-public/log.c:146-174 | the panic is unreachable; the last operation out takes the protocol through its end step, every block write of the commit and its end, after which the log is empty and the disk alone has the outcome of every write since the log started; the others take the end step alone |
| `LogDevice.Log.ReadHead` | private/P5/xv6-public/log.c:86-96 | reads back the block numbers of the header on disk |
| `LogDevice.Log.RecoverFromLog` | private/P5/xv6-public/log.c:116-122 | the block writes of recovery are exactly the images of RedoLog's recovery; each slot is in the home block listed for it, the count is 0 and no other block has changed; log, cache and protocol start in agreement |
| `LogDevice.Boot` | private/P5/xv6-public/log.c:54-68 | from binit and initlog on, on a disk that may hold an unfinished commit |
| `BlockViews.ByteAtSetByte` | private/P5/xv6-public/fs.c:469-472 | storing a byte changes that byte and no other |
| `BlockViews.BitAtSetBit` | private/P5/xv6-public/fs.c:65-68 | setting or clearing a bitmap bit changes that bit and no other |
| `BlockViews.PutBytesAt` | private/P5/xv6-public/fs.c:500-501 | memmove into a block replaces exactly its range |
| `DiskFormat.WordOfBytes` | private/P5/xv6-public/fs.c:469-472 | a word is the sum of its bytes, the lowest first |
| `DiskFormat.UsedIs` | private/P5/xv6-public/fs.h:48-51 | block b is used exactly if bit b mod 32 of word (b mod 4096) / 32 of block bmapstart + b / 4096 is set |
| `DiskFormat.HeaderWords` | private/P5/xv6-public/log.c:102-113 | the header block holds the count in word 0, block number k in word k + 1, and its old words after them |
| `DiskFormat.HeaderRead` | private/P5/xv6-public/log.c:86-96 | and is read back from there |
| `DiskFormat.DinodeWords` | private/P5/xv6-public/fs.h:28-36 | inode i is the sixteen words from word 16 (i mod 8) of block inodestart + i / 8 on: type to nlink, size, block numbers |
| `DiskFormat.FileByteIs` | private/P5/xv6-public/fs.c:373-400 | byte o of a file is byte o mod 512 of the block the inode lists as its (o / 512)-th, or from the thirteenth on the block that its indirect block lists |
| `FileBlocks.UsedSetUsed` | private/P5/xv6-public/fs.c:57-95 | marking a block used or free changes the answer for that block only |
| `FileBlocks.DinodeAtUpdated` | private/P5/xv6-public/fs.c:221-236 | iupdate stores this inode and no other of its block |
| `FileBlocks.PlacesDiffer` | private/P5/xv6-public/fs.c:373-400 | on a consistent disk two different places, of one inode or two, never hold the same block, and what they hold is allocated |
| `FileBlocks.OwnMore` | private/P5/xv6-public/fs.c:57-78 | a newly allocated block gets exactly one owner |
| `FileBlocks.OwnLess` | private/P5/xv6-public/fs.c:82-95 | what a place holds is an allocated block that only it owns, so freeing it never panics and leaves the rest consistent |
| `FileBlocks.AllocDirect` | private/P5/xv6-public/fs.c:378-391 | bmap's allocation of a direct or the indirect block keeps every block owned once |
| `FileBlocks.AllocEntry` | private/P5/xv6-public/fs.c:386-397 | so does its allocation of an entry of the indirect block |
| `FileBlocks.WriteData` | private/P5/xv6-public/fs.c:494-503 | writing file data changes nobody's block numbers |
| `FileBlocks.UpdateInode` | private/P5/xv6-public/fs.c:221-236 | iupdate brings the disk up to date with the inode in memory and keeps consistency |
| `FileContent.MappedPlace` | private/P5/xv6-public/fs.c:373-400 | bmap leaves the blocks of a file in place with their contents and adds at most one, zeroed |
| `FileContent.MappedHoleFree` | private/P5/xv6-public/fs.c:373-400 | a hole-free file stays hole-free when its next block is mapped |
| `FileContent.TurnBytes` | private/P5/xv6-public/fs.c:494-503 | one turn of writei's loop changes exactly the bytes it copies |
| `FileContent.TurnWrites` | private/P5/xv6-public/fs.c:494-503 | one turn extends the part of the source that is in the file, across the direct and indirect boundary |
| `FileContent.WriteEnds` | private/P5/xv6-public/fs.c:494-511 | a finished writei has replaced exactly its range in one file, grown it if needed, and left all other files alone |
| `FileContent.SplicedReads` | private/P5/xv6-public/fs.c:453-511 | a range that was written reads back as written and the rest of the file is unchanged |
| `FileContent.SplicedTwice` | private/P5/xv6-public/file.c:136-152 | a write continued where the last one ended is one longer write |
| `FileContent.LogTurn` | private/P5/xv6-public/fs.c:494-503 | one turn logs one data block, and a bitmap block for each block it allocates |
| `FileContent.ChunkFits` | private/P5/xv6-public/file.c:123-133 | a write of at most three blocks' bytes to a hole-free file logs at most 10 blocks on a disk of any size, at most 9 if it is aligned |
| `FileContent.FreedAll` | private/P5/xv6-public/fs.c:408-435 | when itrunc has freed all places the disk is consistent again |
| `FileContent.TruncateFrees` | private/P5/xv6-public/fs.c:408-435 | itrunc frees exactly the blocks the inode owned |
| `FileContent.FileKept` | private/P5/xv6-public/fs.c:482-511 | a file whose places and blocks are untouched has the same contents |
| `FileSystem.Disk.Balloc` | private/P5/xv6-public/fs.c:57-78 | finds the first free block, marks and zeroes it, logging both; it panics exactly if all blocks are used |
| `FileSystem.Disk.Bfree` | private/P5/xv6-public/fs.c:82-95 | clears the block's bit; it panics exactly if it is clear |
| `FileSystem.Disk.Bmap` | private/P5/xv6-public/fs.c:373-400 | returns the block of the file, allocating it and the indirect block if missing, logs exactly the blocks it changed and keeps ownership; fails only past MAXFILE or on a full disk |
| `FileSystem.Disk.Iupdate` | private/P5/xv6-public/fs.c:221-236 | writes the inode's fields into its block and logs that block |
| `FileSystem.Disk.Readi` | private/P5/xv6-public/fs.c:453-476 | returns the bytes of the file's range that exist, or -1 for a bad range, and changes nothing |
| `FileSystem.Disk.Writei` | private/P5/xv6-public/fs.c:482-511 | replaces exactly its range of one file, or returns -1 exactly on a bad range; keeps every file hole-free and the inode on disk up to date; a chunk logs at most MAXOPBLOCKS blocks |
| `FileSystem.Disk.Itrunc` | private/P5/xv6-public/fs.c:408-435 | the file becomes empty, exactly its blocks become free, bfree never panics, all other files are the same; it logs the bitmap blocks of what it frees and the inode's block, one block more than those bitmap blocks |
| `FileSystem.Disk.FileWrite` | private/P5/xv6-public/file.c:118-156 | writes a prefix of the data at the offset, all of it unless the file would become too long, in as many transactions as there are pieces of 1536 bytes, of at most MAXOPBLOCKS blocks each; what each wrote through the log leads from one settled disk to the next, with one more chunk in the file |
| `FileSystem.TruncateLogs` | private/P5/xv6-public/fs.c:408-435 | the inode's block is none of the bitmap blocks, of which there are size / BPB + 1 |
| `Format.FormattedSettled` | private/P5/xv6-public/mkfs.c:94-108 | an empty disk of any layout is consistent, with every file empty |
| `Format.Mkfs` | private/P5/xv6-public/mkfs.c:238-252 | marking the metadata blocks used lays out such a disk |
| `Format.TruncateTooLong` | private/P5/xv6-public/fs.c:408-435 | on any layout of more than twelve bitmap blocks there is a settled disk with a file whose bitmap blocks and inode block are more than MAXOPBLOCKS |
| `CrashSafety.FileWriteRuns` | private/P5/xv6-public/file.c:136-152 | the log takes the operations of a filewrite one after the other and never panics, also in the log region mkfs lays out |
| `CrashSafety.SnapsAreGroups` | private/P5/xv6-public/log.c:192-202 | the transactions of a filewrite lead the home blocks through the states between its chunks |
| `CrashSafety.CrashDuringFileWrite` | private/P5/xv6-public/file.c:118-156 | a crash before any step of the log during a filewrite, any interrupted recoveries and a complete one leave a consistent disk, in which the file has a whole number of chunks written and no other file has changed |
| `HeapAllocator.NUnitsFit` | private/P5/xv6-public/umalloc.c:69-69 | the unit count of a request has room for it exactly unless rounding it up wraps around 2^32 |
| `HeapAllocator.SbrkBytesExact` | private/P5/xv6-public/umalloc.c:52-54 | sbrk is asked for all the units exactly below 2^28 units |
| `HeapLaws.NUnitsLeast` | private/P5/xv6-public/umalloc.c:69-69 | it is the least unit count with room for the request and the header |
| `HeapLaws.SpanIs` | private/P5/xv6-public/umalloc.c:50-54 | what is asked of sbrk is room for the request, and at least 4096 units |
| `HeapLaws.FirstFitIs` | private/P5/xv6-public/umalloc.c:74-87 | all free blocks from the one after freep up to the one taken are too small; the end of that one is taken, its rest stays on the list, freep becomes the block before it, and every other block is the same |
| `HeapAllocator.LoopStopsAtPlace` | private/P5/xv6-public/umalloc.c:31-33 | the two tests of free's loop hold exactly at the place of the freed block, also at the wrap |
| `HeapAllocator.AfterFreeLinked` | private/P5/xv6-public/umalloc.c:34-43 | after the joining stores the headers link exactly the list with the block put in and joined to what it touches |
| `HeapAllocator.InsertApart` | private/P5/xv6-public/umalloc.c:34-43 | joining leaves an ascending list in which no two blocks touch |
| `HeapAllocator.FreeConsistent` | private/P5/xv6-public/umalloc.c:25-44 | free keeps the heap consistent |
| `HeapAllocator.TakeConsistent` | private/P5/xv6-public/umalloc.c:74-84 | an exact fit or a cut from the tail keeps the heap consistent |
| `HeapAllocator.GrowConsistent` | private/P5/xv6-public/umalloc.c:52-58 | fresh memory from sbrk joins the heap without overlapping anything |
| `HeapAllocator.UnitsPartitioned` | private/P5/xv6-public/umalloc.c:25-90 | every unit obtained from sbrk is in exactly one free or one live block |
| `HeapAllocator.Heap.FindPlace` | private/P5/xv6-public/umalloc.c:31-33 | the loop of free ends, at the block below the freed one |
| `HeapAllocator.Heap.Free` | private/P5/xv6-public/umalloc.c:25-44 | the block leaves the live set and joins the sorted circular list, coalesced on both sides |
| `HeapAllocator.Heap.MoreCore` | private/P5/xv6-public/umalloc.c:47-61 | grows the heap by what sbrk gave and leaves a free block large enough, or changes nothing |
| `HeapAllocator.Heap.Malloc` | private/P5/xv6-public/umalloc.c:64-90 | terminates with one morecore at most, called exactly if every free block is too small; null exactly if sbrk fails then; otherwise a new live block of the right size from the first fit after freep |
| `PageFrames.NoSharing` | private/P5/xv6-public/vm.c:36-80 | no frame is mapped at two user pages, of one process or of two, and a mapped frame is not free |
| `PageFrames.AccessIs` | private/P5/xv6-public/vm.c:36-80 | the hardware's access right to a page, which is what both levels allow, is that of its page table entry: every directory entry lets writes and user accesses through |
| `PageFrames.SameOwnersSameFree` | private/P5/xv6-public/kalloc.c:60-95 | the owners determine the set of free frames |
| `PageFrames.TakeFree` | private/P5/xv6-public/kalloc.c:83-95 | kalloc hands out a frame nobody uses |
| `PageFrames.GiveBack` | private/P5/xv6-public/kalloc.c:60-77 | kfree of a held frame makes it free again, once |
| `PageFrames.NewTable` | private/P5/xv6-public/vm.c:36-55 | a new page table changes no lookup |
| `PageFrames.InstallUser` | private/P5/xv6-public/vm.c:61-80 | mapping a held frame to an empty page keeps every frame used once |
| `PageFrames.UnmapRangeOk` | private/P5/xv6-public/vm.c:256-279 | page by page, exactly the mapped pages of the range are unmapped and exactly their frames freed |
| `PageFrames.SkipTable` | private/P5/xv6-public/vm.c:265-268 | where a page table is missing, jumping to the next directory entry skips nothing |
| `PageFrames.MappingStep` | private/P5/xv6-public/vm.c:61-80 | one turn of mappages maps one more page and changes no other lookup |
| `PageTables.KmapApart` | private/P5/xv6-public/vm.c:105-115 | the kernel mappings overlap neither each other nor user memory |
| `PageTables.KernelEntryIs` | private/P5/xv6-public/vm.c:105-115 | the kernel's page w from KERNBASE up to PHYSTOP is on frame w - KERNBASE, device pages are at their own addresses, the pages from EXTMEM up to data are read-only and the others writable, none is for users |
| `PageTables.CopiedAccess` | private/P5/xv6-public/vm.c:316-345 | the child has the bytes of each page of the parent and the same access to it, over both levels |
| `PageTables.GrewWithout` | private/P5/xv6-public/vm.c:284-298 | taking a new directory away leaves exactly the owners there were before it |
| `PageTables.CopyIsolates` | private/P5/xv6-public/vm.c:316-345 | no page of the child is on a frame of the parent |
| `PageTables.ReleasedKeepsOwners` | private/P5/xv6-public/vm.c:222-249 | a failed allocuvm over an unmapped range keeps nothing but page tables |
| `PageTables.Memory.Kalloc` | private/P5/xv6-public/kalloc.c:83-95 | takes the first free frame, or fails exactly if there is none |
| `PageTables.Memory.FreeHeld` | private/P5/xv6-public/kalloc.c:60-77 | kfree of a frame its caller holds never panics, and gives it back once: owners and page tables stay in agreement |
| `PageTables.Memory.Freerange` | private/P5/xv6-public/kalloc.c:47-53 | frees exactly the frames that lie whole between the addresses |
| `PageTables.Memory.Walkpgdir` | private/P5/xv6-public/vm.c:36-55 | the page table of the page, allocated if asked for, with a directory entry that is present, writable and for users; lookups unchanged |
| `PageTables.Memory.Mappages` | private/P5/xv6-public/vm.c:61-80 | maps the pages in order, each to its frame with exactly the access that perm asks for; -1 only without a frame for a page table, panic only on a page already mapped |
| `PageTables.Memory.Setupkvm` | private/P5/xv6-public/vm.c:119-136 | a new directory with exactly the kernel's mappings: which pages are present, on which frames, which are writable, none for users; or no frame taken at all |
| `PageTables.Memory.Deallocuvm` | private/P5/xv6-public/vm.c:256-279 | the loop with the 4 MB jump leaves the same memory and free list as unmapping page by page: no page of the range is mapped, and every other page of every directory is as it was |
| `PageTables.Memory.Allocuvm` | private/P5/xv6-public/vm.c:222-249 | maps the new pages to fresh frames of 4096 zeros that the user may read and write, or returns 0 with every data frame given back |
| `PageTables.Memory.Freevm` | private/P5/xv6-public/vm.c:284-298 | every frame of the directory, its tables and its user pages goes back once, and no other frame is touched |
| `PageTables.Memory.Copyuvm` | private/P5/xv6-public/vm.c:316-345 | the child has the bytes of every page below sz on frames of its own, with the parent's access, or no frame was kept |
| `PageTables.Memory.Copyrange` | private/P5/xv6-public/vm.c:452-473 | the same for the present pages of a range |
| `PageTables.Memory.Fork` | private/P5/xv6-public/proc.c:181-236 | all or nothing: the child's memory is an isolated copy with the same access to every page, or the set of free frames is what it was |
| `PipeMonitor.WriteEffect` | private/P5/xv6-public/pipe.c:79-98 | what a write region puts in, whom it wakes and how it ends, for every state |
| `PipeMonitor.ReadEffect` | private/P5/xv6-public/pipe.c:101-121 | what a read region takes out, whom it wakes and how it ends, for every state |
| `PipeMonitor.CloseEffect` | private/P5/xv6-public/pipe.c:60-75 | what a close does: the flag is cleared, the sleepers of the other end are woken, the data stays |
| `PipeMonitor.EndOfFile` | private/P5/xv6-public/pipe.c:64-107 | with the write end closed a reader of the empty pipe returns without a byte |
| `PipeMonitor.KillEffect` | private/P5/xv6-public/proc.c:503-521 | a kill marks one process and wakes it if it sleeps, and changes nothing else |
| `PipeMonitor.RunsAreFifo` | private/P5/xv6-public/pipe.c:79-121 | in every run the bytes read are a prefix of the bytes accepted, and the pipe holds the rest |
| `PipeMonitor.StepKeepsEnds` | private/P5/xv6-public/pipe.c:60-121 | nobody is ever inside a call on a closed end |
| `PipeMonitor.StepKeepsInvIff` | private/P5/xv6-public/pipe.c:79-121 | a step keeps "who sleeps has a reason to" exactly if it is not a killed writer that fills the pipe under a sleeping reader and returns |
| `PipeMonitor.NoKillNoLostWakeup` | private/P5/xv6-public/pipe.c:79-121 | in runs without kill nobody sleeps on nread while bytes are buffered or the write end is closed, nor on nwrite while there is space or the read end is closed |
| `PipeMonitor.NoLostWakeupIff` | private/P5/xv6-public/pipe.c:79-121 | a run with any kills loses no wakeup exactly if no step of it is that one |
| `PipeMonitor.ShortWritesLoseNothing` | private/P5/xv6-public/pipe.c:79-98 | writes of at most 512 bytes lose no wakeup, whoever is killed |
| `PipeMonitor.KillLosesWakeup` | private/P5/xv6-public/pipe.c:85-88 | a run with kill at whose end a reader sleeps beside a full pipe |
| `Pipe.FullTest` | private/P5/xv6-public/pipe.c:85-85 | the wrapping comparison of the counters tells a full pipe |
| `Pipe.StoreAppends` | private/P5/xv6-public/pipe.c:92-92 | a byte stored at nwrite modulo 512 is appended, also when the counter wraps at 2^32 |
| `Pipe.LoadTakes` | private/P5/xv6-public/pipe.c:115-115 | a byte loaded at nread modulo 512 is the oldest |
| `Pipe.Kernel.constructor` | private/P5/xv6-public/pipe.c:23-44 | a new pipe is empty and open at both ends |
| `Pipe.Kernel.Wakeup` | private/P5/xv6-public/proc.c:481-488 | the pass over the process table makes exactly the sleepers on the channel runnable |
| `Pipe.Kernel.Pipewrite` | private/P5/xv6-public/pipe.c:79-98 | the loop over the ring does exactly what the region does; it accepts a prefix of the bytes, all of them unless the reader is gone or the writer killed |
| `Pipe.Kernel.Piperead` | private/P5/xv6-public/pipe.c:101-121 | so does piperead: at most n bytes, the next ones in order, fewer only if the pipe is then empty; 0 only at end of file, -1 exactly for a killed reader of an empty pipe whose write end is open |
| `Pipe.Kernel.Pipeclose` | private/P5/xv6-public/pipe.c:60-75 | clears the flag of the end and wakes the other's sleepers; the pipe is freed exactly when both are closed |
| `Pipe.Kernel.Kill` | private/P5/xv6-public/proc.c:503-521 | marks the first process with the id and wakes it if it sleeps; -1 and no effect exactly if there is none |
| `WfsTree.PathUnique` | private/P7/mount.wfs.c:134-189 | in a tree two paths never lead to the same inode |
| `WfsTree.RewriteLookup` | private/P7/mount.wfs.c:367-397 | a new version of a file shows under its own path and under no other |
| `WfsTree.ChildLookup` | private/P7/mount.wfs.c:237-332 | a new entry makes its path lead to an empty file or directory, lengthens its parent's listing, and changes no other path |
| `WfsTree.UnlinkLookup` | private/P7/mount.wfs.c:447-480 | removing an entry makes its path lead nowhere, shortens its parent's listing, and changes no other path, also if an older version of the file is uncovered |
| `WfsTree.ChildTree` | private/P7/mount.wfs.c:237-332 | a fresh inode number keeps the tree |
| `WfsTree.UnlinkTree` | private/P7/mount.wfs.c:447-480 | an unlink keeps the tree |
| `WfsNames.UnlinkNamedIff` | private/P7/mount.wfs.c:447-480 | if every live inode but the root had a name in some directory, an unlink keeps that exactly if it uncovers no older version of the file |
| `WfsNames.NamelessLost` | private/P7/mount.wfs.c:134-189 | no path leads to an inode without a name |
| `Wfs.LiveIs` | private/P7/mount.wfs.c:61-76 | the last entry not marked deleted decides what is live |
| `Wfs.MaxIsNew` | private/P7/mount.wfs.c:78-94 | one above the maximum is in use by nobody, also when it was used before |
| `Wfs.MaxIsNext` | private/P7/mount.wfs.c:78-94 | and the maximum itself is in use, or nothing but the root is |
| `Wfs.MarkedLive` | private/P7/mount.wfs.c:459-461 | marking the last version of an inode uncovers the one before it and changes no other inode |
| `Wfs.WriteThenRead` | private/P7/mount.wfs.c:334-397 | a range just written at an offset not past the end reads back as written |
| `Wfs.WrittenIs` | private/P7/mount.wfs.c:367-397 | a written file is as long as the longer of its old length and the end of the range; each byte is the written, the old or, in a gap, the stale one |
| `Wfs.FailedUnlink` | private/P7/mount.wfs.c:459-465 | what a path shows after an unlink that failed for space: the version before, or nothing |
| `Wfs.FailedUnlinkHarmlessIff` | private/P7/mount.wfs.c:459-465 | a failed unlink changes nothing to be seen exactly if the uncovered version has the same contents |
| `Wfs.FailedUnlinkTree` | private/P7/mount.wfs.c:459-465 | the directories still form a tree exactly if the mark uncovers an older version; otherwise a name leads to no inode |
| `WfsFaults.FailedUnlinkUndoesWrite` | private/P7/mount.wfs.c:459-465 | an unlink that fails right after a write has undone the write, for every path |
| `WfsFaults.NextCreateAliasesIff` | private/P7/mount.wfs.c:237-283 | after a failed unlink that uncovers nothing, the next mknod or mkdir makes both paths lead to one inode exactly if the file's number was one above all others in use; else the old path leads nowhere |
| `WfsFaults.FailedUnlinkOfNewest` | private/P7/mount.wfs.c:459-465 | that is so for the file created last, before it is written |
| `WfsFaults.RoomToAliasIff` | private/P7/mount.wfs.c:251-253 | a disk can be too full for the one call and not for the other exactly if the first directory lists at least four names more |
| `WfsFaults.OldContentsComeBack` | private/P7/mount.wfs.c:447-480 | a run from a new file system: create, write, unlink without space, and the contents of before the write are back |
| `WfsFaults.TwoPathsOneFile` | private/P7/mount.wfs.c:447-480 | a run from a new file system at whose end two paths lead to one file |
| `WfsFaults.NumberComesBack` | private/P7/mount.wfs.c:447-480 | on any valid file system, a file created and unlinked before it is written gives its inode number to the next one created |
| `WfsFaults.OldVersionStays` | private/P7/mount.wfs.c:447-480 | on any valid file system, a file written and then unlinked leaves its old contents live under no path |
| `Wfs.FileSystem.InodenumToLogentry` | private/P7/mount.wfs.c:61-76 | the scan by entry sizes finds the last live entry of the inode |
| `Wfs.FileSystem.FindMaxInodenum` | private/P7/mount.wfs.c:78-94 | the scan finds the largest live number |
| `Wfs.FileSystem.NameToInodenum` | private/P7/mount.wfs.c:96-108 | the first entry of the name |
| `Wfs.FileSystem.DeleteDentry` | private/P7/mount.wfs.c:110-132 | takes out the first entry of the inode and keeps the others in order |
| `Wfs.FileSystem.PathToLogentry` | private/P7/mount.wfs.c:134-189 | the entry the path leads to through the last versions of its directories |
| `Wfs.FileSystem.Mknod` | private/P7/mount.wfs.c:237-283 | -EEXIST and -ENOSPC exactly when they apply and then without effect; else the path leads to an empty file whose number is the next after the largest in use, its parent lists it last, nothing else changes; the log and the inodes are stated also for a file system that a failed unlink has damaged |
| `Wfs.FileSystem.Mkdir` | private/P7/mount.wfs.c:285-332 | the same with an empty directory |
| `Wfs.FileSystem.Read` | private/P7/mount.wfs.c:334-364 | the smaller of size and the bytes left from the offset, 0 past the end; each is the file's byte at its place; -ENOENT exactly if the path leads nowhere |
| `Wfs.FileSystem.Write` | private/P7/mount.wfs.c:367-397 | -ENOENT and -ENOSPC exactly when they apply; else the path shows the old contents with the data written in, and no other path changes |
| `Wfs.FileSystem.Unlink` | private/P7/mount.wfs.c:447-480 | on success the entry is marked and one new version of the parent, without the name, is appended: the path leads nowhere, no other path changes, and every inode still has a name exactly if the mark uncovers nothing; a failure for space leaves exactly the entry marked, and a valid file system exactly if that uncovers an older version |
| `JobQueue.SwapUp` | private/P6/starter-code/safequeue.c:56-61 | a swap of the sift-up moves the one place out of order to the parent |
| `JobQueue.SwapDown` | private/P6/starter-code/safequeue.c:88-106 | a swap of the sift-down with the larger child moves it to that child |
| `JobQueue.RootIsMax` | private/P6/starter-code/safequeue.c:66-73 | in a heap the root's priority is at least every other |
| `JobQueue.PriorityQueue.AddWork` | private/P6/starter-code/safequeue.c:45-62 | keeps the heap order and adds exactly the item |
| `JobQueue.PriorityQueue.Dequeue` | private/P6/starter-code/safequeue.c:66-109 | keeps the heap order, takes out exactly one item, of the highest priority; -1 exactly if the queue is empty |
| `JobQueue.PriorityQueue.GetWork` | private/P6/starter-code/safequeue.c:112-125 | the same for get_work and get_work_nonblocking |
| `ProxyServer.NextKeepsInv` | private/P6/starter-code/proxyserver.c:269-347 | every region of every thread keeps the invariant |
| `ProxyServer.RunsKeepInv` | private/P6/starter-code/proxyserver.c:269-347 | in every interleaving of any number of threads the queue is never overfull, each accepted request is queued or delivered but not both, and if a worker waits the queued jobs are no more than the signalled workers |
| `ProxyServer.NobodyWaitsInVain` | private/P6/starter-code/proxyserver.c:333-347 | when all signalled workers have run and one still waits, every accepted request has been delivered |
| `ProxyServer.Proxy.Accept` | private/P6/starter-code/proxyserver.c:295-315 | puts exactly the request into the queue and signals, or refuses it exactly if the queue is full |
| `ProxyServer.Proxy.GetJobRequest` | private/P6/starter-code/proxyserver.c:269-283 | takes out one request of the highest priority, or none exactly if the queue is empty |
| `ProxyServer.Proxy.WorkerTurn` | private/P6/starter-code/proxyserver.c:338-346 | waits exactly if the queue is empty; otherwise get_work takes out one request of the highest priority |
| `Regex.OnePattern` | private/P5/xv6-public/grep.c:90-95 | a pattern that begins with a plain atom matches a prefix exactly if the atom fits the first character and the rest matches the rest |
| `Regex.StarPattern` | private/P5/xv6-public/grep.c:88-89 | a starred atom takes any number of fitting characters |
| `Regex.EndPattern` | private/P5/xv6-public/grep.c:90-91 | a final $ matches the end of the text only |
| `Regex.Match` | private/P5/xv6-public/grep.c:73-82 | answers 1 exactly if some substring, a prefix after ^, is in the language of the pattern |
| `Regex.MatchHere` | private/P5/xv6-public/grep.c:85-96 | answers 1 exactly if a prefix of the text is in the language; the mutual recursion terminates |
| `Regex.MatchStar` | private/P5/xv6-public/grep.c:99-106 | answers 1 exactly if some number of fitting characters is followed by a match of the rest |
| `RegexLaws.WordFound` | private/P5/xv6-public/grep.c:73-96 | a word without special characters is found exactly if it occurs in the text |
| `RegexLaws.AnchoredWordFound` | private/P5/xv6-public/grep.c:76-77 | after ^ it is found exactly if the text begins with it, and between ^ and $ exactly if it is the text |
| `RegexLaws.LastWordFound` | private/P5/xv6-public/grep.c:90-91 | before $ exactly if the text ends with it |
| `RegexLaws.DotPrefix` | private/P5/xv6-public/grep.c:92-93 | a dot takes any one character |
| `RegexLaws.AnythingPrefix` | private/P5/xv6-public/grep.c:99-106 | dot star takes anything, nothing included |
| `RegexLaws.RunPrefix` | private/P5/xv6-public/grep.c:99-106 | a starred character takes any number of itself |

## Left out

- LogDevice.Log.Commit: other processes run between the turns of its loops, not inside a turn, where only the first bread can fail; a process that waits for a buffer's sleep-lock is one that holds a reference.
- LogDevice.Log.RecoverFromLog: is stated for a header whose count is at most LOGSIZE, as every write of the header leaves it; the source copies a larger count past its array.
- HeapAllocator.Heap.Malloc: is stated for requests below 2^28 units, where what sbrk is asked for is what the header records; payload bytes and an sbrk result that is not a multiple of 8 are not modelled.
- PageTables.Memory.Fork: covers the memory of fork for sz at most MMAPBASE, above which copyrange would map pages twice; file descriptors, the trap frame and the process table entry are left out.
- PageTables.Memory.Deallocuvm: is stated for sizes up to KERNBASE, as its callers pass; above it the loop would free frames of the kernel.
- Wfs.FileSystem.Write: is stated for writes that end within 2^30 bytes, where the source's int and uint32 sums do not wrap around or truncate.
- Wfs.FileSystem.Unlink: is stated for disks with room for the full old copy of the parent, or with too little even for the shorter one; between the two the copy overruns the disk image.
- PageTables.Memory.Copyrange: is stated for ranges in [MMAPBASE, KERNBASE], as fork passes; below it would map again what copyuvm has copied.
- Pipe.Kernel.constructor: the failures of pipealloc, for want of a file or a page, are left out.
- Wfs.FileSystem.PathToLogentry: path lookup through a regular file as if it were a directory, which FUSE never asks for, is answered with "not found".
- Inode cache, inode allocation, reference counts and sleep-locks of fs.c, directories and path names of sysfile.c: an inode in memory is one object here.
- Device inodes in readi and writei.
- ide.c and interrupts: one block write is atomic, as memide.c makes it.
- The byte layout of wfs entries and of the superblock, timestamps, owners, modes, getattr and readdir.
- fsck.wfs.c.
- mmap, munmap and page faults of proc.c, trap.c and vm.c.
- exec, loaduvm, inituvm, copyout and growproc: uses of the modelled operations.
- The scheduler, and processes that are killed while they wait for a lock.
- Sockets, HTTP text, request delays and the copying of strings in the proxy; a request is a value with a priority.
- The line buffering of grep's read loop.
