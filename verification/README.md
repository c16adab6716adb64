# A verified model of the kernel, shell and tools of a 32-bit xv6 rewrite

The repository is a small Unix-like system for 32-bit RISC-V: a kernel with a logging file system, a buffer cache, a
virtio block driver, Sv32 paging, a multiprocessor scheduler and a console, a shell with a heap allocator, and a host
tool that builds the file-system image. This project models the parts of it that hold state over time and proves what
they keep, in Dafny 4.11. `dafny verify dfyconfig.toml` checks everything.

Where the code changes things in place the model is a class whose methods have the source's loops and branches, and each
method is proved against a specification on values. Where it is a protocol between processors or processes the model is
a transition system, and results are about every run. A panic is a result of its own (`None`, `false`, `Panic`), never a
precondition.

| file | what it models |
|---|---|
| `Common.dfy`, `Blocks.dfy`, `Bitmap.dfy` | shared definitions; 1024-byte blocks as bytes and little-endian words; the free-block bitmap |
| `Log.dfy` | the write-ahead log: every block write is one step, and a crash may fall between any two |
| `LogProtocol.dfy` | `begin_op`, `log_write`, `end_op` under all interleavings |
| `BufferCache.dfy` | the buffer cache's list, keys, references, pins and contents |
| `Files.dfy`, `FileSys.dfy` | block ownership, block maps, `read_inode`, `write_inode`, `inode_truncate`, `write_file` |
| `MakeFs.dfy` | the image builder, on the same image the kernel model reads |
| `PathLookup.dfy` | path splitting, directory lookup and linking, the inode table's reference counts |
| `Scheduler.dfy`, `Processes.dfy` | `sleep`, `wakeup`, `kill`, `yield_process`, `exit`'s last part, the scheduler, spinlocks, interrupt depth, traps and system-call entry; what every run keeps |
| `Malloc.dfy` | the user heap: a circular, address-ordered, coalescing free list |
| `ShellLexer.dfy`, `ShellParser.dfy`, `ShellTree.dfy`, `ShellCommand.dfy` | the shell's tokens, its grammar, the command tree a line spells, its parser and `nulterminate` |
| `Virtio.dfy` | the driver's descriptor ring together with the device and the interrupt handler |
| `Paging.dfy` | `walk`, `map_pages`, `copyout`, `copyto`, `copyinstr` |
| `Console.dfy` | the console's input ring and line editing |

## Where the code does something else than its names suggest

The models keep these routines as they are written, and say exactly when they still do what a caller would expect.

- `read_header` never loads the count, so recovery at boot copies nothing (`src/kernel/filesys.c:166-175`). It equals
  replay exactly when the count on disk is zero (`Log.WrittenRecoveryExact`). `Log.LogLayer.RecoverIntended` is the
  recovery that the commit protocol needs; it is not in the source.
- `log_write`'s only effective guard is LOGSIZE, and the slot of a 30th block is the first block after the log
  (`src/kernel/filesys.c:143`, `src/makefs.c:95-96`). Commit is atomic exactly below that (`Log.SlotWritesAtomicIff`),
  and runs stay below it exactly when no operation adds MAXLOGOPS blocks (`LogProtocol.SlotsInsideRegionIff`).
- `buffer_alloc` takes its mask from `i`, not `j`, so it hands out only block numbers divisible by 8
  (`src/kernel/filesys.c:233`; `FileSys.FileSystem.BufferAlloc` says exactly when it panics).
- `inode_truncate` frees only the first 12 indirect entries (`src/kernel/filesys.c:435`). It leaks nothing exactly when
  no later entry is in use (`FileSys.TruncateLeaksIff`), which for files that map just the blocks below their size is
  a size of at most 24 blocks (`FileSys.TruncateLeaksBySize`).
- `read_inode` returns the clamped request even when the copy stopped early (`src/kernel/filesys.c:533`).
- `write_inode` releases a buffer without logging it when the copy from user memory faults part way
  (`src/kernel/filesys.c:552-555`, `src/kernel/paging.c:341-361`). The bytes already copied are seen by readers until the
  buffer is recycled, and then are gone (`BufferCache.LostWrite`). This cannot happen exactly under the condition of
  `BufferCache.TurnSafeIff`.
- `read_file` calls `read_inode` outside a transaction, so a hole makes `log_write` panic
  (`FileSys.FileSystem.ReadInode`).
- `dir_link` neither rejects a name in use nor keeps 14 characters (`src/kernel/filesys.c:606-633`). The new link is found
  exactly under the condition of `PathLookup.LinkFoundIff`.
- `map_pages` compares page addresses modulo 2^32, so a range that runs around the whole address space back into its
  first page maps one page (`src/kernel/paging.c:147-163`; `Paging.RangeExactIff`).
- `malloc` and `morecore` multiply and add in 32 bits (`src/user/malloc.c:47,60`). They are exact exactly up to
  2^32 - 16 bytes (`Malloc.ArithmeticExactIff`).
- The image builder rounds the root directory's size up by a whole block when it is already a multiple of one
  (`src/makefs.c:164`), which leaves a hole exactly then (`MakeFs.Builder.Finish`); the kernel panics when it reads that
  hole outside a transaction (`MakeFs.Builder.ReadRoot`).

## Model

| member | source | states |
|---|---|---|
| `Log.LogLayer.Record` | src/kernel/filesys.c:143-160 | log_write's table: refuses exactly a full log, a count of log.size - 1 or a call outside a transaction, absorbs a block already in it, otherwise appends it once |
| `Log.LogLayer.LogWrite` | src/kernel/filesys.c:139-162 | panics exactly on a full log or outside a transaction; a change to a buffer goes into the cached view and not to the disk; the log keeps covering every block on which the two differ, but for blocks changed and never logged |
| `Log.LogLayer.Abandon` | src/kernel/filesys.c:552-555 | a buffer changed by a copy that faults and released without log_write: its block is stale exactly if it is not in the log |
| `Log.LogLayer.Evict` | src/kernel/bufcache.c:65-76 | recycling the buffer of an unlogged block brings back the disk contents, which changes something only for a stale block |
| `Log.LogLayer.HeaderImage` | src/kernel/filesys.c:178-190 | the header block written names exactly the logged blocks in order and keeps the words past them |
| `Log.LogLayer.WriteLog` | src/kernel/filesys.c:127-137 | slot i receives the cached contents of logged block i, with one crash point per block write |
| `Log.LogLayer.CpyLogToHome` | src/kernel/filesys.c:192-206 | the home blocks receive their slots in order, on disk and in the cache, with one crash point per block write |
| `Log.LogLayer.Commit` | src/kernel/filesys.c:213-222 | the home blocks end as the cached view with stale blocks as they were on disk, and equal the cached view if and only if no stale block differs; every crash point recorded replays to the last committed state up to the header write and to the new one from it on, and all earlier crash points still do |
| `Log.InstallAt` | src/kernel/filesys.c:192-206 | the block that replay leaves at a home is that of its last slot, and every other block is untouched |
| `Log.ReplayRestart` | src/kernel/filesys.c:192-206 | a replay that crashed after any number of block writes, replayed again, ends in the same state |
| `Log.CrashedReplaysConverge` | src/kernel/filesys.c:66-73 | any number of replays, each crashing anywhere, followed by a complete one equals one complete replay |
| `Log.CommitPointsRecover` | src/kernel/filesys.c:213-222 | at every crash point inside commit, replaying the on-disk header gives all-old or all-new home blocks |
| `Log.CommitResult` | src/kernel/filesys.c:213-222 | after commit the cache and the disk agree everywhere and the home blocks are the view commit started from |
| `Log.LogLayer.RecoverFromLog` | src/kernel/filesys.c:66-73 | recovery as written changes no home block and clears the header |
| `Log.LogLayer.ReadHeader` | src/kernel/filesys.c:166-175 | copies the header's entries for the count already in memory, never the count itself |
| `Log.WrittenRecoveryExact` | src/kernel/filesys.c:166-175 | recovery as written equals replay on every disk with a given header if and only if its count is zero |
| `Log.LogLayer.RecoverIntended` | src/kernel/filesys.c:66-73 | with the count loaded, recovery ends in the replayed state and every crash point inside it recovers to the same committed state |
| `Log.SlotWritesAtomicIff` | src/kernel/filesys.c:127-145 | slot writes leave the home blocks all-old or all-new for all contents if and only if fewer than LOGSIZE blocks are logged |
| `LogProtocol.StepKeepsInv` | src/kernel/filesys.c:78-123 | every begin_op, log_write, end_op and end of commit keeps the reservation invariant |
| `LogProtocol.ReservationHolds` | src/kernel/filesys.c:78-162 | on every run, logged blocks plus unused budgets stay within LOGSIZE, commit never overlaps an open operation, and no guard fires for an operation within its budget |
| `LogProtocol.Rounds` | src/kernel/filesys.c:78-123 | on every run at most three operations are open, begin_op goes on exactly if no commit runs and there is room for MAXLOGOPS blocks of each, the end of the last operation and of no other starts a commit, and a finished commit leaves the log as at boot |
| `LogProtocol.FilledReachable` | src/kernel/filesys.c:78-162 | a run that uses the whole budget reaches every count, so the bound is tight |
| `LogProtocol.FullPanics` | src/kernel/filesys.c:143-146 | a run of three operations that use up their reservations, after which every further log_write panics, even of a block already in the log |
| `LogProtocol.SlotsInsideRegionIff` | src/kernel/filesys.c:78-162 | every run with at most `budget` blocks per operation stays inside the log region if and only if budget is below MAXLOGOPS |
| `BufferCache.Cache.constructor` | src/kernel/bufcache.c:27-46 | the list starts as one cycle of all buffers, nothing is referenced, every block is seen as on the disk |
| `BufferCache.Unlinked` | src/kernel/bufcache.c:113-114 | taking a buffer out of the doubly linked cycle leaves a cycle of all the others in order |
| `BufferCache.Inserted` | src/kernel/bufcache.c:40-44 | putting a buffer in at the head leaves a cycle with it first |
| `BufferCache.Cache.FindKey` | src/kernel/bufcache.c:55-63 | the forward search finds a buffer of the block exactly when there is one |
| `BufferCache.Cache.FindUnused` | src/kernel/bufcache.c:65-76 | the backward search finds the least recently released unreferenced buffer, or there is none |
| `BufferCache.Cache.Get` | src/kernel/bufcache.c:50-79 | panics exactly when the block is not cached and every buffer is referenced; otherwise adds one reference and recycles only the least recently used unreferenced buffer, never a pinned one; the recycled buffer's block is then seen as on the disk and every other block as before |
| `BufferCache.Cache.Lock` | src/kernel/bufcache.c:59-61 | the sleep lock is taken only when free, by a process that holds a reference |
| `BufferCache.Cache.Fill` | src/kernel/bufcache.c:81-90 | the buffer then holds the block as everyone sees it |
| `BufferCache.Cache.Modify` | src/kernel/filesys.c:132-132 | a holder's change is seen in that block only |
| `BufferCache.Cache.Write` | src/kernel/bufcache.c:94-99 | refused exactly without the lock; otherwise disk and readers get the buffer, valid or not, and no other block changes |
| `BufferCache.Cache.Unlock` | src/kernel/bufcache.c:102-108 | refused exactly without the lock; a settled cache stays settled if and only if the buffer is pinned or equals its disk block |
| `BufferCache.Cache.Drop` | src/kernel/bufcache.c:110-122 | one reference less; a buffer nobody refers to becomes the most recently used and the list stays a permutation of all buffers |
| `BufferCache.Cache.LogWrite` | src/kernel/filesys.c:139-162 | panics exactly on a full log or outside a transaction; pins the buffer of a block not yet logged, so that the pinned buffers are exactly those of the logged blocks |
| `BufferCache.Cache.WriteTurn` | src/kernel/filesys.c:550-556 | one turn of write_inode on the cache: the block is seen with the bytes copied, it is logged only if the copy was complete, and the cache stays settled if and only if the turn is safe |
| `BufferCache.TurnSafeIff` | src/kernel/filesys.c:550-556 | for all contents, a turn is safe if and only if the copy does not fault in the block, faults before its first byte there, or the block is already in the log |
| `BufferCache.RecycleLosslessIff` | src/kernel/bufcache.c:65-76 | recycling a buffer changes no block's contents if and only if the buffer equals its disk block |
| `BufferCache.LostWrite` | src/kernel/filesys.c:552-555 | a run from boot, with 29 other processes each holding one buffer, in which a byte copied before a fault is seen by a reader, and later, with no write in between, no longer |
| `BufferCache.Cache.Unpin` | src/kernel/bufcache.c:131-135 | the pin of the next logged block is dropped; the cache stays settled if and only if that buffer is held or equals its disk block |
| `BufferCache.Cache.CopyToLog` | src/kernel/filesys.c:127-137 | the slot gets, on the disk and for its readers, what the block is found to hold, which is what was seen before if the block is logged, the slot cached or the cache settled; every other block is seen as before but for those whose buffers were recycled, at most one if the block is logged, and those as on the disk; otherwise every buffer is in use |
| `BufferCache.Cache.CopyHome` | src/kernel/filesys.c:192-206 | the home block gets what was seen in the slot, stale buffers or not; every other block is seen as before but for at most one whose buffer was recycled for the slot, if the home block is logged, and that one as on the disk; otherwise every buffer is in use |
| `BufferCache.UnreferencedEqualsDisk` | src/kernel/bufcache.c:65-76 | in a settled cache a valid buffer nobody refers to equals its disk block |
| `BufferCache.PanicIff` | src/kernel/bufcache.c:65-77 | every buffer is in use, so that reading an uncached block panics, if and only if the logged blocks not yet installed and the other buffers held add up to all buffers |
| `BufferCache.FullLogPanics` | src/kernel/bufcache.c:65-77 | with as many blocks logged as there are buffers, every other block, the log itself included, is uncached and cannot be read |
| `Files.AllocatedOwned` | src/kernel/filesys.c:224-255 | marking and zeroing a free block keeps ownership, changes no address, and leaks only that block |
| `Files.AssignOwned` | src/kernel/filesys.c:470-498 | storing a leaked block in an empty place keeps every block owned at most once and unleaks exactly it |
| `Files.FreedOwned` | src/kernel/filesys.c:257-272 | clearing the mark of a block no place holds keeps ownership and changes no address |
| `Files.StoredEffect` | src/kernel/filesys.c:549-556 | writing into a mapped block changes exactly the bytes written, of that file only |
| `FileSys.FileSystem.ScanBitmapBlock` | src/kernel/filesys.c:231-242 | with the mask taken from i the inner loop sees only bit 0 of each byte, and stops at the first clear one |
| `FileSys.FileSystem.BufferAlloc` | src/kernel/filesys.c:224-246 | with room in the log: hands out the lowest unmarked block divisible by 8, marked, zeroed and logged; panics exactly when there is none or outside a transaction |
| `FileSys.FileSystem.BufferFree` | src/kernel/filesys.c:257-272 | with room in the log: panics exactly on an unmarked block or outside a transaction; otherwise clears that mark only; the block that changed is in the log |
| `FileSys.FileSystem.BufferMap` | src/kernel/filesys.c:470-498 | with room in the log: panics exactly past MAXFILE, or when more blocks have to be allocated than can be; otherwise fills only the requested hole and the indirect slot on the way with fresh blocks; no byte, size or other address changes; bounds the blocks logged; every block that changed is in the log |
| `FileSys.FileSystem.WriteBlock` | src/kernel/filesys.c:550-556 | with room in the log, panics exactly if the block cannot be mapped or, after a complete copy, outside a transaction; the bytes copied are in the file as cached; after a complete copy the block is in the log, and every block that changed is, but for bytes undone by recycling the buffer, which there are exactly if the copy faulted past its first byte in a block that is not in the log |
| `FileSys.FileSystem.WriteLoop` | src/kernel/filesys.c:549-558 | the bytes copied before a fault are in the file as cached, and the counted ones also after the last buffer is recycled; the bytes past the count can vanish exactly if their block was not in the log; the blocks logged are within the count of data, bitmap and indirect blocks; every block that differs for good from the start is in the log, and so is every block under the bytes counted, changed or not |
| `FileSys.FileSystem.WriteInode` | src/kernel/filesys.c:537-566 | refused exactly as the source refuses; otherwise the file is the old bytes with [off, off+n) replaced or extended, all other files are unchanged, hole-freedom and ownership are kept, and a chunk stays within the log budget; after a fault the bytes past the returned count are there, or gone once their buffer is recycled, and the block they were meant for is mapped; every block that differs for good is in the log, and so are the blocks under the bytes counted and the inode block |
| `FileSys.FileSystem.WriteFile` | src/kernel/file.c:147-171 | over all chunks the file is one splice, the offset advances by what was counted, bytes past the offset are there or gone after recycling, and each operation logs at most 7 blocks with one bitmap block, at most MAXLOGOPS for any disk when the file has no hole below its size; the operations form a chain of images in each of which what changed for good, the blocks under the bytes counted and the inode block are in that operation's log |
| `FileSys.Budget` | src/kernel/file.c:148-168 | the bound on distinct blocks logged by one chunk, with absorption: data, bitmap, indirect and inode blocks |
| `FileSys.WroteMore` | src/kernel/filesys.c:549-558 | consecutive block writes are one write of the concatenated bytes |
| `FileSys.FileSystem.ReadBlock` | src/kernel/filesys.c:519-531 | the bytes under one block; a mapped block is read without allocating |
| `FileSys.FileSystem.ReadInode` | src/kernel/filesys.c:508-534 | returns -1 exactly as the source does; otherwise delivers the slice of the file up to a copy fault and returns the clamped request; a hole-free file is read without allocating or panicking; outside a transaction, as in read_file, log_write's guard makes it panic exactly when it reaches a hole; what it allocates is logged |
| `FileSys.FileSystem.InodeTruncate` | src/kernel/filesys.c:419-447 | panics exactly outside a transaction, never in buffer_free's test; empties the file, keeps the others and ownership, leaks exactly the indirect entries from the 13th on, and logs exactly the bitmap blocks of what it frees and the inode block; every block that changed is in the log |
| `FileSys.TruncateBudget` | src/kernel/filesys.c:425-446 | a truncate logs at most two blocks where one bitmap block covers the device, and at most MAXLOGOPS on any device of fewer than MAXLOGOPS bitmap blocks |
| `FileSys.TruncateLeaksIff` | src/kernel/filesys.c:433-443 | truncating in a leak-free image leaves it leak-free if and only if the file had no indirect entry past the 12th |
| `FileSys.LongFileLeaks` | src/kernel/filesys.c:433-443 | of every hole-free file, all blocks from the 25th on are leaked |
| `FileSys.TruncateLeaksBySize` | src/kernel/filesys.c:433-443 | for a file that maps just the blocks below its size, truncating leaves a leak-free image leak-free if and only if the size is at most 24 blocks |
| `MakeFs.LeakRun` | src/kernel/filesys.c:433-443 | any file the image builder can lay out, truncated by the kernel: nothing is leaked if and only if it has at most 24 blocks, and otherwise every later block is marked and held by no file |
| `MakeFs.FaultLeakRun` | src/kernel/filesys.c:549-561 | the size alone does not decide: a write at the end of a file of 24 blocks whose copy faults at once returns 0 and keeps the size but maps a 25th block, and truncating then leaks it |
| `MakeFs.RecordRoundTrip` | src/makefs.c:182-203 | a record written into an inode block is read back, and the other fifteen are unchanged |
| `MakeFs.TableWrite` | src/makefs.c:182-192 | writing a record changes exactly that inode in the table the kernel reads |
| `MakeFs.RecordsFitIff` | src/makefs.c:214-224 | a record lies below the bitmap block if and only if its inode number is below 208 |
| `MakeFs.AllocStep` | src/makefs.c:257-271 | taking the next free block is the kernel's allocation of that block |
| `MakeFs.Builder.constructor` | src/makefs.c:87-110 | an all-zero image with the superblock's eight words is a file system of empty files |
| `MakeFs.Builder.IAlloc` | src/makefs.c:214-224 | writes an empty record of that type with one link at the place of the next inode and nothing else; no file changes while the place is in the inode blocks or in the bitmap block, which later erases it |
| `MakeFs.Builder.RInode` | src/makefs.c:194-203 | the record is the one in the kernel's table |
| `MakeFs.Builder.WInode` | src/makefs.c:182-192 | only that record changes |
| `MakeFs.Builder.BlockFor` | src/makefs.c:254-272 | the block under a file block, allocated like the kernel's buffer_map does |
| `MakeFs.Builder.IAppend` | src/makefs.c:242-283 | the file grows by exactly the given bytes, other files, types and link counts are kept, each file maps exactly the blocks below its size, every block below freeblock is metadata or in a file, and at most two blocks are taken for each block touched; it fails only on a full image or past the maximal file size |
| `MakeFs.Builder.BAlloc` | src/makefs.c:226-238 | the bitmap block has exactly the bits below freeblock set |
| `MakeFs.Builder.Finish` | src/makefs.c:161-168 | the finished image meets the kernel's ownership invariant with exactly the blocks below freeblock marked and none leaked, files hold what was appended and map just the blocks for it, and the root is zero-filled to its rounded size with the blocks past its entries unmapped: all this if and only if the root directory was below the maximal file size |
| `MakeFs.Builder.ReadBack` | src/kernel/filesys.c:508-534 | the kernel's read_inode on the finished image returns the requested slice of what was appended |
| `MakeFs.Builder.ReadRoot` | src/kernel/filesys.c:508-534 | outside a transaction, reading the finished root directory panics if and only if its entries end at a block boundary and the read gets past them; otherwise it delivers the entries and zeros after them |
| `PathLookup.SkipElem` | src/kernel/filesys.c:677-705 | returns the next '/'-separated name cut to DIRSIZE and the position of the rest, or nothing exactly at the end |
| `PathLookup.SplitAtSlash` | src/kernel/filesys.c:677-705 | the names of a/b are those of a followed by those of b, for all byte strings |
| `PathLookup.SplitName` | src/kernel/filesys.c:688-692 | a name without slashes is its own split |
| `PathLookup.SameName` | src/kernel/filesys.c:595-595 | strncmp over DIRSIZE says equal exactly when the name equals the stored one up to its NUL |
| `PathLookup.InodeTable.Get` | src/kernel/filesys.c:323-354 | one reference more on that inode and no other, one live entry per inode; panics exactly with a full table that does not hold it |
| `PathLookup.InodeTable.Lock` | src/kernel/filesys.c:356-383 | panics exactly on an unreferenced or typeless inode; otherwise locked and loaded |
| `PathLookup.InodeTable.Put` | src/kernel/filesys.c:397-417 | one reference less; frees the inode exactly when it was the last one and there are no links, and marks the entry not valid exactly then |
| `PathLookup.InodeTable.DirLookup` | src/kernel/filesys.c:579-604 | the first entry in use with the name, and a reference to its inode; otherwise nothing changes; panics exactly if it finds the name and the inode table is full without that inode |
| `PathLookup.FindIs` | src/kernel/filesys.c:588-601 | the answer is the number in the first entry that is in use and bears the name byte for byte with a NUL after it if there is room, and there is none exactly if no entry does |
| `PathLookup.InodeTable.NameFetch` | src/kernel/filesys.c:639-675 | equals the fold of directory lookup over the path's names; on every exit the returned inode alone has one reference more and no lock is left held; panics only with a full table or a typeless inode |
| `PathLookup.ResolveParent` | src/kernel/filesys.c:639-675 | looking a path up is looking its parent up and then the last name there |
| `PathLookup.ResolveWalked` | src/kernel/filesys.c:639-675 | whatever a lookup finds is the end of a chain of inodes, each a directory whose first entry bearing the next name, cut to 14 bytes, leads to the next |
| `PathLookup.ParentWalked` | src/kernel/filesys.c:655-658 | a parent lookup finds a directory at the end of such a chain for all names but the last |
| `PathLookup.WalkResolves` | src/kernel/filesys.c:639-675 | such a chain is found; one that reaches an inode of no type with names left panics, and one that reaches a file finds nothing |
| `PathLookup.InodeTable.DirLink` | src/kernel/filesys.c:606-633 | writes one entry into the first free slot or at the end; references and locks are as before; panics exactly if the name is found with the inode table full without that inode, or the directory has no free entry and cannot grow |
| `PathLookup.StrCpy` | src/libc/string/strcpy.c:2-15 | the name field gets at most 13 characters and a NUL, and a second NUL after a shorter name; the rest is as before |
| `PathLookup.LinkFoundIff` | src/kernel/filesys.c:606-633 | a fresh link is found under its name if and only if the name is shorter than DIRSIZE and no earlier entry has it |
| `PathLookup.LinkKeepsOthers` | src/kernel/filesys.c:606-633 | every other name is looked up as before |
| `Scheduler.StepKeepsInv` | src/kernel/process.c:295-376 | every step of any cpu keeps the lock, state and interrupt invariant, with traps wherever interrupts are enabled, timer yields inside them, and system calls that turn interrupts on and off |
| `Processes.RunInv` | src/kernel/process.c:295-446 | every state of every run satisfies it |
| `Processes.ExclusiveRunning` | src/kernel/process.c:334-352 | whenever a process lock is free the process is RUNNING if and only if some cpu's proc names it, and at most one does |
| `Processes.SpinlocksExclusive` | src/kernel/locks.c:19-59 | on every run no two cpus hold the same spinlock, process locks included |
| `Processes.SchedulerChoice` | src/kernel/process.c:320-330 | on every run the process whose lock the scheduler loop holds is run exactly if it is RUNNABLE and passed over exactly if it is not |
| `Processes.SwitchGuards` | src/kernel/process.c:334-352 | before a switch the process lock is held, the process is not RUNNING and interrupts are off; the lock depth is 1 if and only if the caller held no lock besides the one it gave, and then the process lock passes to the scheduler thread still held |
| `Processes.InterruptsRestored` | src/kernel/process.c:334-376 | after sleep or yield gives the process lock back, interrupts are as on entry, on whatever cpu it runs and whatever ran there before: off after a yield, as the caller had them after a sleep, and a sleeper has been woken |
| `Processes.HandlersMasked` | src/kernel/trap.c:147-179 | on every run a trap handler has interrupts off from entry to sret, also after a yield in it, so handlers never nest; elsewhere a process can be interrupted exactly while its cpu has interrupts enabled, and then it holds no spinlock |
| `Processes.SleepRestores` | src/kernel/process.c:362-376 | once sleep has its lock back, dropping it leaves interrupts as they were on entry, whatever traps and yields came in between |
| `Processes.MixReachable` | src/kernel/process.c:334-352 | a run from boot on one cpu in which a process yielding from a timer trap lands with the cpu's saved state on and needs it off, and a process woken from sleep lands with it off and needs it on: scheduler()'s restore changes it both ways |
| `Processes.NoLostWakeup` | src/kernel/process.c:295-376 | in every interleaving, a process inside sleep(chan, lk) when wakeup(chan) begins under lk is RUNNABLE in some state before that wakeup is over |
| `Processes.StateMoves` | src/kernel/process.c:295-452 | on every run a process changes state only so: a sleeper becomes RUNNABLE by a kill of it or a wakeup of the very channel it sleeps on, a RUNNABLE one RUNNING by the cpu that then runs it under its lock, a RUNNING one by its own yield, sleep or exit |
| `Processes.SleepsOn` | src/kernel/process.c:295-311 | a process asleep on a channel stays asleep on it, whatever happens, while no wakeup of that channel is under way or begins and nobody kills it |
| `Processes.RaceReachable` | src/kernel/process.c:295-376 | the race is real: a run from boot in which a wakeup in an interrupt handler begins after the sleeper released its condition lock and before it is SLEEPING |
| `Processes.CommittedUnderLock` | src/kernel/process.c:362-376 | holding lk excludes a sleeper that has not yet released it |
| `Processes.WakerKept` | src/kernel/process.c:295-311 | no step of another cpu takes a sleeper out of a wakeup's sight before it is woken |
| `Malloc.PayloadFitsIff` | src/user/malloc.c:60-60 | the rounded block holds the request if and only if the rounding does not wrap |
| `Malloc.NUnitsLeast` | src/user/malloc.c:60-60 | no smaller number of units would hold the request |
| `Malloc.ArithmeticExactIff` | src/user/malloc.c:41-60 | the sizes of malloc and morecore are exact if and only if the request is at most 2^32 - 16 |
| `Malloc.Allocator.FindPlace` | src/user/malloc.c:25-27 | free's search goes round the cycle at most once and stops at the block's place in address order |
| `Malloc.Allocator.Free` | src/user/malloc.c:21-39 | the block leaves the live set, no other live header changes, and the free list stays one coalesced address-ordered cycle tiling the heap with the live blocks |
| `Malloc.Allocator.MoreCore` | src/user/malloc.c:41-54 | fails exactly when sbrk does; otherwise the new units join the free list and a block fits |
| `Malloc.Allocator.Take` | src/user/malloc.c:66-75 | a new live block of exactly n units, disjoint from all others, cut from the end or taken whole; the block handed out is the last n units |
| `Malloc.Allocator.Scan` | src/user/malloc.c:65-77 | one turn round the list finds a fit exactly when there is one, and then the first one after freep |
| `Malloc.Allocator.Malloc` | src/user/malloc.c:56-81 | terminates; fails exactly when nothing fits and sbrk refuses; otherwise a new live block of the rounded size and no other live block touched; where something fitted, the block is the end of the first fit after freep; otherwise exactly max(n, 4096) units are added |
| `Malloc.MaximalRun` | src/user/malloc.c:28-37 | the free blocks are exactly the maximal runs of free units |
| `Malloc.HistoryIndependent` | src/user/malloc.c:21-81 | two heaps with the same live blocks and the same sbrk'd units have the same free list, whatever calls led to them |
| `ShellLexer.GetToken` | src/user/sh.c:247-293 | takes exactly the first token of the rest of the line and makes progress |
| `ShellLexer.TokensSpellLine` | src/user/sh.c:247-293 | the texts of the tokens, one after the other, are the line without its blanks |
| `ShellLexer.Peek` | src/user/sh.c:296-305 | skips blanks only, and tells exactly whether the next token starts with one of the symbols |
| `ShellParser.ParseAllExact` | src/user/sh.c:315-429 | the parser returns a tree if and only if the whole token list is that tree's yield and every command has fewer than MAXARGS words |
| `ShellParser.Unambiguous` | src/user/sh.c:315-429 | a token list has at most one derivation |
| `ShellTree.ParsedIffSpelled` | src/user/sh.c:315-429 | the parser's tree for a line is c if and only if the line spells c, by splitting it at the semicolons, then the ampersands, then the bars, then parentheses and redirections, with the left part on the left, and every command has fewer than MAXARGS words |
| `ShellTree.SpellsOne` | src/user/sh.c:315-429 | a line spells at most one tree |
| `ShellTree.ReadsLine` | src/user/sh.c:315-429 | read from left to right, the tree's arguments and connectives are the line without parentheses and redirections, and its redirections and connectives are the line without parentheses and arguments |
| `ShellTree.LinePlaced` | src/user/sh.c:315-429 | arguments stand in the line in the order of argv, the left part of a pipe or list before the right one, and a redirection's file after those it wraps |
| `ShellCommand.Redirections` | src/user/sh.c:356-378 | parseredirs takes exactly the redirections at the cursor, or fails as the grammar does; what it took is these redirections in order and nothing else |
| `ShellCommand.CommandItems` | src/user/sh.c:396-429 | parseexec's loop agrees with the grammar on words, redirections and errors; the tokens taken spell the tree |
| `ShellCommand.CommandBlock` | src/user/sh.c:380-394 | parseblock agrees with the grammar; the tokens taken spell the tree |
| `ShellCommand.CommandPipe` | src/user/sh.c:345-354 | parsepipe agrees with the grammar; the tokens taken spell the tree, the command before the bar on the left |
| `ShellCommand.CommandLine` | src/user/sh.c:330-343 | parseline agrees with the grammar and terminates, by the remaining input and then the nonterminal; the tokens taken spell the tree, what is before the semicolon on the left |
| `ShellCommand.NulTerminate` | src/user/sh.c:432-476 | writes a NUL at the end of every recorded word and nowhere else |
| `ShellCommand.TreeWordsAreWords` | src/user/sh.c:315-429 | every pointer pair of an accepted tree delimits a word of the line |
| `ShellCommand.ParseCmd` | src/user/sh.c:315-328 | returns the tree c if and only if the line spells c and its commands fit; the tree reads from left to right as the line, with its words in line order; every argument and file name is a C string equal to its token and only bytes outside words were overwritten; on an error the buffer is untouched |
| `Virtio.Ring.constructor` | src/kernel/disk.c:95-104 | all descriptors free, nothing in flight |
| `Virtio.Ring.AllocDesc` | src/kernel/disk.c:107-117 | claims the lowest free descriptor or finds none |
| `Virtio.Ring.FreeDesc` | src/kernel/disk.c:120-130 | panics exactly on a bad or free index |
| `Virtio.Ring.FreeChain` | src/kernel/disk.c:133-143 | frees exactly a request's three descriptors and never panics on one in flight |
| `Virtio.Ring.Alloc3Desc` | src/kernel/disk.c:145-157 | three distinct free descriptors if and only if three are free; otherwise every free flag is as before |
| `Virtio.Ring.Submit` | src/kernel/disk.c:160-231 | sleeps exactly when two requests are in flight; otherwise queues a chain that spells out this buffer, sector and direction, and touches no other request |
| `Virtio.SectorsApartIff` | src/kernel/disk.c:162-162 | requests for different blocks never share a sector if and only if block numbers stay below 2^31 |
| `Virtio.Ring.Prepare` | src/kernel/disk.c:160-219 | everything before the chain is made available, as a step of its own: the device may act between it and Publish |
| `Virtio.Ring.Publish` | src/kernel/disk.c:222-230 | the chain joins the end of the available ring |
| `Virtio.Ring.DeviceTake` | src/kernel/disk.c:222-228 | the device finds a chain exactly when one is queued, in order, across 16-bit wrap-around |
| `Virtio.Ring.DeviceComplete` | src/kernel/disk.c:181-212 | what the device transfers from the descriptors alone is the submitted block in the submitted direction |
| `Virtio.Ring.DeviceAccepts` | src/kernel/disk.c:188-212 | every chain in flight is a 16-byte header, 1024 bytes the device may write exactly for a read, and a status byte it writes, as section 5.2.6 of VirtIO v1.1 asks |
| `Virtio.Ring.Interrupt` | src/kernel/disk.c:244-263 | with the device completing further chains between the turns of the loop, every completion, old or new, is seen once, and exactly the buffers submitted with them are released and woken; panics only on a nonzero status |
| `Virtio.Ring.Finish` | src/kernel/disk.c:233-240 | waits exactly until its own request was seen, then frees its descriptors without a panic |
| `Virtio.EightDescriptors` | src/kernel/disk.c:107-157 | free descriptors and three per request in flight make up all eight, so at most two are in flight |
| `Virtio.RingsSeen` | src/kernel/disk.c:248-260 | comparing indices modulo eight loses no completion |
| `Paging.EncodeDecode` | src/kernel/paging.c:87-159 | an entry gives back the page and permissions it was made from |
| `Paging.TableAdded` | src/kernel/paging.c:125-131 | linking in an empty second-level table changes no translation and keeps tables distinct |
| `Paging.LeafWritten` | src/kernel/paging.c:155-159 | writing one leaf entry changes exactly one translation |
| `Paging.Memory.Walk` | src/kernel/paging.c:109-134 | finds the entry of a page, allocating at most one fresh table; no translation and no other address space changes; null exactly without a table and without a page to make one |
| `Paging.Memory.MapPages` | src/kernel/paging.c:137-167 | maps exactly the pages from the first on to consecutive frames and changes no other translation; on a panic or lack of memory exactly the pages before it are mapped |
| `Paging.RangeExactIff` | src/kernel/paging.c:147-163 | the pages visited are exactly those of the requested range if and only if it does not run around into its first page |
| `Paging.Memory.FetchPage` | src/kernel/paging.c:69-89 | the page number in the entry if its V and U bits are set, else zero |
| `Paging.Memory.CopyOut` | src/kernel/paging.c:365-385 | stores exactly the bytes before the first whose entry lacks V, U or a page number, and succeeds if and only if there is none such; no other byte of memory changes, and each stored one is there unless a later one went to the same place; equals storing byte by byte |
| `Paging.Memory.CopyTo` | src/kernel/paging.c:341-361 | delivers exactly the bytes before the first whose entry lacks V, U or a page number, and succeeds if and only if there is none such; equals loading byte by byte |
| `Paging.Memory.CopyInStr` | src/kernel/paging.c:388-429 | delivers the bytes up to the first zero, all with V and U set in their entries, and succeeds if and only if that zero comes within max bytes and before a byte that cannot be read |
| `Paging.StoreLoad` | src/kernel/paging.c:341-385 | copyto reads back what copyout stored, for every user range of pages mapped once |
| `Console.Tty.Key` | src/kernel/console.c:93-140 | on the fields: ^U sets edit to write, DELETE takes edit back by one exactly if it differs from write, an ordinary key is dropped exactly when 128 bytes are in the ring and otherwise stored at edit, a carriage return as a newline, and write follows edit exactly at a newline, at ^D or on a full ring, which is exactly when readers are woken; the ring stands for the edited history |
| `Console.Tty.KillLine` | src/kernel/console.c:103-110 | leaves edit at write: the whole pending line is cleared, since it holds no newline |
| `Console.Tty.Read` | src/kernel/console.c:43-91 | delivers the next bytes of the edited input up to a newline or end-of-file mark, sleeps exactly with nothing readable, and consumes nothing undelivered but a lone end-of-file mark or a byte that could not be copied; the bytes are those of the ring from the read index on, which moves by what was consumed |
| `Console.Order` | src/kernel/console.c:54-132 | modulo 2^32, read, write and edit are in order within 128 and their differences are the true ones |
| `Console.FullIsReadable` | src/kernel/console.c:120-134 | a full ring is all readable, so a reader can always make room |
| `Console.DoneGrows` | src/kernel/console.c:93-140 | what editing has made readable is never taken back |
| `Console.EditLaws` | src/kernel/console.c:93-140 | what each key does to the edited line and to what readers get, on the history alone |
| `Console.TypedAndKilled` | src/kernel/console.c:93-140 | typed text followed by ^U, or by as many DELETEs, leaves no trace, and a line typed after it and entered reaches the readers as typed |

## Left out

- `Log.LogLayer.Commit`: stated for fewer than LOGSIZE logged blocks; for a full log `Log.SlotWritesAtomicIff` shows that atomicity fails.
- `BufferCache.Cache.CopyToLog`: the loop body of write_log without interleaving, for uncontended buffer locks; the steps it is made of interleave freely.
- `BufferCache.Cache.CopyHome`: the loop body of cpy_log_to_home likewise; its dec_buf_refcount is `BufferCache.Cache.Unpin`.
- `FileSys.FileSystem.BufferAlloc`: log_write's panic on a full log is not modelled here; `LogProtocol.ReservationHolds` shows that it does not fire for an operation within its budget, and the budgets are those of `FileSys.Budget` and `FileSys.TruncateBudget`.
- `FileSys.FileSystem.BufferFree`: the full-log panic, as for BufferAlloc.
- `FileSys.FileSystem.BufferMap`: the full-log panic, as for BufferAlloc.
- `FileSys.FileSystem.WriteBlock`: the full-log panic, as for BufferAlloc.
- `FileSys.TruncateBudget`: that a device of MAXLOGOPS or more bitmap blocks has a file whose truncate logs more than MAXLOGOPS blocks is not shown; the blocks logged are given exactly.
- `MakeFs.Builder.IAlloc`: inode numbers whose record would lie past the end of the image, which the tool would write there.
- `Scheduler.StepKeepsInv`: a wakeup is not interrupted, since all its callers hold a spinlock or run in a handler; exceptions in kernel code, which panic, are not modelled.
- `Malloc.Allocator.Malloc`: assumes that sbrk grants as many 8-byte units as morecore records; `Malloc.ArithmeticExactIff` says when the byte count passed to sbrk is that many. sbrk's signed argument is not modelled.
- `Malloc.Allocator.Scan`: the source's one loop is split where it comes back to freep.
- `MakeFs.Builder.BlockFor`: stops when block numbers reach the image size, where the tool would write past it.
- `MakeFs.Builder.IAppend`: appends to inodes whose record is in the inode blocks; `MakeFs.RecordsFitIff` says which these are.
- `MakeFs.Builder.Finish`: main's argument handling and the bytes of directory entries are not modelled.
- `PathLookup.InodeTable.NameFetch`: one process at a time on an unchanging tree in which every name counts as a link; waiting for another holder of an inode lock is not modelled.
- `Virtio.Ring.Interrupt`: that a wakeup makes the sleeping submitter run is the matter of `Processes.NoLostWakeup`.
- `PathLookup.InodeTable.DirLink`: directory entries are values, not bytes read through read_inode; that write_inode finds no free block is not modelled.
- `Paging.Memory.MapPages`: the permission mask is one of flag bits, below 1024, as every caller passes it.
- `Paging.Memory.CopyOut`: user pages lie in physical memory apart from the page tables.
- `Virtio.Ring.Submit`: the caller holds the buffer's lock, so the buffer is in no other request; the 64-bit sector is computed in 32 bits as in the source.
- `ShellCommand.CommandItems`: the exec node is built as a value; the source fills in the node it allocated first.
- Block copies are exact: memmove and memcpy of the C library are not modelled, including the overlap case in which memmove copies nothing.
- Block writes are atomic and reach the device in program order.
- In `FileSys.dfy` and `Log.dfy` buffers are recycled between calls, not inside them; a block that a call has not touched yet is the same before and during it, and one it has logged is pinned.
- The inode table of `FileSys.dfy` holds size and addresses only; `MakeFs.dfy` covers the on-disk records.
- Log commit runs in one process; that it never overlaps an open operation is proved in `LogProtocol.dfy`.
- kalloc is a pool of fresh pages; src/kernel/pmm.c is not part of this model, nor are uvmunmap, uvmdealloc, uvmcopy and freewalk.
- fork, wait, reparent, process allocation and user memory growth.
- Pipes, system-call argument handling, ELF loading.
- UART, interrupt controller, control registers other than the interrupt flag, boot, register saving and assembly files.
- printf, the other string helpers and the small user programs: they keep no state between calls, and nothing modelled here depends on them.
