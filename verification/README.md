# xv6 and lab programs: a Dafny model

This project models the parts of a teaching repository whose correctness is hard to see: the storage stack,
the heap allocator, processes, page tables, pipes, the console, the shell parser and the pattern matcher of a
modified x86 xv6, its user-thread library, and the FIFO paging simulator of lab 7. `dafny verify dfyconfig.toml`
checks all of it.

Most components come in two files. One describes the component on values: its state, its atomic steps, the
invariant, and theorems over every run. The other holds a class whose methods are the C functions, with their
loops over fields and arrays, and proves that each method performs the corresponding step.

| component | values and theorems | code |
|---|---|---|
| redo log | `LogRecovery`, `LogReservation`, `LogAdmission` | `Log` |
| file system | `FsLayout`, `FsState`, `FsAlloc`, `FsFile`, `FsWrite`, `FsTrunc`, `FsTruncLog`, `FsSpace`, `FsTight`, `FsWitness` | `FileSys`, `Mkfs`, `MkfsMain` |
| directories | `Directory`, `MkfsNames` | `DirOps` |
| log and file system together | `CrashSafety`, `GroupCommit`, `Interleaved`, `InterleavedLog` | |
| log and buffer cache together | `CacheLog`, `CommitBuffers` | |
| buffer cache | `CacheSpec` | `Bio` |
| heap | `HeapSpec`, `HeapLaws`, `HeapBacking` | `Umalloc` |
| processes | `ProcSpec`, `ProcLaws` | `Procs` |
| page tables | `VmSpec`, `VmRanges`, `VmAccess` | `VmMachine` |
| pipe, console | `PipeSpec`, `ConsoleSpec`, `ConsoleLaws` | `Pipe`, `Console` |
| shell, grep | `ShellSpec`, `ShellGrammar`, `ShellAppend`, `Grep` | `Shell`, `Grep` |
| paging simulator, user threads | `FifoSim`, `UThread` | the same |

`Blocks` has disk blocks, 32-bit words and shared constants; `Commons` has the optional value and small helpers.

## How the code is read

- A critical section under a spinlock is one atomic step; sleep releases the lock and blocks in that step. Between
  steps anything else may run. `fork` is split where it gives up `ptable.lock`, and `log_write` between its tests,
  which it makes before it takes `log.lock`, and its append. The test of `killed` in a blocking loop and the sleep
  that follows are two steps under the same lock, because `kill` takes another one.
- A panic or `exit()` is a result (`None`, an error value or a flag), and the theorems say exactly when it happens
  where that is interesting. A call whose C code would run off an array has the missing bound as precondition.
- Integers are unbounded except where width matters: log and inode words, pipe and console counters, unit counts of
  `malloc`, page-table entries and file offsets are 32-bit and wrap as in C.
- The disk is a sequence of blocks, each block write is atomic, and a crash may fall between any two writes.
- What user code and the kernel may do with a page is what an 80386 with write protection on would let them do, by the
  permissions in both levels of the page table.
- A physical page is 1024 words. The free list is a sequence of page numbers, and a ghost owner per page says who
  holds it: the free list, running code, or one place in one page directory.

## Where the code falls short of what one would expect

- `mkfs` makes a log of LOGSIZE blocks, one of which is the header, so `log_write` can panic although `begin_op`
  admitted the operation (`LogReservation.WritePanicsExactly`, `LogReservation.MkfsLogPanics`). In a log of any size it
  panics when LOGSIZE blocks are logged, also for a block that would be absorbed (`LogReservation.AbsorbingWritePanics`).
- `log_write` tests the size before it takes the lock. In a log of LOGSIZE blocks two operations can pass the test
  together and list one block more than there are slots (`LogReservation.RacingWrites`, `LogReservation.FitsExactly`);
  on the image of `mkfs` that slot is the first inode block (`MkfsMain.LogMeetsInodes`).
- `begin_op` counts the blocks that running operations have logged twice, so it can turn an operation away that would
  be safe (`LogAdmission.CountedTwice`); with what it looks at it cannot do better (`LogAdmission.BeginExactly`).
- `log_write` may list as many blocks as there are buffers; with these pinned, the first `bread` of a commit panics.
  Only a log of at most LOGSIZE - 2 blocks rules this out (`CommitBuffers.CommitPanicsExactly`,
  `CommitBuffers.SpareExactly`).
- `itrunc` can exceed the budget of its operation on a disk with MAXOPBLOCKS bitmap blocks over data, which `mkfs` does
  not make (`FsTruncLog.TruncWithinExactly`).
- `malloc` takes a `uint`, but `morecore` passes the product with the header size to `sbrk` as an `int`. A request above
  0x7FFFFFF0 bytes that reaches `morecore` and does not fail there either faults at the store of the new header or
  returns a block without the memory asked for (`HeapBacking.FaultsExactly`, `HeapBacking.BackedExactly`,
  `HeapBacking.HugeRequest`).
- `mkfs` rounds up the size of the root directory even when it is a multiple of BSIZE, which leaves a hole when the
  number of files is 30 modulo 32 (`MkfsMain.MakeImage`, `MkfsMain.ThirtyFiles`); a file with a hole can exceed the log
  bound (`FsWitness.HolesBreakBound`).
- `kill` looks at unused table entries, too, so it can mark a free one: by a pid that a failed `fork` left behind, or by
  pid 0; and a process killed while `fork` sets it up leaves its mark when that `fork` fails. The next process in that
  entry starts out killed (`ProcSpec.StepKeepsUnkilled`, `ProcSpec.StaleKill`, `ProcSpec.KillZero`,
  `ProcSpec.KilledEmbryo`).
- `pipewrite` of a killed process returns from its full-pipe loop without waking the readers, which can leave a reader
  asleep in front of a full pipe (`PipeSpec.StepKeepsNoneMissed`, `PipeSpec.LostWakeup`).
- The blocking loops of pipe and console test `killed` without `ptable.lock`, so a process killed between its test and
  its sleep sleeps on, until the other side moves (`PipeSpec.StepKeepsKilledAwake`, `PipeSpec.KilledReaderSleeps`,
  `PipeSpec.KilledWriterSleeps`, `ConsoleSpec.KilledReaderSleeps`).
- `thread_schedule` says it runs the current thread if it is the only runnable one, but its test compares a pointer
  that never leaves the table, so the process ends instead (`UThread.ExitsExactly`, `UThread.LoneYieldExits`).
- The shell parses `>>` like `>`; both open the file for writing from its start (`ShellAppend.AppendIsOutput`).

## Model

| member | source | states |
|---|---|---|
| LogRecovery.HeadRoundTrip | xv6/log.c:85-113 | The header block that write_head builds reads back as the same block list, for every list of at most LOGSIZE blocks and whatever the block held before |
| LogRecovery.InstallAt | xv6/log.c:69-82 | After k copies of install_trans a block holds the log copy of its last occurrence among the first k entries, every other block is untouched |
| LogRecovery.WriteLogAt | xv6/log.c:177-190 | After k copies of write_log exactly the first k log slots hold the cached data of the listed blocks |
| LogRecovery.RecoverAt | xv6/log.c:115-122 | What recovery leaves in every home block: the logged copy if the header lists the block, else the old contents |
| LogRecovery.RecoveryIsRestartable | xv6/log.c:115-122 | A crash after any number of recovery writes loses nothing: recovering again gives the same home blocks |
| LogRecovery.RepeatedCrashes | xv6/log.c:115-122 | The same for any number of crashes during recovery, each after any number of writes |
| LogRecovery.CommitImageHead | xv6/log.c:192-202 | The header on disk is empty up to the header write of commit, lists exactly the transaction until the erase, and is empty after it |
| LogRecovery.CrashBeforeHead | xv6/log.c:177-202 | A crash before the header write recovers to the disk before the transaction |
| LogRecovery.CrashAfterHead | xv6/log.c:177-202 | A crash at any later point recovers to the disk after the whole transaction |
| LogRecovery.CrashAtomicity | xv6/log.c:69-202 | Crash between any two block writes of commit, then any crashes during recovery: all home blocks are as before or as after the transaction, and the first header write is the switch point |
| LogRecovery.CommitInstalls | xv6/log.c:192-202 | An undisturbed commit installs the transaction and leaves the log empty |
| LogRecovery.TracesAreImages | xv6/log.c:177-202 | The single-write disk images used for crashes are exactly those the loops of commit and recovery produce |
| LogReservation.StepKeepsReserved | xv6/log.c:125-233 | Every step of begin_op, of the unlocked tests and of the locked part of log_write, of end_op and of commit keeps the reservation: lh.n plus unused budgets fits LOGSIZE, lh.block has no duplicates, commit runs with nobody outstanding |
| LogReservation.ReservationHolds | xv6/log.c:125-233 | The reservation holds in every state of every interleaving of operations, with other operations between the tests of a log_write and its append |
| LogReservation.EndNeverPanics | xv6/log.c:145-174 | end_op never finds a commit in progress |
| LogReservation.WritePanicsExactly | xv6/log.c:213-233 | Any log_write within its budget panics exactly when LOGSIZE blocks are logged or no slot is left; in the first case the operation has used its whole budget and the block is already in the list |
| LogReservation.AtMostLogsize | xv6/log.c:125-233 | lh.n never exceeds LOGSIZE, and at LOGSIZE no running operation has budget left |
| LogReservation.AbsorbingWritePanics | xv6/log.c:213-233 | For every log size above LOGSIZE, a run in which three operations log ten blocks each and logging one of those blocks again, within budget, panics |
| LogReservation.MkfsLogPanics | xv6/mkfs.c:25 | With the log that mkfs makes (nlog == LOGSIZE) a run of in-budget operations reaches that panic |
| LogReservation.RacingWrites | xv6/log.c:218-230 | For every log size from 2 to LOGSIZE, a run in which two operations pass the size test before either appends, so that lh.n reaches the log size |
| LogReservation.FitsExactly | xv6/log.c:125-233 | Every listed block has a log slot in every run exactly when the log has more than LOGSIZE blocks, or only one, in which case nothing is ever logged |
| LogReservation.SlotsInRegion | xv6/log.c:177-190 | write_log stays inside the log region exactly when lh.n is below the log size |
| LogAdmission.RunShape | xv6/log.c:125-174 | In every run at most three operations are outstanding, and with none outstanding and no commit the list is empty, so begin_op then admits |
| LogAdmission.SafeExactly | xv6/log.c:125-141 | Adding an operation in any state can lead an operation with budget left into the panic of log_write exactly when lh.n plus all unused budgets plus MAXOPBLOCKS exceeds LOGSIZE |
| LogAdmission.BeginExactly | xv6/log.c:128-140 | In every reachable state begin_op admits exactly when adding an operation is safe in all reachable states with the same lh.n and outstanding: no test of these two numbers admits more safely |
| LogAdmission.UnsafeAt | xv6/log.c:132 | For every lh.n and outstanding that it turns away, a run with these numbers that one more operation would lead into the panic |
| LogAdmission.CountedTwice | xv6/log.c:132 | A reachable state that it turns away although one more operation is safe: logged blocks of running operations count twice |
| LogAdmission.SleepersTurnedAway | xv6/log.c:126-174 | In every run, while a caller sleeps in begin_op the test would still turn it away, and a commit or an operation is under way whose end wakes it |
| Log.Log.InstallTrans | xv6/log.c:69-82 | The loop performs Install write by write, and the cached copies it installs become clean |
| Log.Log.ReadHead | xv6/log.c:85-96 | The in-memory list becomes the one encoded on disk |
| Log.Log.WriteHead | xv6/log.c:101-113 | One disk write, of the encoded header |
| Log.Log.RecoverFromLog | xv6/log.c:115-122 | The disk becomes the recovered one, through the sequence of images that the crash theorems quantify over |
| Log.Log.WriteLogBlocks | xv6/log.c:177-190 | The loop copies the cached view of each listed block into its log slot |
| Log.Log.Commit | xv6/log.c:192-202 | Home blocks become the committed ones, nothing stays dirty, and the intermediate disks are those of the crash theorems |
| Log.Log.TryBegin | xv6/log.c:125-141 | One pass of begin_op: admitted exactly when no commit runs and lh.n + (outstanding + 1) * MAXOPBLOCKS <= LOGSIZE, which is when the step system admits it; else it must sleep |
| Log.Log.LogCheck | xv6/log.c:218-221 | The two tests of log_write, made without the lock: they pass exactly with fewer than LOGSIZE blocks listed, a slot left and an operation outstanding |
| Log.Log.LogAppend | xv6/log.c:223-232 | The locked part of log_write: the list absorbs the block, the view changes at that block only, also beyond the budget while the array has room; within the budget it is the step Append and keeps the reservation |
| Log.Log.EndOp | xv6/log.c:145-174 | Bookkeeping of end_op, with a commit exactly when the last operation leaves |
| Log.Log.CommitDone | xv6/log.c:165-173 | The end of a commit reopens the log |
| Log.Log.FinishOp | xv6/log.c:145-174 | end_op as a whole: the last operation out commits the list through exactly the commit images and leaves nothing pinned; any other leaves disk, cache and list alone. In a log of more than LOGSIZE blocks every call may be made |
| HeapSpec.FreeKeepsInv | xv6/umalloc.c:24-44 | free keeps the heap invariant: sorted list with one wrap, no two free blocks adjacent, free and live blocks disjoint, exactly the units obtained from morecore |
| HeapSpec.GrowKeepsInv | xv6/umalloc.c:46-61 | morecore keeps it, also when the new memory merges into its neighbours |
| HeapSpec.GrowFits | xv6/umalloc.c:85-88 | After morecore the search succeeds even when the new memory was merged into its predecessor |
| HeapSpec.FitIsBlock | xv6/umalloc.c:74-84 | The search never hands out the base header and returns a block that is large enough |
| HeapSpec.TakeKeepsInv | xv6/umalloc.c:75-84 | Splitting or unlinking keeps the invariant, and the block handed out is disjoint from all live ones |
| HeapSpec.RequestHeld | xv6/umalloc.c:69 | The units handed out hold nbytes exactly when nbytes + 7 does not wrap at 2^32, and one unit less would not hold them |
| HeapLaws.FitExactly | xv6/umalloc.c:70-89 | malloc needs no new memory exactly when some free block is large enough |
| HeapLaws.NextFit | xv6/umalloc.c:70-89 | The block it takes is the first after freep around the ring: every one passed is too small |
| HeapLaws.FreeUndoesTake | xv6/umalloc.c:24-84 | Whatever block is cut and however, giving it back restores the free list block by block |
| HeapLaws.MallocThenFree | xv6/umalloc.c:24-90 | malloc without new memory, then free of its answer: the heap is as before but for freep |
| HeapBacking.AskedExactly | xv6/umalloc.c:51-54 | Up to 0x7FFFFFF0 bytes morecore asks sbrk for exactly its units; above that the product wraps or reads as a negative int, or the unit count itself has wrapped to 1 |
| HeapBacking.FaultsExactly | xv6/umalloc.c:54-58 | The store of the new header faults exactly when sbrk succeeded without adding memory and the page at the old process size is unmapped: that size is a page boundary, or the shrinking went below its page |
| HeapBacking.TakenFromCore | xv6/umalloc.c:70-88 | When nothing fitted, malloc hands out the last units of the memory that morecore added, merged with a neighbour or not |
| HeapBacking.BackedExactly | xv6/umalloc.c:46-90 | A malloc that goes through morecore and returns has its nbytes below the process size exactly when nbytes is at most 0x7FFFFFF0 |
| HeapBacking.SmallRequest | xv6/umalloc.c:46-61 | A first malloc of 100 bytes: the process grows by 4096 units and the bytes are there |
| HeapBacking.HugeRequest | xv6/umalloc.c:46-61 | A first malloc of 0xFFFFFFF8 bytes: sbrk(0) succeeds; the header store faults if the process size is a page boundary, else a block of 2^29 units is linked in without the memory |
| HeapBacking.NegativeRequest | xv6/proc.c:172-189 | A first malloc of 0xFFFF0000 bytes makes sbrk shrink the process and succeed, and the header store faults |
| HeapBacking.ShrinkingRequest | xv6/umalloc.c:46-61 | A first malloc of 0xFFFFFFF0 bytes takes 8 bytes away and, unless they end a page, links in a block without the memory |
| HeapBacking.ActKeepsBelow | xv6/umalloc.c:46-90 | Each malloc of at most 0x7FFFFFF0 bytes, each free, and each growth by the program keeps the heap in order and below the process size |
| HeapBacking.LiveBacked | xv6/umalloc.c:46-90 | Over every sequence of such calls all blocks handed out and not freed lie below the process size |
| HeapSpec.HeapInvariant | xv6/umalloc.c:24-90 | The invariant over every sequence of malloc and free calls, failing ones included |
| Umalloc.Allocator.FindPlace | xv6/umalloc.c:30-32 | The pointer-chasing loop ends at the unique predecessor in address order |
| Umalloc.Allocator.Free | xv6/umalloc.c:24-44 | The linked headers rewritten in place represent the list with the block inserted and joined on both sides; freep is the last free block below it |
| Umalloc.Allocator.Morecore | xv6/umalloc.c:46-61 | Fails exactly without memory, else the list gains a block of the units asked for, at least 4096 |
| Umalloc.Allocator.Carve | xv6/umalloc.c:75-84 | Exact fit is unlinked, a larger block is cut at its tail, in the headers in memory; freep is its predecessor |
| Umalloc.Allocator.Search | xv6/umalloc.c:70-89 | The search loop terminates, returns 0 exactly when nothing fits and there is no memory, and otherwise adds one new live block |
| Umalloc.Allocator.Malloc | xv6/umalloc.c:63-90 | For every nbytes: 0 exactly when every free block is too small and sbrk fails; otherwise a block disjoint from all live ones; with the first-call initialisation |
| FsLayout.GetPutInode | xv6/fs.h:28-42 | An inode stored in its slot of an inode block reads back, its neighbours are undisturbed |
| FsLayout.PutBitAt | xv6/fs.c:66-68 | Setting or clearing one bitmap bit changes no other bit |
| FsLayout.DinodeBytes | xv6/fs.h:28-36 | The inode record byte by byte: type, major, minor, nlink, size and thirteen addresses, little-endian, 64 bytes apart |
| FsLayout.BitmapBits | xv6/fs.c:64-66 | Bit i of a bitmap block is bit i % 8 of byte i / 8 |
| FsState.NoSharing | xv6/fs.c:372-400 | No block is in two slots of any inodes, and a block in a slot is a data block with its bit set |
| FsAlloc.MarkKeeps | xv6/fs.c:56-78 | balloc takes a data block that nobody owns (never block 0) and changes no slot |
| FsAlloc.FillKeeps | xv6/fs.c:377-395 | Filling an absent slot makes the new block owned by that slot alone; all other slots, inodes and data stay |
| FsFile.BmapKeeps | xv6/fs.c:372-400 | bmap of a present block changes nothing, of the next block adds just that block (and the indirect one) |
| FsSpace.BmapAny | xv6/fs.c:372-400 | bmap of any block of any file, holes or not: it panics exactly when fewer blocks are free than are missing; else the block is there, and no other slot of any file is filled, emptied or moved but the indirect one |
| FsFile.LoopWrites | xv6/fs.c:496-503 | The chunk loop splices the source into the file and leaves all other files alone |
| FsWrite.IupdateKeeps | xv6/fs.c:220-236 | iupdate makes the disk inode equal the in-memory one and changes no other inode and no file byte |
| FsWrite.WriteiRefines | xv6/fs.c:481-511 | Exactly for off <= size and an end within the largest file, writei is a splice of the byte sequence; kind, device numbers and links are kept, so are ownership and no-holes; other inodes are unchanged, disk and memory inode agree afterwards |
| FsWrite.ReadiRefines | xv6/fs.c:452-476 | For every off <= size whose end does not wrap, readi returns the bytes from off up to n or the end of the file, and allocates nothing |
| FsWrite.ReadAfterWrite | xv6/fs.c:452-511 | What writei wrote, readi returns |
| FsWrite.LoopLogs | xv6/fs.c:496-503 | The loop logs at most one block per chunk, the indirect block, and one bitmap block per block allocated |
| FsWrite.WriteiLogs | xv6/file.c:133-145 | A filewrite chunk adds at most MAXOPBLOCKS distinct blocks to the log, for every offset, chunk, number of bitmap blocks and earlier contents of the transaction |
| FsTight.BoundIsMet | xv6/file.c:133-145 | From an unaligned end in block 11, with four free blocks under four bitmap blocks, exactly MAXOPBLOCKS blocks are logged |
| FsTight.HoleExceedsBound | xv6/file.c:133-145 | With that block missing and five free blocks so spread, MAXOPBLOCKS + 1 blocks are logged |
| FsWitness.TransactionBoundTight | xv6/file.c:133-145 | Such a file system exists with every invariant in force: the bound is tight |
| FsWitness.HolesBreakBound | xv6/file.c:133-145 | And one that lacks only the no-holes invariant and exceeds the bound |
| FsSpace.WriteiPanicsExactly | xv6/fs.c:56-78 | On an accepted call writei runs into "out of blocks" exactly when fewer blocks are free than the file grows by, indirect block included; otherwise it takes exactly that many |
| FsTrunc.ItruncKeeps | xv6/fs.c:407-435 | itrunc never frees a free block, gives up exactly the blocks of its inode, empties it on disk too, keeps its kind and links, and leaves every other file alone |
| FsTruncLog.ItruncLogs | xv6/fs.c:407-435 | itrunc logs exactly the inode block and the bitmap block of each block the file has |
| FsTruncLog.TruncWithinExactly | xv6/fs.c:407-435 | Every truncation of a file in good order logs at most MAXOPBLOCKS blocks exactly when fewer than MAXOPBLOCKS bitmap blocks cover data blocks, for every layout |
| FsTruncLog.SpreadFile | xv6/fs.c:407-435 | For every layout with ten such bitmap blocks, a file system in good order with a file under ten of them |
| FileSys.FileSystem.Balloc | xv6/fs.c:56-78 | The two bitmap loops find the first clear bit, or none |
| FileSys.FileSystem.Bfree | xv6/fs.c:81-95 | Panics exactly when the block is free or off the disk; else clears its bit and no other |
| FileSys.FileSystem.Bmap | xv6/fs.c:372-400 | bmap in place: the address it returns is the slot of that block |
| FileSys.FileSystem.Iupdate | xv6/fs.c:220-236 | Afterwards the inode on disk equals the in-memory one and every other inode on disk is as before; block ownership, slots and the bytes of every file are kept |
| FileSys.FileSystem.Itrunc | xv6/fs.c:407-435 | Both loops of itrunc and the final update |
| FileSys.FileSystem.Readi | xv6/fs.c:452-476 | -1 exactly when off is behind the end or off + n wraps; else, on a file without holes, the bytes of the file from off, min(n, size - off) of them, with nothing changed |
| FileSys.FileSystem.Writei | xv6/fs.c:481-511 | -1 exactly when off is behind the end or the write passes the largest file; else a panic exactly for want of free blocks, or a splice that keeps kind and links and leaves other files alone |
| FileSys.FileSystem.Filewrite | xv6/file.c:117-156 | Every transaction logs at most MAXOPBLOCKS blocks; how much is written is determined: all of it, or the whole transactions that the largest file allows; it is spliced in, kind and links stay, the offset advances by it, -1 means not all was written; a panic exactly for want of free blocks |
| Directory.NameEqIs | xv6/fs.c:515-520 | namecmp finds two names equal exactly when their first DIRSIZ bytes are |
| Directory.ScanFrom | xv6/fs.c:533-548 | dirlookup finds the first entry in use with that name, misses exactly when there is none, and panics only if the last entry is not whole |
| Directory.LinkThenLookup | xv6/fs.c:524-576 | After dirlink the new name is found with its inode number, cut to 16 bits, and every other lookup gives what it gave before |
| DirOps.Dirlookup | xv6/fs.c:524-548 | The loop of readi calls finds what the scan finds and changes nothing, also in a directory with a hole behind the entry |
| DirOps.Dirlink | xv6/fs.c:551-576 | -1 exactly when the name is there; else the entry goes into the first unused place or the end, other files stay, and lookups change as they should; a panic exactly for what is no directory, a ragged one, one at its largest size or a full disk |
| CrashSafety.WriteiLogged | xv6/fs.c:481-511 | writei changes only blocks that it passes to log_write, none of them before the inode blocks |
| CrashSafety.MountSame | xv6/fs.c:372-400 | A file system mounted from a disk with the same inode, bitmap and data blocks has the same files |
| CrashSafety.CrashSafeChange | xv6/log.c:69-202 | Any transaction that changes only logged blocks between two file systems in good order: a crash anywhere in its commit and any crashes while recovering leave all files of the first or all files of the second |
| CrashSafety.CrashSafeWrite | xv6/file.c:133-145 | Crash anywhere in the commit of a write and any crashes while recovering: the mounted file has its old bytes or the spliced ones, switched by the header write, with its kind and links; other files are as before and ownership holds |
| GroupCommit.GroupRefines | xv6/log.c:125-174 | Any number of writes in one transaction: ownership is kept, every file is spliced by its own writes in order and no other and keeps its kind and links, and only logged blocks changed |
| GroupCommit.GroupLogs | xv6/log.c:125-141 | n writes of filewrite size in one transaction log at most n times MAXOPBLOCKS blocks |
| GroupCommit.CrashSafeGroup | xv6/log.c:125-202 | Crash anywhere in a group commit and any crashes while recovering: every file is as before the first write or as after the last, all of them alike, switched by the header write; ownership holds |
| Interleaved.StepKeepsInv | xv6/fs.c:372-511 | Each step of concurrent writei calls on different inodes (bit set, block zeroed, slot filled, bytes copied, inode updated), in any order and with any free block, keeps: no block is shared, bits match owned and pending blocks, every file has what its call has written so far, no other file changes |
| Interleaved.Progress | xv6/fs.c:372-511 | In every such state an unfinished call can take a step, unless it needs a block and all are in use |
| Interleaved.InterleavingRefines | xv6/fs.c:481-511 | Any interleaving run to its end: ownership holds, each file is spliced as if its call had run alone and keeps its kind and links, all other files are as before, and only logged blocks changed |
| Interleaved.CrashSafeInterleaving | xv6/log.c:125-202 | And its commit is atomic under a crash anywhere in it and any crashes while recovering: all calls or none |
| InterleavedLog.InterleavedBudget | xv6/file.c:133-145 | In every interleaving, at every moment, each call of filewrite size has logged at most MAXOPBLOCKS distinct blocks |
| InterleavedLog.InterleavedLogs | xv6/log.c:125-141 | So n such calls in one transaction log at most n times MAXOPBLOCKS blocks |
| Mkfs.LayoutOk | xv6/mkfs.c:93-103 | The layout mkfs computes is a legal one |
| Mkfs.ZeroDisk | xv6/mkfs.c:108-118 | The zeroed image starts with no owned block and only empty files |
| Mkfs.RootSizeHoles | xv6/mkfs.c:158-163 | Rounding up the size of a file without holes leaves it whole exactly when its size is no multiple of BSIZE |
| Mkfs.Image.Ialloc | xv6/mkfs.c:223-235 | The next inode is empty with its type and one link; all others are unchanged |
| Mkfs.Image.Iappend | xv6/mkfs.c:255-297 | Appends the bytes to the file, keeps ownership and no-holes of every file |
| Mkfs.Image.Winode | xv6/mkfs.c:183-195 | The edited inode becomes the one on disk; no other inode, slot or byte changes |
| Mkfs.Image.FixRootSize | xv6/mkfs.c:158-163 | The root directory keeps its blocks and bytes, its size is rounded up, and it is whole afterwards exactly when its size was no multiple of BSIZE |
| Mkfs.Image.Balloc | xv6/mkfs.c:237-251 | Writing the bitmap establishes block ownership, whatever the sizes of the files are: bits are set exactly for metadata and owned blocks; files keep their inodes, blocks and bytes |
| MkfsMain.AppendAll | xv6/mkfs.c:152-153 | The copying loop stores all bytes of the source, however read splits them |
| MkfsMain.AddFile | xv6/mkfs.c:130-156 | One argument: a new inode with the bytes of the source and one more directory entry with its name |
| MkfsMain.MakeImage | xv6/mkfs.c:105-167 | The whole of main, for any list of files that fits: it stops early exactly at a name with a slash or a file that cannot be opened; otherwise block ownership holds, every inode but the root is whole, file k has inode k + 2 and the bytes of its source, the root holds exactly the entries, and is whole unless the number of files is 30 modulo 32 |
| MkfsNames.EntryIs | xv6/mkfs.c:120-151 | Entry j of the root directory names the j-th file, without a leading underscore, and its inode |
| MkfsNames.NameFound | xv6/mkfs.c:132-151 | dirlookup finds file k under its name, less a leading underscore, with inode k + 2, unless an earlier file has the same first DIRSIZ bytes |
| MkfsNames.FoundByName | xv6/mkfs.c:105-167 | In the finished image the locked root directory yields that inode, and the file there holds exactly the bytes that mkfs was given, also when the directory has a hole |
| MkfsMain.ThirtyFiles | xv6/mkfs.c:158-163 | A run with thirty files: 32 entries fill the block, the root directory gets size 1024 with its second block missing |
| MkfsMain.LogMeetsInodes | xv6/mkfs.c:93-103 | On the image that mkfs lays out, the log slot of the last block of such a race is the first inode block |
| CacheSpec.InitialInv | xv6/bio.c:38-56 | binit establishes the cache invariant |
| CacheSpec.StepKeepsInv | xv6/bio.c:61-141 | Each step keeps it: one buffer per block (dev != 0), clean valid buffers equal the disk, the ring holds every buffer once, idle ones in order of last release |
| CacheSpec.StepRefines | xv6/bio.c:61-141 | Seen through the cache, a block changes only when a holder modifies its buffer |
| CacheSpec.VictimIsLeastRecent | xv6/bio.c:78-91 | bget recycles the clean idle buffer that was released longest ago |
| CacheSpec.GetPanicsExactly | xv6/bio.c:61-93 | bget panics exactly when the block is not cached and every buffer is in use or dirty |
| CacheSpec.DirtyStays | xv6/bio.c:61-93 | A dirty buffer is never recycled; it stays dirty until it has been written to its block |
| CacheSpec.RefcntCounts | xv6/bio.c:61-141 | In every run the refcnt of a buffer is the number of bgets that returned it less the releases |
| CacheSpec.CacheRefinesDisk | xv6/bio.c:38-141 | Over every run the cache shows what a plain disk with the same modifications would hold |
| CacheSpec.BreadReadsPlain | xv6/bio.c:96-106 | Every valid buffer in every run holds what the plain disk holds |
| CacheLog.StepAbstracts | xv6/bio.c:62-140 | Each step of each user of the cache is a step of the picture that Log has of disk and pinned blocks: only bwrite and changes of pinned buffers alter it, exactly as Log.Bwrite and the pin do |
| CacheLog.RunAbstracts | xv6/bio.c:62-140 | So over every run the disk and the dirty buffers are the durable and pinned blocks of the log |
| CacheLog.BwriteIs | xv6/bio.c:109-116 | A holder's change and bwrite together are Log.Bwrite |
| CacheLog.PinIs | xv6/log.c:228-232 | A holder's change and the B_DIRTY of log_write together pin the new contents |
| CacheLog.BreadReads | xv6/bio.c:96-107 | bread gives what Log.Bread gives: the pinned contents if the block is pinned, else the disk's |
| CacheLog.PinnedStays | xv6/bio.c:80-92 | A pinned block stays in its buffer with its contents until that buffer is changed or written, whatever other users do |
| CacheLog.WriteLogReads | xv6/log.c:177-190 | So write_log finds in the cache what was pinned |
| CommitBuffers.GetPanicsByCount | xv6/bio.c:61-94 | bget of an uncached block panics exactly when the dirty buffers and the clean ones in use are all there are |
| CommitBuffers.CommitPanicsExactly | xv6/log.c:177-190 | The bread of a log block in write_log panics exactly when lh.n plus the buffers that others use equals NBUF |
| CommitBuffers.RunBounded | xv6/log.c:125-233 | In every run at most three operations are outstanding, and lh.n plus the operations past the tests is at most the log size plus one |
| CommitBuffers.ThreeRace | xv6/log.c:218-230 | A run in which three operations pass the tests together and lh.n reaches the log size plus one |
| CommitBuffers.SpareExactly | xv6/param.h:10-12 | In every run a buffer is left for write_log exactly when the log has at most LOGSIZE - 2 blocks, because NBUF equals LOGSIZE |
| Bio.BufferCache.constructor | xv6/bio.c:38-56 | The circular doubly linked list built by binit represents the ring |
| Bio.BufferCache.Bget | xv6/bio.c:61-93 | A cached block gets one more reference and nothing else changes; else an idle clean buffer is taken over, invalid, with one reference; the panic exactly when there is neither |
| Bio.BufferCache.Iderw | xv6/memide.c:38-60 | The four panics, and the copy in one direction with its flag changes |
| Bio.BufferCache.Bread | xv6/bio.c:96-106 | Returns the buffer locked, valid and with what the cache showed for that block; no block changes |
| Bio.BufferCache.BwriteBuf | xv6/bio.c:109-116 | For a held buffer the disk block becomes its data and it is clean; a panic exactly when it is not held |
| Bio.BufferCache.Brelse | xv6/bio.c:120-141 | Unlocks, drops one reference and at zero moves the buffer to the head of the list; a panic exactly when it is not held |
| Bio.BufferCache.Relink | xv6/bio.c:130-138 | Six pointer assignments unlink a buffer and put it first |
| ProcSpec.InitialInv | xv6/proc.c:134-168 | userinit establishes the process-table invariant |
| ProcSpec.StepKeepsInv | xv6/proc.c:87-511 | Each step of fork, exit, wait, sleep, wakeup, kill, yield and the scheduler keeps it |
| ProcSpec.RunKeepsInv | xv6/proc.c:87-511 | Over every interleaving: nobody asleep in wait has a ZOMBIE child, no ZOMBIE is anyone's parent, pids are distinct, exited pids are either ZOMBIE or reaped, once |
| ProcSpec.LeadsToInit | xv6/proc.c:194-282 | Parent links of started processes lead to init without a cycle |
| ProcSpec.WaitReapsOwnChild | xv6/proc.c:286-326 | wait reaps a ZOMBIE whose parent is the caller, which had exited and not been reaped |
| ProcSpec.ReapedAtMostOnce | xv6/proc.c:286-326 | Over every run no pid is reaped twice and only exited ones are |
| ProcLaws.WaitExactly | xv6/proc.c:286-326 | wait reaps exactly when some child is a ZOMBIE; else it returns -1 exactly when it has no child or is killed; else it sleeps on its own entry |
| ProcLaws.WaitFailsChildless | xv6/proc.c:286-326 | In every run a wait by a process that is not killed returns -1 only if it has no child |
| ProcLaws.SleepBeginsExactly | xv6/proc.c:286-466 | A process falls asleep exactly in its own sleep, on that channel, and in its own wait, if it has children, no ZOMBIE among them, and is not killed |
| ProcLaws.SleepEndsExactly | xv6/proc.c:241-511 | A sleeper stays asleep on its channel exactly until a wakeup of that channel, its own kill, or the exit of a child of the entry it sleeps on; then it is runnable |
| ProcLaws.SleepsUntilRoused | xv6/proc.c:431-511 | The same over runs: asleep until the first such step, runnable after it |
| ProcLaws.KilledExactly | xv6/proc.c:286-511 | killed is set by kill of that pid alone and cleared by the wait that reaps the process alone |
| ProcLaws.KilledUntilReaped | xv6/proc.c:286-511 | So in every run a killed process stays killed until it is reaped |
| ProcLaws.ZombieExactly | xv6/proc.c:241-326 | A process becomes a ZOMBIE by its own exit alone and stops being one when its parent reaps it |
| ProcLaws.ParentExactly | xv6/proc.c:194-326 | A process gets its parent from the fork that makes it, passes to init when that parent exits, and has none once it is reaped |
| ProcLaws.ChildUntilReaped | xv6/proc.c:194-326 | In every run a child stays its parent's until that wait reaps it or the parent exits |
| ProcLaws.EntryExactly | xv6/proc.c:87-326 | An entry is EMBRYO exactly from the fork that takes the first unused one until that fork ends, with the next pid; it is RUNNABLE after success and UNUSED after failure and after being reaped |
| ProcLaws.RunningExactly | xv6/proc.c:336-466 | A process runs from its dispatch until its own yield, sleep, exit or sleeping wait |
| ProcSpec.StepKeepsUnkilled | xv6/proc.c:74-511 | A step keeps all free entries unmarked exactly when it is neither a kill whose first entry is free nor a failing fork whose new entry was killed |
| ProcSpec.NewProcessUnkilled | xv6/proc.c:74-130 | Over every run without such a step each new process starts unkilled |
| ProcSpec.StaleKill | xv6/proc.c:493-511 | A run in which kill marks a free entry, so that the next process starts out killed |
| ProcSpec.KilledEmbryo | xv6/proc.c:205-212 | A run in which a process is killed while fork sets it up, the fork fails, and the next process starts out killed |
| ProcSpec.KillZero | xv6/proc.c:493-511 | A run in which kill(0) marks an entry that was never used, and the next process starts out killed |
| Procs.ProcTable.Allocproc | xv6/proc.c:87-130 | The first unused entry becomes EMBRYO with the next pid and no other entry changes, or the table is full |
| Procs.ProcTable.Wakeup1 | xv6/proc.c:471-479 | Exactly the sleepers on that channel become runnable; nothing else of any entry changes |
| Procs.ProcTable.ExitProc | xv6/proc.c:241-282 | The caller becomes a ZOMBIE, its children pass to init, and exactly the parent and init (for an inherited ZOMBIE) are woken if they sleep in wait; keeps the invariant |
| Procs.ProcTable.WaitOnce | xv6/proc.c:286-326 | One pass of wait's loop in the table: a pid exactly when some entry is a ZOMBIE with this parent, and that entry is then cleared; else -1 exactly when no entry has this parent or the caller is killed; else the caller sleeps on its entry |
| Procs.ProcTable.KillPid | xv6/proc.c:493-511 | Returns 0 exactly when some entry has that pid; the first such is marked and, if it slept, is runnable |
| VmSpec.NoSharing | xv6/kalloc.c:46-95 | No physical page is mapped at two user addresses, of one or of two directories, or mapped and free |
| VmSpec.SetEntry | xv6/vm.c:35-80 | A page-table entry written through the two-level walk changes one page of one flat map |
| VmRanges.FreeListDetermined | xv6/kalloc.c:59-95 | Ownership determines the free list up to order: equal ownership means the same pages are free |
| VmRanges.GrownShrunk | xv6/vm.c:232-245 | Growing and then shrinking a range leaves every mapping and every owner as before, but for added page tables |
| VmRanges.FreedRestores | xv6/vm.c:283-298 | Freeing an address space that was built from free pages restores ownership exactly |
| VmRanges.CopyAccessible | xv6/sysproc.c:120-153 | A copied address space has exactly the user-accessible pages of its parent |
| VmAccess.EntryDecides | xv6/vm.c:35-55 | The hardware grants an access exactly when the page-table entry does: directory entries carry all permissions |
| VmAccess.GrownCount | xv6/sysproc.c:120-153 | After allocuvm sys_pgcnt counts exactly the new pages more |
| VmAccess.KernelIs | xv6/vm.c:105-115 | Kernel pages: no access for users; the kernel loads everywhere in physical memory and stores everywhere but in its text; devices map to themselves |
| VmMachine.Machine.constructor | xv6/kalloc.c:46-53 | freerange: the given pages are free, all others stay outside the allocator |
| VmMachine.Machine.Kalloc | xv6/kalloc.c:82-95 | Hands out the first free page; fails exactly on an empty list |
| VmMachine.Machine.Kfree | xv6/kalloc.c:59-77 | The page is filled with junk and put first; no mapping changes |
| VmMachine.Machine.Walk | xv6/vm.c:35-55 | Finds the page table, adding one only if asked and missing; no flat map changes |
| VmMachine.Machine.Mappages | xv6/vm.c:60-80 | Success maps exactly the range; failure means an exhausted free list and a missing table; the panic means a page was already mapped |
| VmMachine.Machine.Deallocuvm | xv6/vm.c:255-279 | Unmaps and frees exactly the present pages of [PGROUNDUP(newsz), oldsz), each once, although it skips whole directory entries; pages with a byte below newsz keep address and permissions |
| VmMachine.Machine.Allocuvm | xv6/vm.c:221-249 | Succeeds exactly when the free list holds a page for every new page and every missing table; then every page from PGROUNDUP(oldsz) below newsz is private, reads as zero, and may be loaded and stored by user code, and all other pages keep address and permissions; on failure all mappings are as before |
| VmMachine.Machine.Freevm | xv6/vm.c:283-298 | User pages, tables and directory become free, nothing else changes owner |
| VmMachine.Machine.Setupkvm | xv6/vm.c:118-136 | Needs exactly 65 free pages; then no user page, and the kernel half with its permissions as the hardware sees them; else every page is given back |
| VmMachine.Machine.Copyuvm | xv6/vm.c:315-345 | Succeeds exactly when 65 pages, one per user page and one per table over them are free; each page of the child below sz has the same bytes in another frame and allows exactly the accesses it allows in the parent; on failure every page is back |
| VmMachine.Machine.Clearpteu | xv6/vm.c:302-311 | User code loses access to one page, the kernel keeps it, and every other page keeps address and permissions |
| VmMachine.Machine.Pgcnt | xv6/sysproc.c:120-153 | The nested loops count the pages that user code may load from |
| ShellSpec.LineRoundTrip | xv6/sh.c:306-425 | A printed command inside a longer line parses back to itself, up to the parenthesis or end that follows |
| ShellSpec.RoundTrip | xv6/sh.c:306-425 | For every command tree with at most MAXARGS - 1 well-formed words per command, parsing its parenthesised print returns the same tree |
| ShellSpec.PrintInjective | xv6/sh.c:306-425 | Different commands print differently |
| ShellSpec.LineGood | xv6/sh.c:244-425 | Whatever line is parsed, every pointer pair of the tree delimits a maximal word of the line |
| ShellSpec.Reparse | xv6/sh.c:306-425 | Printing the tree of any line that parses and parsing again gives the same command |
| ShellGrammar.LineParse | xv6/sh.c:323-425 | Every line that the grammar derives parses to the tree of its derivation: redirections wrap in the order written, pipes and lists group to the right, & binds the pipeline before it |
| ShellGrammar.LineDerived | xv6/sh.c:323-425 | And everything that parses is derived by the grammar with that tree |
| ShellGrammar.AcceptsExactly | xv6/sh.c:306-321 | So parsecmd accepts a line exactly when its tokens are a line of the grammar |
| ShellGrammar.Accepted | xv6/sh.c:306-321 | And builds the tree of that line, whichever derivation is taken |
| ShellGrammar.Unambiguous | xv6/sh.c:306-425 | Two derivations of the same tokens have the same tree |
| ShellGrammar.ToksSpell | xv6/sh.c:244-287 | The tokens spell the line without its blanks, and no word holds a symbol |
| ShellAppend.AppendIsOutput | xv6/sh.c:353-376 | Every command line parses to the same command, or the same panic, when >> is replaced by > and a blank |
| ShellSpec.ReadsBack | xv6/sh.c:428-472 | After nulterminate each argv and file string reads as the token scanned |
| Shell.Gettoken | xv6/sh.c:244-287 | The scanning loops return kind, extent and continuation of the next token |
| Shell.Peek | xv6/sh.c:289-299 | Skips blanks and tells whether one of the characters follows |
| Shell.Parseredirs | xv6/sh.c:353-376 | The redirection loop, on every string, with its panic for a missing file |
| Shell.Parseexec | xv6/sh.c:394-425 | Words and redirections, with both panics |
| Shell.Parseblock | xv6/sh.c:378-392 | A parenthesised line with its redirections around it, and the panics for a missing parenthesis |
| Shell.Parsepipe | xv6/sh.c:340-351 | A pipeline is the first command piped into the rest, on every string, with the first error met |
| Shell.Parseline | xv6/sh.c:323-338 | Each & wraps the pipeline before it, ; chains to the rest of the line, on every string |
| Shell.Nulterminate | xv6/sh.c:428-472 | Exactly the ends of the words of the tree become NUL |
| Shell.Parsecmd | xv6/sh.c:306-321 | Terminates on every line; the tree is the grammar's, leftovers are an error, and in the rewritten buffer every string reads as scanned |
| Grep.FirstPiece | xv6/grep.c:72-106 | A text is accepted exactly when the first item matches some prefix and the other items accept the rest |
| Grep.MatchHereDecides | xv6/grep.c:85-96 | matchhere is sound and complete for the language of the pattern, $ anchoring the end |
| Grep.MatchStarDecides | xv6/grep.c:99-106 | matchstar tries exactly the repetitions |
| Grep.FindsLiteral | xv6/grep.c:72-107 | A pattern of ordinary characters is found in exactly the texts that contain it |
| Grep.FindsWholeLine | xv6/grep.c:72-107 | Between ^ and $ in itself alone |
| Grep.FindsDots | xv6/grep.c:94 | n dots are found in exactly the texts of at least n characters, whichever they are |
| Grep.FindsRepetition | xv6/grep.c:98-107 | ^c*$ is found in the texts of c alone, ^.*$ in all |
| Grep.Match | xv6/grep.c:72-82 | match holds exactly when some suffix (the whole text under ^) has a prefix in the language |
| Grep.Matchstar | xv6/grep.c:99-106 | The do-while loop decides what matchstar's recursion decides |
| PipeSpec.StepKeepsInv | xv6/pipe.c:59-121 | Each step, with a kill possible between the test of killed and the sleep, keeps: reads are a prefix of writes, occupancy within PIPESIZE, sleepers as below |
| PipeSpec.PipeSafety | xv6/pipe.c:59-121 | In every state of every run, kills included: reads are a prefix of writes, a sleeping writer means full and open, and readers and writers never sleep together |
| PipeSpec.StepKeepsNoneMissed | xv6/pipe.c:78-98 | A step keeps every sleeping reader in front of an empty pipe exactly when it is not a killed writer filling the empty pipe past its size |
| PipeSpec.RunKeepsNoneMissed | xv6/pipe.c:78-121 | So over every run without such a step a sleeping reader means empty |
| PipeSpec.LostWakeup | xv6/pipe.c:85-92 | A run that ends with a reader asleep, the pipe full and nobody else inside |
| PipeSpec.StepKeepsKilledAwake | xv6/pipe.c:85-92 | A step puts a killed process to sleep exactly when it is the sleep of a process marked by then |
| PipeSpec.RunKeepsKilledAwake | xv6/pipe.c:78-121 | So over every run without such a step no killed process sleeps in the pipe |
| PipeSpec.KilledAfterTest | xv6/proc.c:493-511 | A process about to sleep passed the test unmarked and has held the lock since; a marked one was killed in between |
| PipeSpec.KilledReaderSleeps | xv6/pipe.c:106-112 | A run in which a reader killed in between sleeps on |
| PipeSpec.KilledWriterSleeps | xv6/pipe.c:85-92 | A run in which a writer killed in between sleeps on |
| PipeSpec.StreamsGrow | xv6/pipe.c:78-121 | Written and read bytes only grow |
| PipeSpec.RunsWake | xv6/pipe.c:78-121 | A writer that runs and is not killed leaves no reader asleep, a reader that takes bytes leaves no writer asleep |
| PipeSpec.ReadExactly | xv6/pipe.c:100-121 | A read waits exactly on an empty pipe that is open for writing, unless killed; else it takes the next min(n, available) bytes in order |
| PipeSpec.WriteExactly | xv6/pipe.c:78-98 | A write stores the next bytes up to its end or a full pipe, and waits exactly when bytes are left, the pipe is open for reading and the writer is not killed |
| PipeSpec.EofMeansAllRead | xv6/pipe.c:100-121 | In every run, once a read of n > 0 bytes returns none to a process that is not killed, all that was or will be written has been read |
| Pipe.Pipe.Put | xv6/pipe.c:93 | Storing through the wrapped counter keeps the ring in step with the stream |
| Pipe.Pipe.Get | xv6/pipe.c:116 | Reading through the wrapped counter returns the next unread byte |
| Pipe.Pipe.Store | xv6/pipe.c:84-94 | The copying loop stores exactly the bytes there is room for, in order |
| Pipe.Pipe.Pipewrite | xv6/pipe.c:78-98 | pipewrite up to its return or its sleep, across 2^32 wrap: stores min(left, room) bytes in order; n exactly when all fit, -1 exactly when not and the reader is gone or the caller killed |
| Pipe.Pipe.Piperead | xv6/pipe.c:100-121 | piperead up to its return or its sleep: min(n, available) bytes in order; waits exactly on an empty pipe with a writer, or returns -1 there when killed |
| Pipe.Pipe.SleepCall | xv6/proc.c:430-466 | The sleep of either call, which gives up the lock whatever kill has done, is the step Sleep |
| Pipe.Pipe.Pipeclose | xv6/pipe.c:59-75 | Closes that end only and wakes the other; the page is freed exactly when both are closed |
| ConsoleSpec.KillLineEmpties | xv6/console.c:203-209 | Kill-line empties an edit region without newlines down to w |
| ConsoleSpec.ConsumeDelivers | xv6/console.c:235-271 | One consoleread run delivers the input it uses without ^D, at most one line of it |
| ConsoleSpec.StepKeepsInv | xv6/console.c:191-271 | Each key, read, sleep and kill keeps: plain edit region, a full ring committed, reads equal the consumed stream without ^D, and who sleeps or is about to has nothing to read |
| ConsoleSpec.ReadsFollowCommits | xv6/console.c:191-271 | Over every run, kills included, committed bytes never change, so all reads together are a prefix of the committed stream without ^D |
| ConsoleSpec.StepKeepsKilledAwake | xv6/console.c:245-252 | A step puts a killed reader to sleep exactly when it is the sleep of a reader marked by then |
| ConsoleSpec.RunKeepsKilledAwake | xv6/console.c:235-271 | So over every run without such a step no killed reader sleeps |
| ConsoleSpec.KilledAfterTest | xv6/proc.c:493-511 | A reader about to sleep passed the test unmarked and has held the lock since; a marked one was killed in between |
| ConsoleSpec.KilledReaderSleeps | xv6/console.c:245-252 | A run in which a reader killed in between sleeps on |
| ConsoleSpec.AtMostOneLine | xv6/console.c:235-271 | A read returns at most n bytes and a newline only as the last one |
| ConsoleLaws.BackspaceUndoes | xv6/console.c:210-215 | Backspace or delete takes back the last ordinary key, and nothing that is committed |
| ConsoleLaws.KillUndoes | xv6/console.c:203-209 | ^U takes back any number of ordinary keys |
| ConsoleLaws.EnterCommits | xv6/console.c:216-226 | Return or newline ends the line with a newline, ^D with itself; either commits all keys in order and wakes all readers |
| ConsoleLaws.ConsumeExactly | xv6/console.c:242-266 | A read takes the bytes up to the first newline, included, the first ^D, or its target; a ^D is used up only by a read that has nothing else; the read waits exactly if it met neither and has room |
| ConsoleLaws.TypedIsRead | xv6/console.c:191-271 | A line of ordinary keys and Enter comes back from a read of n bytes as its first n bytes |
| Console.Console.Consoleintr | xv6/console.c:191-233 | One key, by its code: ^P and 0 nothing, ^U back to the committed part, ^H and delete one byte, any other key enters if there is room, return as newline; newline, ^D or a full ring commits and wakes; the ring with wrapping indices goes on representing the line |
| Console.Console.Erase | xv6/console.c:203-209 | The loop of ^U walks back over the ring to w or a newline |
| Console.Console.Consoleread | xv6/console.c:235-271 | consoleread up to its return or its sleep: returns bytes, is about to sleep on empty input, or returns -1 there when killed |
| Console.Console.SleepRead | xv6/proc.c:430-466 | Its sleep, which gives up the lock whatever kill has done, is the step Sleep |
| FifoSim.ResidentOnce | lab-07/sim.c:118-153 | For every trace no page is resident twice |
| FifoSim.FirstInFirstOut | lab-07/sim.c:118-153 | A hit leaves the queue of at most eight pages alone; a miss joins at its end and, when it is full, the page that has been there longest leaves |
| FifoSim.AccessedPages | lab-07/sim.c:239-283 | Exactly the accessed pages have faulted, and the last one is resident |
| FifoSim.StoredMore | lab-07/sim.c:118-153 | After one more fault disk followed by frames in ring order is still the fault sequence |
| FifoSim.Sim.InMemory | lab-07/sim.c:255-263 | The frame scan decides residency |
| FifoSim.Sim.MarkOnDisk | lab-07/sim.c:129-142 | Exactly the evicted page's slot becomes D |
| FifoSim.Sim.Fifo | lab-07/sim.c:118-153 | A fault moves the oldest page to disk and enters the new one; exit exactly on a full disk |
| FifoSim.Sim.Access | lab-07/sim.c:239-283 | One access: nothing changes for a resident page, a fault is recorded otherwise, and the tables stay those of the fault sequence |
| FifoSim.Sim.Run | lab-07/sim.c:239-283 | A whole trace ends normally exactly when its faults fit memory and disk; then disk, frames and page tables are those of its fault sequence |
| UThread.ScanFinds | xv6/uthreadlib.c:54-62 | The cyclic scan returns the nearest runnable thread |
| UThread.ExitsExactly | xv6/uthreadlib.c:40-80 | thread_schedule ends the process exactly when no other thread is runnable |
| UThread.LoneYieldExits | xv6/uthreadlib.c:64-72 | So a single thread that yields ends the process, against the comment there |
| UThread.StepKeepsInv | xv6/uthreadlib.c:28-109 | lastIndex always indexes the current thread |
| UThread.HandsOver | xv6/uthreadlib.c:40-109 | A thread that yields waits to run again, one that exits frees its slot; the nearest runnable thread runs next and no other state changes; the process ends exactly when no other thread can run |
| UThread.RunKeepsInv | xv6/uthreadlib.c:28-109 | So in every state of every sequence of calls |
| UThread.WaitStep | xv6/uthreadlib.c:40-80 | A waiting thread stays runnable and every scheduling dispatches it or brings it closer |
| UThread.BoundedWaiting | xv6/uthreadlib.c:40-109 | A runnable thread at cyclic distance d is dispatched within d calls of thread_schedule whatever the others do, for any table size |
| UThread.Threads.Schedule | xv6/uthreadlib.c:40-80 | Ends the process exactly when no other thread is runnable; otherwise the nearest one behind lastIndex runs, and lastIndex and current agree again |
| UThread.Threads.Create | xv6/uthreadlib.c:82-95 | The first free slot becomes runnable and nothing else changes; false exactly when there is none |
| UThread.Threads.Yield | xv6/uthreadlib.c:97-102 | The caller becomes runnable and the nearest other thread runs; the process ends when there is none |
| UThread.Threads.Exit | xv6/uthreadlib.c:104-109 | The caller's slot becomes free and the nearest thread runs; the process ends when there is none |

## Left out

- Hardware, boot code, interrupts, memory ordering, and the locks themselves; critical sections are atomic steps.
- Umalloc.Allocator.Malloc: the result of sbrk is a parameter, an address above the base header and above everything it returned before; HeapBacking says when memory lies there.
- Umalloc.Allocator.Free: only of pointers that malloc returned and that have not been freed since.
- FileSys.FileSystem.Readi: device files and the inode cache with its reference counts, locking and recycling are left out.
- DirOps.Dirlookup: says nothing of a miss in a directory with a hole, where readi allocates; ialloc, iput, path names and the calls that change link counts are left out.
- Directory.ScanFrom: for directories whose names are padded with NULs, as mkfs and dirlink leave them.
- FileSys.FileSystem.Filewrite: the file table, pipes behind file descriptors and concurrent writers to one inode are left out; the inode is locked throughout a chunk.
- CrashSafety.CrashSafeWrite: one writei per transaction, in a log that starts empty.
- GroupCommit.CrashSafeGroup: the writes of a transaction follow one another, on any inodes; Interleaved has their interleavings, for one call per inode.
- Interleaved.InterleavingRefines: which free block a balloc finds is left open; calls that writei refuses, and runs that end in the panic for a full disk, are left out.
- Mkfs.Image.Iappend: needs room on the image, which mkfs does not check; likewise Mkfs.Image.Ialloc a free inode and MkfsMain.MakeImage a list of files that fits.
- Bio.BufferCache.Bread: sleeping on a buffer lock is modelled in CacheSpec as a step that is not enabled; the method takes the buffer to be unlocked.
- Bio.BufferCache.BwriteBuf: a holder writes only buffers that bread has made valid.
- Bio.BufferCache.Brelse: a holder releases a buffer only after bwrite or log_write has taken note of its changes, as all of fs.c and log.c does.
- Log.Log.LogAppend: beyond the budget of MAXOPBLOCKS distinct blocks, which callers promise begin_op, only the list and the view are described, and only while the array has room.
- Log.Log.Commit: needs a slot for each listed block, which LogReservation.FitsExactly shows not to be sure in a log of LOGSIZE blocks.
- Log.Log.TryBegin: one pass of the loop; LogAdmission.SleepersTurnedAway has the sleeping and waking.
- ProcSpec.RunKeepsInv: safety only; that a ZOMBIE is eventually reaped depends on its parent calling wait.
- Contexts, kernel stacks and address spaces of processes; the trap path; exec and the other system calls.
- VmMachine.Machine.Kfree: the link word that the free list keeps inside a free page is part of the sequence of free pages, not of the page contents.
- VmMachine.Machine.Deallocuvm: sizes up to KERNBASE, which is all that its callers pass; VmMachine.Machine.Copyuvm and VmMachine.Machine.Allocuvm take the mappings that the panics demand as preconditions.
- inituvm, loaduvm, switchuvm, uva2ka and copyout.
- PipeSpec.PipeSafety: runs in which an end is closed only when no call on it is in progress.
- ConsoleSpec.ReadsFollowCommits: output to the screen is left out.
- Shell.Parseredirs: returns the redirections in order and the caller wraps the command, where the C code passes the command in and aliases the argument vector; running commands is left out.
- The reader loop of grep, which drops partial lines; only the matcher is modelled.
- FifoSim.Sim.Run: needs 1 <= pid <= 20 and 1 <= page <= 16; timestamps and the LRU mode are left out.
- UThread.Threads.Create: with a full table the C code writes past its end, of which the model says no more than that it is reached; stacks, saved registers and thread_switch are left out, and a table of one slot, for which the scan variable is never set.
- The other labs and user programs: thin wrappers over system calls, and earlier copies of the code modelled here.
