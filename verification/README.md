# Nachos-RiscV in Dafny

A model of the parts of Nachos-RiscV whose correctness is hardest to see from
the code, with proofs that hold for every input, every run or every reachable
state. `dafny verify dfyconfig.toml` checks all of it.

## What is modelled

**The file system on disk.** A disk is a sequence of sectors of bytes. On top of
it stand the word-packed bitmap (`BitMap.dfy`), file headers stored as a chain of
sectors (`FileHeader.dfy`), byte access by whole sectors (`OpenFile.dfy`),
directories (`Directory.dfy`), path names (`Path.dfy`) and the operations Create,
Mkdir, Remove and Rmdir (`FileSystemOps.dfy`). `FileTree.dfy` is the abstract
file system: which files exist, which sectors belong to them, which entry names
them. `FsDisk.dfy` says when a disk holds such a file system, and `FsSteps.dfy`
shows that every run from a formatted disk stays consistent. `FileGrowth.dfy`
does the same for a write that grows a file, `FileWrites.dfy` for any write,
also to files without a name and through open files that have fallen behind, and
`PathStability.dfy` shows that an operation changes what no other path means. `Layout.dfy`, `DiskImage.dfy` and `Basics.dfy`
hold the sizes, sectors as bytes and ints, and shared small definitions.

**Open files.** `OpenFileTable.dfy` is the table with its reference counts, over
whole runs and for any names. `OpenFileState.dfy` says what an entry stands for
on disk, also after the file has grown. `OpenFileOps.dfy` has Open and Close,
`OpenFileRemoval.dfy` Remove and the other operations while files are open, and
`DeferredRemoval.dfy` the two halves of a removal. `SystemRuns.dfy` puts it all
together: in runs of disk and table under Open, Close, Remove, Create, Mkdir,
Rmdir and writes, a file removed while it is open keeps its sectors until the
last close, which frees them once. `Pitfalls.dfy` has programs for the cases that
careful threads avoid.

**Threads, interrupts and devices.** `Synch.dfy` holds the scheduler, semaphore
and lock objects. `Semaphores.dfy` and `DriverProtocol.dfy` are state machines
over any number of threads whose steps are the atomic bodies of those objects.
`Interrupts.dfy` is the pending-interrupt list with the simulated clock,
`DiskTiming.dfy` the seek, rotation and track-buffer times, and
`LinkedList.dfy` the pointer list with its sequence meaning.

**Memory and machine.** `Mmu.dfy` and `PhysMem.dfy` are address translation,
frames and page tables; `Instructions.dfy` and `ShiftMasks.dfy` are decoding and
the shift masks; `Formatting.dfy` is the formatted output and the integer parser
of the user library.

## How to read the proofs

Objects that the source updates in place are classes; their tables and lists are
`seq` fields. Each method states its new state through a function or predicate
on values, and the lemmas are about those. `FsInv(d, g)` says that disk `d` holds
the consistent abstract file system `g`; the methods of the file system take `g`
as a ghost argument. Its two large halves are under a quantifier, so that they
are used only in the lemmas that call `FsInvIs`; `GrownTo` and `WritesTo` are
built in the same way. Products and quotients are
written with the recursive functions `Times`, `Quotient` and `Remainder`, which
are proved to be `*`, `/` and `%`.

The sector size is any number of ints from 8 to 4096, the disk any number of
tracks from 1 to 1024 (the source has 64), the page size any multiple of 8 and
the rotation time any positive number of ticks.

## Where the code needs care

- The buffer of `FileHeader::WriteBack` is declared one int short
  (filesys/filehdr.cc:227); the model gives it a whole sector.
- `reAllocate` counts header sectors from the old number of data sectors
  (filesys/filehdr.cc:117-119). `GrowthFitsIff` says exactly when the result is
  still a header that can list its sectors.
- A write that finds no room for more sectors writes what fits below the old
  length, but the object keeps the new length (filesys/filehdr.cc:114,
  filesys/openfile.cc:208-209). `UsableIffNotRefused`: its header is usable
  afterwards if and only if the write was not refused; `WriteTooMuch` is one that
  is.
- Every opener has a header of its own (filesys/oftable.cc:118, 151).
  `GrowthIsSafeIff`: a write that adds sectors leaves a consistent disk if and only
  if its header lists all sectors of the file; `OlderWriteKeepsInv`: other writes do
  no harm.
- Release with waiters wakes a thread but leaves the lock taken
  (kernel/synch.cc:205-211). `ReleaseSticksIff` and `StuckForever` say when the
  driver then never makes a request again, and `StuckIsReachable` is a run of two
  threads that gets there.
- `nbentry` is only updated by Open (filesys/oftable.cc:156-157), so a table
  refuses new names exactly if it has been full at some time, whatever has been
  closed since (`RefusesIffOnceFull`, `FullTableSticks`; `FullTableIsReachable` is
  such a run).
- An entry records the sectors a file had when it was opened
  (filesys/oftable.cc:139, 151), and the last close of a removed file frees those
  (filesys/oftable.cc:53-68). `LastCloseIff`: this leaves a consistent disk
  without leaked sectors if and only if the file has not grown since;
  `GrowRemoveClose` is a program for which it has.
- Removing a name while the table still holds a removed file of that name leaks
  the sectors of the newer file (filesys/oftable.cc:282-286): `RemoveLeaksIff`,
  and `LeakByReuse` is a program that does it.
- Remove looks for the open file by name only (filesys/oftable.cc:281).
  `RemoveKeepsSlotsIff`: the entries are right afterwards if and only if the file
  is not open under another spelling and, when the name of a removed file has
  been reused for a directory, nothing open is below that directory.
  `OpenThenRemoveSlashed` opens a file and removes it with a slash in front.
- Translate does not check the alignment of 8-byte accesses
  (machine/mmu.cc:211-215). `IsolatedIff` and `ReachableIsolation`: a write is
  seen by no access that does not overlap it if and only if it stays in its page
  or the frame behind holds no page but the next one, and it starts at least 7
  bytes into its page or the frame ahead holds no page but the previous one.
  `LoadTwoPrograms` loads two programs for which both fail.
- The track buffer answers a read of the sector that is under the head before it
  has gone by (machine/disk.cc:296-303): `BufferedTooEarlyIff`.
- `RemoveItem` is documented to work on absent items (utility/list.h:288-298), but
  its loop does not end then (utility/list.h:299-303): `RotationEndsIff`.
- The leftover `exit(ERROR)` calls at the end of P, V, Acquire and Release
  (kernel/synch.cc:103, 125, 184, 214) are not part of the steps.

## Model

| member | source | states |
|---|---|---|
| Layout.DivRoundUpIsCeiling | utility/utility.h:55 | the macro is the ceiling for non-negative numerators and 0 just below them |
| Layout.HeaderCountExact | filesys/filehdr.cc:74-76 | the truncated-division header count is the least chain that can list n sectors, and at most 31 |
| Layout.MaxFileLengthFits | filesys/filehdr.h:103-106 | the largest file length fits a 32-bit int |
| BitMaps.NumClearCount | utility/bitmap.cc:116-123 | clear bits and marked bits add up to the size of the map |
| BitMaps.FirstClearLeast | utility/bitmap.cc:100-107 | the answer of Find is the least clear bit, and ERROR exactly when there is none |
| BitMaps.MarkInMarks | utility/bitmap.cc:55-59 | setting a bit in the 32-bit words adds exactly that number to the set |
| BitMaps.ClearInMarks | utility/bitmap.cc:68-72 | clearing a bit in the 32-bit words removes exactly that number |
| BitMaps.WordsRoundTrip | utility/bitmap.cc:152-166 | words read from bytes give back the same bytes |
| BitMaps.MarksOfIsMarksIn | utility/bitmap.cc:164-166 | the set of bits of the words is the set of bits of the bytes that are stored |
| BitMaps.GrabFresh | utility/bitmap.cc:100-107 | repeated Find returns distinct, previously clear sectors |
| BitMaps.GrabCount | utility/bitmap.cc:100-123 | n calls of Find use up exactly n clear sectors |
| BitMaps.BitMap.Mark | utility/bitmap.cc:55-59 | the 32-bit words refine adding to the set |
| BitMaps.BitMap.Clear | utility/bitmap.cc:68-72 | the 32-bit words refine removing from the set |
| BitMaps.BitMap.Test | utility/bitmap.cc:81-88 | true exactly for marked bits |
| BitMaps.BitMap.Find | utility/bitmap.cc:100-107 | returns and marks the least clear bit |
| BitMaps.BitMap.NumClear | utility/bitmap.cc:116-123 | the number of clear bits |
| DiskImage.SectorIntRoundTrip | filesys/filehdr.cc:226-259 | an int stored in a sector is read back, sign included |
| FileHeaders.StoredIsFetched | filesys/filehdr.cc:172-215 | a stored header is read back with all its fields, chain and data sectors; a sector stores at most one |
| FileHeaders.StoredFrame | filesys/filehdr.cc:172-215 | a stored header depends on its own header sectors only |
| FileHeaders.AllocatedIsFresh | filesys/filehdr.cc:65-92 | a successful Allocate gives a well-formed header of distinct, previously clear sectors |
| FileHeaders.AllocatedCount | filesys/filehdr.cc:65-92 | NumClear falls by exactly the number of sectors in the header |
| FileHeaders.DeallocateUndoesAllocate | filesys/filehdr.cc:148-161 | freeing what was allocated restores the bitmap exactly |
| FileHeaders.GrowthFitsIff | filesys/filehdr.cc:109-138 | reAllocate keeps the old lists as prefixes, and its result is well formed if and only if the new sector count fits the chain counted for the old one |
| FileHeaders.GrowthPastCapacity | filesys/filehdr.cc:117-119 | a file that fills its header chain exactly gets a broken header when it grows by one sector |
| FileHeaders.FileHeader.Allocate | filesys/filehdr.cc:65-92 | fails with the bitmap unchanged exactly when there are too few clear sectors; otherwise Find never fails and the header is the allocated one |
| FileHeaders.FileHeader.ReAllocate | filesys/filehdr.cc:109-138 | fails exactly when there are too few clear sectors, leaving only the new length; otherwise appends the new sectors |
| FileHeaders.FileHeader.Deallocate | filesys/filehdr.cc:148-161 | passes its assertions and clears exactly the listed sectors |
| FileHeaders.FileHeader.WriteBack | filesys/filehdr.cc:226-259 | the header is stored in its first sector and chain, and no other sector changes |
| FileHeaders.FileHeader.FetchFrom | filesys/filehdr.cc:172-215 | the object becomes the stored header |
| OpenFiles.OpenFile.ReadAt | filesys/openfile.cc:140-167 | returns exactly the clipped slice of the file's bytes |
| OpenFiles.OpenFile.Read | filesys/openfile.cc:94-98 | reads at the seek position and advances it by what was read |
| OpenFiles.OpenFile.WriteInPlace | filesys/openfile.cc:222-247 | the read-modify-write of whole sectors is a byte splice, and only the file's data sectors change |
| OpenFiles.WriteAt | filesys/openfile.cc:192-247 | all outcomes: nothing outside the file; the splice with length max(len, pos + n) when the sectors suffice or can be added; what fits below the old length when there is no room; only sectors of this file and of the bitmap file change |
| OpenFiles.GrowFile | filesys/openfile.cc:204-214 | succeeds exactly when there are enough clear sectors; then the grown header and the new bitmap are on disk, otherwise only the length in memory has changed |
| OpenFiles.UsableIffNotRefused | filesys/openfile.cc:207-209 | after a write the header in memory is well formed if and only if the write was not refused for lack of room |
| OpenFiles.CopyInto | filesys/fsmisc.cc:66-69 | the chunk loop stores exactly the source bytes |
| OpenFiles.FetchMap | utility/bitmap.cc:152-154 | the bitmap object has the marks stored in the bitmap file |
| OpenFiles.WriteBackMap | utility/bitmap.cc:164-166 | the bitmap file stores the marks of the object |
| Directories.FieldMatches | filesys/directory.cc:101-106 | a stored name matches exactly the names that agree on their first 80 characters |
| Directories.FindIsUnique | filesys/directory.cc:101-106 | lookup finds the one entry that stores the name |
| Directories.FindMeans | filesys/directory.cc:101-106 | lookup fails exactly when no entry stores the name |
| Directories.AddedValid | filesys/directory.cc:138-153 | Add keeps in-use names unique and takes an unused slot |
| Directories.RemovedValid | filesys/directory.cc:164-170 | Remove keeps in-use names unique |
| Directories.FindAfterAdd | filesys/directory.cc:138-153 | after Add, only lookups of that name change |
| Directories.FindAfterRemove | filesys/directory.cc:164-170 | after Remove, that name is gone and other lookups are as before |
| Directories.TableRoundTrip | filesys/directory.cc:74-88 | a table written to a file and read back is the same table |
| Directories.Directory.FetchFrom | filesys/directory.cc:74-76 | the object becomes the table stored in the file |
| Directories.Directory.WriteBack | filesys/directory.cc:86-88 | the file stores the table, and only its data sectors change |
| Directories.Directory.FindIndexOf | filesys/directory.cc:101-106 | the search loop finds the first matching entry |
| Directories.Directory.Add | filesys/directory.cc:138-153 | status and new table, including a name already there and a full table |
| Directories.Directory.Remove | filesys/directory.cc:164-170 | status and new table |
| Directories.Directory.Empty | filesys/directory.cc:244-252 | true exactly when no entry is in use |
| Paths.DecompName | filesys/filesys.cc:95-114 | the loops over the path compute the first component and the rest |
| Paths.FindDirIsWalk | filesys/filesys.cc:138-169 | FindDir is the walk over the non-empty components before the last slash, with the text behind it as leaf |
| FileTree.InsertKeepsInv | filesys/filesys.cc:286-345 | adding a file keeps sectors disjoint, marks exact and every file named by exactly one entry |
| FileTree.UnlinkKeepsInv | filesys/oftable.cc:282-286 | removing an entry keeps the invariant; its file becomes a root |
| FileTree.DropKeepsInv | filesys/filesys.cc:437-446 | removing an unnamed file keeps the invariant and frees exactly its sectors |
| FileTree.SectorAccounting | filesys/filehdr.cc:78-80 | clear sectors plus the lengths of all files' sector lists are all sectors |
| FsDisk.FindDirIsDirectory | filesys/filesys.cc:138-169 | FindDir only ends in an existing directory |
| FsDisk.LookupIsNode | filesys/directory.cc:121-126 | a successful lookup leads to an existing file, and the directory test is right about it |
| FsDisk.ContentsKept | filesys/filesys.cc:286-345 | a change of other files' data and of clear sectors changes no byte of a file |
| FsDisk.RepAfter | filesys/filesys.cc:286-345 | if the rewritten tables, headers and bitmap are right, the whole disk is |
| FsSteps.AddKeepsInv | filesys/filesys.cc:286-345 | a successful Create or Mkdir keeps disk and abstract file system consistent |
| FsSteps.RemoveKeepsInv | filesys/filesys.cc:403-455 | a successful Remove or Rmdir keeps disk and abstract file system consistent |
| FsSteps.StepTouches | filesys/filesys.cc:553-685 | every operation keeps the invariant and changes only the parent's data, the bitmap and clear sectors |
| FsSteps.StepKeepsContents | filesys/filesys.cc:403-455 | an error changes no sector; success changes the bytes of no file or directory but the parent |
| FsSteps.CanFormatIff | filesys/filesys.cc:201-202 | the assertions of the constructor hold if and only if the disk has room for both files and their headers |
| FsSteps.FormatEstablishes | filesys/filesys.cc:184-234 | a formatted disk is consistent |
| FsSteps.RunIsConsistent | filesys/filesys.cc:184-685 | every disk of every run from a formatted disk is consistent, and only the bitmap and the root directory are unnamed |
| FsSteps.ConsistentSectors | filesys/filesys.cc:184-685 | the bitmap read from the disk marks exactly the sectors of the files, and no sector is in two of them |
| FsSteps.RunAccounting | filesys/filesys.cc:184-685 | on every disk of every run, the clear bits of the bitmap and the sectors listed by the headers of all files add up to NUM_SECTORS |
| FileSystemOps.FileSystem.Format | filesys/filesys.cc:184-234 | the constructor formats the disk and leaves both files open |
| FileSystemOps.FileSystem.Mount | filesys/filesys.cc:235-240 | the constructor opens the two files of an existing file system |
| FileSystemOps.FileSystem.FindDir | filesys/filesys.cc:138-169 | the loop ends and computes FindDir |
| FileSystemOps.FileSystem.Create | filesys/filesys.cc:286-345 | Create is a step: its status and its effect on the disk |
| FileSystemOps.FileSystem.Mkdir | filesys/filesys.cc:554-610 | Mkdir is a step |
| FileSystemOps.FileSystem.Remove | filesys/filesys.cc:403-455 | Remove is a step |
| FileSystemOps.FileSystem.Rmdir | filesys/filesys.cc:629-685 | Rmdir is a step |
| FileSystemOps.FileSystem.Perform | filesys/filesys.cc:286-685 | any operation leaves a valid file system with the same unnamed files |
| FileGrowth.GrowthReady | filesys/openfile.cc:203-214 | in a consistent file system, growing needs only room on the disk and in the header |
| FileGrowth.GrowingWriteKeepsInv | filesys/openfile.cc:192-247 | a growing write keeps the file system consistent and changes the bytes of no other file |
| FileWrites.WriteKeepsInv | filesys/openfile.cc:192-247 | in any consistent file system, any write to a regular file, with a name or removed, growing, refused or neither, keeps it consistent and the unnamed files the same |
| FileWrites.WriteToFile | filesys/openfile.cc:192-247 | WriteAt through an open file whose header lists the sectors on disk is such a write |
| FileWrites.GrownIsExact | filesys/filehdr.cc:109-138 | growth that leaves a usable header keeps the chain exact, so reAllocate never counts a negative number of header sectors |
| FileWrites.OlderWriteKeepsInv | filesys/openfile.cc:203-247 | a write that adds no sector, through a header that lists fewer sectors than the file has, keeps the file system consistent |
| FileWrites.GrowthIsSafeIff | filesys/openfile.cc:203-214 | a write that adds sectors leaves a disk that holds a consistent file system without new unnamed files if and only if the header it used lists all sectors of the file |
| PathStability.ResolveKept | filesys/filesys.cc:138-169 | a path that resolves keeps its meaning if all lookups but those of one file are kept |
| PathStability.StepKeepsPaths | filesys/filesys.cc:286-685 | an operation changes what no path means but those to the file it removes |
| PathStability.AddedResolves | filesys/filesys.cc:286-345 | after a successful Create or Mkdir the path leads to the new file |
| PathStability.UnlinkedResolve | filesys/oftable.cc:282-286 | after the entry of a file is removed, exactly the paths to it or through it lead nowhere, all others are as before |
| DeferredRemoval.UnlinkOnDisk | filesys/oftable.cc:282-286 | removing the name of an open file keeps the disk consistent |
| DeferredRemoval.DropOnDisk | filesys/oftable.cc:53-68 | freeing the sectors at the last close keeps the disk consistent |
| DeferredRemoval.FilesAreOld | filesys/oftable.cc:53-68 | if all files but one regular file are on the new disk as before, any file system on it without new unnamed files has only the old files, with the same headers but for that one |
| OpenFileTables.OpenFileTable.FindlLoop | filesys/oftable.cc:236-245 | the loop finds the entry with the name |
| OpenFileTables.OpenFileTable.NextEntry | filesys/oftable.cc:300-308 | the loop finds the first empty slot, and ERROR exactly when every slot is used |
| OpenFileTables.OpenFileTable.Open | filesys/oftable.cc:101-166 | a first open fills the empty next slot, a later one counts, for any names; the invariant of the table is kept |
| OpenFileTables.OpenFileTable.Close | filesys/oftable.cc:177-190 | the last close deletes the entry, and the counts stay opens minus closes |
| OpenFileTables.ThreadsAfter | filesys/oftable.cc:101-190 | replacing one slot changes the thread count of its name only |
| OpenFileTables.RunKeepsInv | filesys/oftable.cc:101-290 | over every run of Open, Close and Remove: one live entry per name, which counts opens minus closes and at least 1, and a next slot that is empty or ERROR |
| OpenFileTables.EmptyIsErrorIffFull | filesys/oftable.cc:300-308 | the search for an empty slot fails if and only if every slot is used |
| OpenFileTables.FullTableSticks | filesys/oftable.cc:121-164 | in every run, once every slot has been used at the same time, every later Open of a name that is not in the table fails, whatever has been closed |
| OpenFileTables.RefusesIffOnceFull | filesys/oftable.cc:156-157 | in every run, nbentry is ERROR if and only if the table has been full at some time |
| OpenFileTables.FullTableIsReachable | filesys/oftable.cc:121-164 | a run of fifteen opens and a close after which a slot is empty and the open of another name is refused |
| OpenFileState.WriteKeepsSlots | filesys/openfile.cc:192-247 | any write, to an open file or not, named or removed, keeps what every entry says |
| OpenFileState.StaysCurrentIff | filesys/oftable.cc:139-157 | after a write to the file of an entry, the entry lists all sectors of the file if and only if the write has added none |
| OpenFileOps.OpenFileByName | filesys/oftable.cc:101-166 | Open keeps table and disk in agreement for any names; with one spelling per file, no file gets two entries |
| OpenFileOps.CloseFileByName | filesys/oftable.cc:177-190 | the last close of a removed file clears exactly the recorded sectors; if those are all the file has, disk and other entries stay consistent |
| OpenFileOps.LastCloseIff | filesys/oftable.cc:53-68 | the last close of a removed file leaves a disk that holds some consistent file system without leaked files if and only if the recorded sectors are the current ones |
| OpenFileOps.FreeRecorded | filesys/oftable.cc:53-68 | the destructor clears exactly the recorded sectors in the bitmap file |
| OpenFileRemoval.RemoveFileByName | filesys/oftable.cc:260-290 | with anything open under any names: an open file loses its name and keeps its sectors, a closed one is removed, an absent one is an error that changes nothing; the disk stays consistent |
| OpenFileRemoval.RemoveKeepsSlotsIff | filesys/oftable.cc:260-290 | after Remove every entry is right if and only if the file was not open under another spelling and nothing open is below a directory that reused the name |
| OpenFileRemoval.PerformWithOpenFiles | filesys/filesys.cc:286-685 | Create, Mkdir and Rmdir keep every open file as it was |
| OpenFileRemoval.OnlyRemoveCloses | filesys/filesys.cc:629-685 | Create, Mkdir and Rmdir never take away an open file |
| OpenFileOps.OpenFileStaysMarked | filesys/oftable.cc:250-259 | where table and disk agree, all sectors of an open file are marked, removed or not, grown or not, and so are the recorded ones |
| OpenFileRemoval.StepSlots | filesys/filesys.cc:286-685 | operations on other files keep every open file as it was |
| OpenFileOps.CloseKeepsNoLeak | filesys/oftable.cc:53-68 | a close that drops the file leaves no unnamed file behind |
| OpenFileRemoval.RemoveLeaksIff | filesys/oftable.cc:282-286 | removing an open file leaks its sectors if and only if the entry was already marked for deletion |
| OpenFileRemoval.LeakByReuse | filesys/oftable.cc:101-290 | opening, removing, creating and removing the same name leaks the second file; the creation succeeds exactly when the disk has room |
| SystemRuns.StepKeepsSys | filesys/oftable.cc:101-290 | every step of careful threads keeps disk and table consistent, in agreement and without leaked files |
| SystemRuns.RunKeepsSys | filesys/oftable.cc:101-290 | in every state of every run of Open, Close, Remove, Create, Mkdir, Rmdir and writes, also to removed files, the disk is consistent, the table agrees with it, no file has two entries, and only removed files that are still open have no name |
| SystemRuns.SysAccounting | filesys/oftable.cc:101-290 | in all those states the clear bits and the sectors listed by all headers, those of removed files included, add up to NUM_SECTORS |
| SystemRuns.RemovedKeepsSectors | filesys/oftable.cc:250-257 | in every run, from the removal of an open file to its last close, the sectors it had and those added since stay marked |
| SystemRuns.RemovedIsFreedOnce | filesys/oftable.cc:53-68 | in every run, the last close of a removed file clears exactly the sectors of the file, which were marked until then; the file is gone and no entry is left that could clear them again |
| SystemRuns.DoOpen | filesys/oftable.cc:101-166 | Open is such a step |
| SystemRuns.DoClose | filesys/oftable.cc:177-190 | Close is such a step |
| SystemRuns.DoRemove | filesys/oftable.cc:260-290 | Remove is such a step |
| SystemRuns.DoOperate | filesys/filesys.cc:286-685 | Create, Mkdir and Rmdir are such steps |
| SystemRuns.DoWrite | filesys/openfile.cc:192-247 | a write to the file of an entry is such a step |
| Pitfalls.OpenThenRemoveSlashed | filesys/oftable.cc:281-288 | opening a file and removing it by a path with a slash in front takes the file from the disk while its entry still counts it as open |
| Pitfalls.GrowRemoveClose | filesys/oftable.cc:53-68 | opening a file, writing past its end, removing and closing it leaves a disk on which no consistent file system is without leaked files |
| Pitfalls.WriteTooMuch | filesys/openfile.cc:203-209 | a write of more bytes than the disk has room for leaves the open file with a header that is not well formed |
| Synch.Semaphore.PStep | kernel/synch.cc:96-100 | one pass through the loop of P |
| Synch.Semaphore.V | kernel/synch.cc:119-123 | V wakes the first waiter and adds a unit |
| Synch.Lock.AcquireStep | kernel/synch.cc:176-182 | one pass through the loop of Acquire |
| Synch.Lock.Release | kernel/synch.cc:203-211 | Release wakes the first waiter or frees the lock |
| Synch.Scheduler.FindNextToRun | kernel/scheduler.cc:74-77 | the ready list is first in, first out |
| Semaphores.StepKeepsInv | kernel/synch.cc:89-126 | every step of any thread keeps the invariant |
| Semaphores.RunKeepsInv | kernel/synch.cc:89-126 | on every interleaving: counts never negative, count + P = initial + V, each thread in exactly one place, no lost wake-up |
| Semaphores.IdleMeansBlocked | kernel/thread.cc:326-348 | when nothing can run, every waiter's semaphore is 0 and all units have been taken |
| Semaphores.SwitchPlaces | kernel/scheduler.cc:93-106 | dispatching moves the head of the ready list to the processor and no other thread |
| DriverProtocol.StepKeepsInv | drivers/drvDisk.cc:92-135 | every step of a thread or interrupt keeps the protocol invariant |
| DriverProtocol.RunIsSafe | drivers/drvDisk.cc:92-135 | at most one request in flight, no failed assertion, one thread inside, P passed only after the own request, semaphore 0 when the lock is free |
| DriverProtocol.IssueKeeps | machine/disk.cc:130-156 | the disk is never active when a request is made |
| DriverProtocol.ReleaseSticksIff | kernel/synch.cc:205-211 | Release leaves the lock taken with nobody inside if and only if a thread waits |
| DriverProtocol.StuckForever | kernel/synch.cc:170-211 | from then on no request is ever made |
| DriverProtocol.StuckIsReachable | kernel/synch.cc:170-211 | a run of two threads in which the second asks for the lock while the first waits for its request ends stuck |
| LinkedLists.InsertedIsSorted | utility/list.h:210-231 | insertion keeps a sorted list sorted and adds exactly the element |
| LinkedLists.HeadIsLeast | utility/list.h:246-263 | the removed head has a least key and the rest stays sorted |
| LinkedLists.List.SortedInsert | utility/list.h:210-231 | the pointer list refines insertion behind all keys that are not larger |
| LinkedLists.List.SortedRemove | utility/list.h:246-263 | the pointer list refines taking the head |
| LinkedLists.List.Append | utility/list.h:143-152 | the pointer list refines appending |
| LinkedLists.List.Prepend | utility/list.h:120-129 | the pointer list refines prepending |
| LinkedLists.List.Search | utility/list.h:276-286 | true exactly when the item is in the list |
| LinkedLists.List.RemoveItem | utility/list.h:299-303 | for an item in the list: the rest of the list comes first, the rotated elements follow with key 0 |
| LinkedLists.RotationEndsIff | utility/list.h:299-303 | some number of turns brings the item to the front if and only if the list has it |
| Interrupts.Interrupt.Schedule | machine/interrupt.cc:260-272 | the interrupt is inserted strictly in the future, so nothing new is due |
| Interrupts.Interrupt.CheckIfDue | machine/interrupt.cc:289-330 | fires the first interrupt exactly when it is due (but for a lone timer when idle), leaving one due interrupt less |
| Interrupts.Interrupt.CheckNext | machine/interrupt.cc:289-330 | the clock jumps to the next interrupt, charged as idle time |
| Interrupts.Interrupt.OneTick | machine/interrupt.cc:145-172 | time advances, the loop ends, and nothing is due afterwards |
| Interrupts.Interrupt.SetStatus | machine/interrupt.cc:120-132 | turning interrupts on lets one system tick pass |
| Interrupts.Interrupt.Idle | machine/interrupt.cc:205-227 | jumps to the next interrupt, and stops exactly when nothing or only the timer is left |
| Interrupts.InOrderMeans | machine/interrupt.cc:289-330 | no handler fires early, and due times and firing times never go back |
| Interrupts.PutBack | machine/interrupt.cc:307-311 | an interrupt put back leaves the same interrupts in order |
| Interrupts.NothingDue | machine/interrupt.cc:145-172 | no interrupt is due exactly when all keys lie in the future |
| Interrupts.DueCountInsert | machine/interrupt.cc:260-272 | inserting changes the number of due interrupts only by the new one |
| Interrupts.TicksUpdate | utility/stats.cc:119-153 | charging one process changes the sum of all ticks by exactly that much |
| Interrupts.Statistics.IncrSystemTicks | utility/stats.cc:120-123 | total time stays idle time plus all process times |
| Interrupts.Statistics.IncrUserTicks | utility/stats.cc:133-136 | total time stays idle time plus all process times |
| Interrupts.Statistics.IncrMemoryAccess | utility/stats.cc:145-153 | an access is charged 10 user ticks |
| Interrupts.Statistics.IdleUntil | machine/interrupt.cc:304-306 | idle time and total time advance together |
| DiskTiming.CompletesAfterSector | machine/disk.cc:288-308 | an unbuffered request completes at a sector boundary, one sector past its own |
| DiskTiming.LatencyBounds | machine/disk.cc:288-308 | latency is at least one rotation and below NUM_TRACKS + 32 of them (96 with 64 tracks) |
| DiskTiming.BufferedIff | machine/disk.cc:296-303 | the track buffer answers exactly the reads on the current track whose sector goes by completely between the arrival of the head and the next sector boundary |
| DiskTiming.PassedByNowIff | machine/disk.cc:296-303 | a sector has gone by completely at the time of the request if and only if more whole sector times have passed than it is away |
| DiskTiming.BufferedTooEarlyIff | machine/disk.cc:296-303 | the buffer answers before the sector has gone by if and only if the sector is under the head for the first time |
| DiskTiming.BufferedTooEarly | machine/disk.cc:296-303 | for example, a read of sector 0 in the first sector time |
| DiskTiming.Disk.ComputeLatency | machine/disk.cc:288-308 | the unsigned difference never wraps |
| DiskTiming.Disk.UpdateLast | machine/disk.cc:318-325 | bufferInit moves exactly on a seek |
| DiskTiming.Disk.Request | machine/disk.cc:130-156 | the request takes its latency and keeps the disk's invariant; an unbuffered one ends at a sector boundary with the head one sector past its own |
| DiskTiming.Disk.HandleInterrupt | machine/disk.cc:211-217 | when the disk is idle again, bufferInit is not in the future |
| Mmu.TouchedTranslates | machine/mmu.cc:268-273 | the use and modified bits do not affect translation |
| Mmu.LoadStored | machine/mmu.cc:153-175 | a value is read back modulo 2^(8 * size) |
| Mmu.AccessInPage | machine/mmu.cc:206-219 | every translated access stays in its page, if 8-byte ones are aligned |
| Mmu.WriteIsolated | machine/mmu.cc:133-178 | a write inside its page changes no read inside its page that does not overlap it in the same space |
| Mmu.ReadAfterWrite | machine/mmu.cc:70-178 | reading after writing gives the value cut to the size, for crossing accesses too |
| Mmu.IsolatedIff | machine/mmu.cc:70-178 | a write is seen by no read that does not overlap it, crossing reads included and for any value, if and only if it stays in its page or the frame behind holds no other page than the next one, and it starts at least 7 bytes into its page or the frame ahead holds no other page than the previous one |
| PhysMem.ReachableIsolation | machine/mmu.cc:70-178 | the same in every reachable state of the memory manager |
| PhysMem.LoadTwoPrograms | kernel/addrspace.cc:153-212 | after two programs of one page each are loaded, a write of each is seen by the other |
| PhysMem.MappedOnce | vm/physMem.cc:66-153 | distinct valid pages have distinct frames |
| PhysMem.TakeKeeps | vm/physMem.cc:132-153 | taking a frame keeps free list, flags and back pointers in agreement |
| PhysMem.FreeKeeps | vm/physMem.cc:66-80 | freeing a frame keeps them in agreement and invalidates the page it held |
| PhysMem.LoadKeeps | kernel/addrspace.cc:172-209 | mapping a page to a taken frame keeps them in agreement |
| PhysMem.WriteSeenOnlyByOverlap | machine/mmu.cc:133-178 | in every reachable state, accesses inside their pages are isolated between and within address spaces |
| PhysMem.VirtualMemory.constructor | vm/physMem.cc:32-44 | at the start all frames are free, each once in the list |
| PhysMem.VirtualMemory.FindFreePage | vm/physMem.cc:132-153 | the first free frame, whose assertion holds |
| PhysMem.VirtualMemory.FreePhysicalPage | vm/physMem.cc:66-80 | the frame goes to the front of the free list and its page is invalid |
| PhysMem.VirtualMemory.Alloc | kernel/addrspace.cc:331-348 | reserves virtual pages by moving the counter |
| PhysMem.VirtualMemory.LoadPages | kernel/addrspace.cc:153-212 | every page is mapped to its own frame with its contents and rights, or frames have run out; no other page of any space changes |
| PhysMem.VirtualMemory.StackAllocate | kernel/addrspace.cc:264-320 | zeroed stack pages above a gap of unmapped pages; no other page changes |
| PhysMem.VirtualMemory.DestroySpace | kernel/addrspace.cc:229-252 | every frame of the space is free again and other spaces are untouched |
| PhysMem.VirtualMemory.ReadMem | machine/mmu.cc:70-117 | the translated bytes, or the exception, also for unaligned 8-byte reads |
| PhysMem.VirtualMemory.WriteMem | machine/mmu.cc:133-178 | the memory with the translated bytes stored, or the exception, also for unaligned 8-byte writes |
| Formatting.VsnPrintf | userlib/libnachos.c:387-562 | the first min(result, len - 1) characters of the unbounded output, a zero behind them, nothing else changed, and the full length as result |
| Formatting.Sink.PutDecimal | userlib/libnachos.c:404-443 | %d and %ld put the decimal notation, and the digit buffer never overruns |
| Formatting.Sink.PutHex | userlib/libnachos.c:444-514 | %x and %lx put the hexadecimal notation without leading zeros |
| Formatting.NotationLength | userlib/libnachos.c:408-409 | a number below base^k has at most k digits |
| Formatting.NibbleIs | userlib/libnachos.c:497-499 | shifting up, cutting and shifting down picks the i-th nibble |
| Formatting.Atoi | userlib/libnachos.c:212-234 | the loop computes the sign and the value of the leading digits, or overflows |
| Formatting.AtoiOfDecimal | userlib/libnachos.c:212-234 | n_atoi gives back every int that %d printed, except exactly the least one |
| Instructions.DecodeI | machine/instruction.cc:52-82 | encoding an I instruction and decoding it gives the fields and the signed immediate |
| Instructions.DecodeS | machine/instruction.cc:52-82 | the same for S |
| Instructions.DecodeB | machine/instruction.cc:52-82 | the same for B |
| Instructions.DecodeU | machine/instruction.cc:52-82 | the same for U |
| Instructions.DecodeJ | machine/instruction.cc:52-82 | the same for J |
| ShiftMasks.InitShiftMask | machine/machine.cc:278-284 | entry k of the masks has the low 64 - k bits set |
| ShiftMasks.AndMask | machine/machine.cc:634-640 | and with n ones is the remainder by 2^n |
| ShiftMasks.MaskedShiftIsLogical | machine/machine.cc:634-671 | arithmetic shift and mask are the logical shift, for every operand and shift of SRLI, SRL and SRLIW |
| ShiftMasks.ShiftsAreDivisions | machine/machine.cc:634-671 | the shifts in the model are division: of the number, rounded down, and of its unsigned bits |

## Left out

- OpenFiles.WriteAt: a write past the capacity of the header chain is excluded, because the header is broken then (`GrowthFitsIff`), and so is a refused write to an empty file, for which the source computes its last sector from -1 (filesys/openfile.cc:223).
- OpenFiles.GrowFile: asks for a header chain that can list the new sectors, for the same reason.
- SystemRuns.RunKeepsSys: threads spell every file one way, do not remove a name that a removed file still has in the table, and do not close a removed file for the last time after it has grown; writers list the sectors on disk. What happens otherwise is in `RemoveKeepsSlotsIff`, `RemoveLeaksIff`, `LastCloseIff` and `GrowthIsSafeIff`.
- Mmu.WriteIsolated: about accesses inside their pages; all accesses are in `IsolatedIff`.
- Reopening a file after growth inside its last sector: the new length stays in memory (filesys/openfile.cc:215-216).
- FileHeaders.FileHeader.FetchFrom: asks for a stored header with at most 31 chained sectors; the source's assertion allows 32, which would overrun the data-sector table.
- Path buffers of MaxFileNameSize characters: paths are sequences of any length.
- The name field's 81st byte and the padding of directory entries: written as zeros and never read.
- createLock and the per-file locks of the open-file table: each file system call is one step.
- Lock fairness, condition variables, joining and finishing threads: unimplemented or not part of the safety claims.
- Semaphores and the disk driver over whole runs: state machines on values, whose steps are the functions that the objects in Synch are proved to follow; the context switch itself is the change of the running thread.
- Interrupts.Interrupt.Idle: what handlers do besides scheduling is not modelled, and the pending list is its sequence meaning, which LinkedLists.List is proved to refine.
- The yield at the end of OneTick and the interrupt nesting flag: no effect on the clock or the pending list.
- Overflow of 64-bit tick counters and of 32-bit latencies: times are unbounded.
- PhysMem.VirtualMemory.ReadMem: page faults end in an exception result, because the page-fault handler, eviction and swapping are unimplemented; an 8-byte access that runs past the end of physical memory is excluded.
- PhysMem.VirtualMemory.WriteMem: the same.
- LinkedLists.List.RemoveItem: asks for an item in the list, because the loop does not end on others (`RotationEndsIff`).
- ELF parsing: a program is a list of pages that do not overlap. The stack pointer returned by StackAllocate is left to its caller.
- Formatting.VsnPrintf: formats with a dangling % or %l and a buffer length of 0 are excluded, because the source reads or writes out of bounds on them.
- Formatting.Atoi: a signed overflow is the answer None, since C leaves it undefined.
- n_strcmp, n_strcat and the other string functions: single loops that would only add easy members.
- The rest of OneInstruction, SRLW included, whose shift amount is not masked (machine/machine.cc:843).
- The console, ACIA, sockets, system-call dispatch, configuration and statistics printing.
