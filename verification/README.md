# HanaCore kernel: verified models

HanaCore is a small x86-64 kernel. Behind its drivers and assembly stubs lie a few stateful algorithms
on which everything else depends: a FAT32 volume, a circular task list, a free-list heap, an in-memory
file system with a saved form and a tar extractor, ring buffers, file descriptors and an ELF loader.
This project models them in Dafny in the form they have in the kernel (classes with fields, loops over
sectors, links, headers and buffers) and proves each against a specification on values, and then proves
what that specification promises over whole runs.

## Structure

| files | what they model |
|---|---|
| `Fat32Layout`, `Fat32Chain`, `Fat32File`, `Fat32Name`, `Fat32Dir`, `Fat32Owner` | a disk of 512-byte sectors, the table it denotes, cluster chains, file contents, 8.3 names, directory scans, and which entry owns which clusters |
| `Fat32Volume`, `Fat32Files`, `Fat32Format`, `Fat32Subdir` | the operations: FAT entries, allocation, freeing, writing, removing, reading, formatting, mounting and making directories |
| `Fat32Run`, `Fat32Session` | whole runs of writes and removals: on values, and served through the operations |
| `SchedModel`, `Scheduler` | the ring of tasks on values and as linked objects |
| `HeapModel`, `KernelHeap` | the heap on values and as headers in memory, and the page bump allocator |
| `HanaPath`, `HanaModel`, `HanaImage`, `HanaFs` | path buffers, the list of entries and its map, the saved form, and the operations |
| `InitrdModel`, `Initrd` | ustar archives and their members, what extracting them does, and the extractor |
| `Rings` | pseudo-terminal and pipe buffers as bounded queues |
| `Descriptors` | open files with a position, opening and closing |
| `ElfLoader` | program images |
| `Bytes` | bytes, little-endian words, C strings and small facts |

A disk is a sequence of sectors together with two sets: sectors in `bad` can be neither read nor written,
sectors in `stuck` can be read but not written. Memory allocation inside the file systems and transfers of
FAT sectors are taken to succeed.

The invariant of the FAT32 operations, `Fat32Files.Orderly`, is stated for one directory: links are in range,
the directory is a chain, and the chains that its entries record are in use, pairwise disjoint and apart from
it. The entries "." and ".." of a subdirectory record chains that they do not own. The map `heads` of owned
chains may also hold chains elsewhere on the volume, under positions outside the directory, so that what is
proved to stay byte for byte includes all other directories and their files. `Fat32Subdir.Reroot` moves the
invariant to another directory.

Integers are unbounded; where a 32- or 64-bit sum can wrap, the wrap is written out or a precondition keeps it away,
and the second kind is listed at the end.

## What does not hold

These properties fail. Each has a lemma that shows it, and where a condition decides it, that
condition is proved to be the exact one.

- Removing or overwriting a file by name takes away the first entry whose decoded name starts with the
  name given (`Fat32Files.DoomedExactly`, `Fat32Files.PrefixIsRemoved`). It is the entry that a lookup finds
  exactly when that first entry also answers to the name (`Fat32Files.RemovesWhatIsFound`).
- Removing "." in a subdirectory frees the directory's own chain (`Fat32Files.RemovingDot`). Dot entries are
  reached exactly by the components "", "." and ".." (`Fat32Owner.DotDoomed`).
- A removal frees the chain before it writes the directory sector. When that write is refused, the invariant
  survives exactly if the entry had no chain (`Fat32Files.DanglingEntry`).
- Making a directory adds the entry before it writes the new cluster. When the cluster cannot be written the
  call fails and the entry stays (`Fat32Subdir.MakeDir` says exactly when).
- An empty file is found but can never be read (`Fat32Files.EmptyNeverRead`).
- Lookup and removal decode a slot to the same name exactly when its base has no space inside
  (`Fat32Name.SidesDiffer`). The kernel writes no others.
- A file is found again under its own name exactly when the name fits the packed form as its two
  readers see it (`Fat32Name.FoundExactly`): extensions of one or two characters do not.
- There is a FAT size that is its own requirement exactly for some remainders of the sector count; for
  the others the sizing loop alternates between two neighbours (`Fat32Format.FixedSize`).
- A reap pass removes every dead task exactly when the head of the ring is alive or is the only dead
  task (`SchedModel.ReapIsFilter`). With a dead head the loop stops after the head.
- An allocation keeps the free list in address order exactly when some free block fits, or when the heap
  grows by a block that is used whole (`HeapModel.OrderKeptExactly`). Out of order, everything can be free
  and still lie in touching pieces (`HeapModel.FragmentedAfterGrowth`).
- Requests with a drive and plain requests that spell out `/drvN` name the same entry, although the
  comments promise separate trees, and what is cut off beyond 511 bytes does not tell requests apart.
  `HanaPath.SameEntry` says exactly which requests name the same entry
  (`HanaPath.DriveSyntaxCollides`, `HanaPath.LongPathsCollide`).
- Saving and loading keeps every lookup exactly when there is a root entry
  (`HanaImage.LoadedLookups`). A loaded list has its root twice, so that unlinking the root leaves it
  there (`HanaImage.ReloadedRootStays`).
- The reader of a pseudo-terminal sees what is there exactly until the 64-bit write counter wraps
  (`Rings.ReadableUntilWrap`).
- With overlapping segments the zero tail of one can hold another's bytes: `ElfLoader.OverlapNotZeroed` is a
  file that the loader accepts. An address is zero for all contents of the file exactly when no segment has
  file bytes there (`ElfLoader.ZeroExactly`).
- What was written through a descriptor is read back through the next one exactly when it was not empty
  or no other file system has bytes under the path (`Descriptors.WriteThenRead`).

## Model

| member | source | states |
|---|---|---|
| `Fat32Layout.ClustersDisjoint` | kernel/filesystem/fat32.cpp:167-169 | the sector ranges of two clusters overlap only if they are one cluster |
| `Fat32Layout.StoreLinkRefines` | kernel/filesystem/fat32.cpp:279-299 | the byte-level store changes one key of the table each FAT copy denotes, to the low 28 bits, touches no sector outside the FATs, and keeps equal copies equal |
| `Fat32Layout.LinkField` | kernel/filesystem/fat32.cpp:171-185 | a link is the low 28 bits of the little-endian word at its place in the sector |
| `Fat32Layout.SetLinkField` | kernel/filesystem/fat32.cpp:292-294 | the word stored has nothing above the low 28 bits |
| `Fat32Layout.MirroredTables` | kernel/filesystem/fat32.cpp:279-299 | while the copies are equal, any of them can be read for the table |
| `Fat32Volume.Volume.ReadFatEntry` | kernel/filesystem/fat32.cpp:171-185 | a read of the sectors is a read of the table |
| `Fat32Volume.Volume.WriteFatEntry` | kernel/filesystem/fat32.cpp:279-299 | the loop over the copies is an update of one key of the table, and data sectors stay |
| `Fat32Volume.Volume.FindFreeCluster` | kernel/filesystem/fat32.cpp:302-312 | the result is the lowest free cluster, and 0 exactly when every cluster is taken |
| `Fat32Chain.NextFree` | kernel/filesystem/fat32.cpp:302-312 | after the first clusters of the ascending free list are taken, the lowest free cluster is the next of the list, and none is free exactly when all are taken |
| `Fat32Volume.Volume.AllocCluster` | kernel/filesystem/fat32.cpp:315-320 | the lowest free cluster becomes a chain of its own, or the disk is unchanged |
| `Fat32Volume.Volume.FreeClusterChain` | kernel/filesystem/fat32.cpp:323-333 | ends on every in-range table, cycles included; frees exactly the clusters reachable from the start and leaves every other entry alone |
| `Fat32Chain.FreeUndoesLink` | kernel/filesystem/fat32.cpp:302-333 | freeing a chain built from free clusters gives back the very table there was before |
| `Fat32Chain.BuildUndone` | kernel/filesystem/fat32.cpp:685-718 | the same at any point of the construction, so giving up midway leaves no trace in the table |
| `Fat32Chain.OtherChainsKept` | kernel/filesystem/fat32.cpp:685-718 | every chain there was stays a chain and shares no cluster with the new one |
| `Fat32Chain.FreeKeepsOthers` | kernel/filesystem/fat32.cpp:323-333 | freeing one chain leaves every chain disjoint from it |
| `Fat32Chain.ChainDistinct` | kernel/filesystem/fat32.cpp:323-333 | a chain that ends never visits a cluster twice |
| `Fat32Volume.Volume.WriteChain` | kernel/filesystem/fat32.cpp:678-718 | succeeds exactly when there are as many free clusters as the length needs and every sector needed in the lowest of them can be written; then a new chain of them holds exactly the data; else the table is the one before; no sector outside the FATs and the new clusters changes |
| `Fat32File.ChainReadsBack` | kernel/filesystem/fat32.cpp:1154-1221 | following a chain that holds a buffer delivers exactly the buffer |
| `Fat32File.ChainReads` | kernel/filesystem/fat32.cpp:1154-1221 | reading a chain succeeds exactly when every sector needed can be read, and delivers as many bytes as wanted or as the chain has |
| `Fat32File.ChainDelivers` | kernel/filesystem/fat32.cpp:1154-1221 | the same with every byte delivered named by its cluster, sector and place on the disk |
| `Fat32Files.ReadFile` | kernel/filesystem/fat32.cpp:1154-1221 | the sector loop delivers what following the chain defines, and ends on cyclic chains |
| `Fat32Name.FormatShortName` | kernel/filesystem/fat32.cpp:336-365 | the buffer holds the packed name that the five rows below describe, and the call fails exactly when there is none |
| `Fat32Name.PackableExactly` | kernel/filesystem/fat32.cpp:336-365 | exactly the names that can be packed: not empty, and no space among the first 8 bytes before and the first 3 after the last dot |
| `Fat32Name.PackedBytes` | kernel/filesystem/fat32.cpp:343-364 | every byte of a packed name is no small letter, and is the name's letter in either case, its other byte, or padding |
| `Fat32Name.SameCapitals` | kernel/filesystem/fat32.cpp:346-359 | names have the same capitals exactly when they differ in letter case at most |
| `Fat32Name.PackedAlike` | kernel/filesystem/fat32.cpp:336-365 | names that differ in letter case at most are packed alike |
| `Fat32Name.PackedAlikeExactly` | kernel/filesystem/fat32.cpp:336-365 | names that fit are packed alike exactly when they differ in letter case at most |
| `Fat32Name.EntryFields` | kernel/filesystem/fat32.cpp:382-396 | name, attribute, 32-bit cluster split in two halves and size are recovered from the entry made |
| `Fat32Name.SlotFields` | kernel/filesystem/fat32.cpp:505-508 | a slot has its cluster in two little-endian halves at 26 and 20 and its size at 28 |
| `Fat32Name.PackedDecodes` | kernel/filesystem/fat32.cpp:1314-1330 | the lookup and the removal decode a packed name to the same string |
| `Fat32Name.DecodedExact` | kernel/filesystem/fat32.cpp:336-365 | decoding a packed name gives the upper-cased name exactly for the names that fit |
| `Fat32Name.FoundExactly` | kernel/filesystem/fat32.cpp:1314-1345 | a lookup matches the entry made for its name exactly when the name fits |
| `Fat32Name.SidesDiffer` | kernel/filesystem/fat32.cpp:1314-1330 | for slots with any name, the lookup and the removal decode the same name exactly when there is no space inside its base |
| `Fat32Name.PrintDecimal` | kernel/filesystem/fat32.cpp:1389-1398 | the digit loops print the decimal representation |
| `Fat32Name.ParseDecimal` | kernel/libs/libc.c:110-145 | parsing a printed cluster number is the identity on 32-bit numbers |
| `Fat32Dir.LookupAfterWrite` | kernel/filesystem/fat32.cpp:369-407 | after an entry is put into the first free slot, a lookup finds it unless an earlier entry already answered |
| `Fat32Dir.CaseBlind` | kernel/filesystem/fat32.cpp:497-501 | whether an entry is found or removed does not depend on the letter case of the component |
| `Fat32Dir.ScansCaseBlind` | kernel/filesystem/fat32.cpp:475-526 | in every directory, components that differ in letter case at most find the same entry to read and the same to remove |
| `Fat32Dir.PassedOver` | kernel/filesystem/fat32.cpp:1303-1309 | deleted slots and parts of long names are never found or removed, and volume labels never found |
| `Fat32Dir.EndsAtFree` | kernel/filesystem/fat32.cpp:1304-1304 | no lookup and no removal goes past a slot that starts with zero |
| `Fat32Files.AddEntry` | kernel/filesystem/fat32.cpp:369-407 | succeeds exactly when there is a free slot in a sector that can be written; the first free slot, and nothing else, gets the entry; the FATs stay |
| `Fat32Files.DoomedExactly` | kernel/filesystem/fat32.cpp:501-501 | an entry is removed exactly by the prefixes of what it decodes to |
| `Fat32Files.RemovedByLetters` | kernel/filesystem/fat32.cpp:497-501 | an entry whose name fits is removed exactly by what the name starts with, in either letter case |
| `Fat32Files.FoundByLetters` | kernel/filesystem/fat32.cpp:1331-1350 | and is found exactly by the name, or without a dot by what is before its first dot, in either letter case |
| `Fat32Files.ReadCaseBlind` | kernel/filesystem/fat32.cpp:1223-1410 | what is read does not depend on the letter case of the component |
| `Fat32Files.PrefixIsRemoved` | kernel/filesystem/fat32.cpp:581-581 | removing "A" takes away "AB", which a lookup of "A" does not find |
| `Fat32Files.RemovesWhatIsFound` | kernel/filesystem/fat32.cpp:484-501 | the removal and the lookup of a name stop at the same entry exactly when the first entry that the removal matches answers to the lookup |
| `Fat32Files.EraseEntry` | kernel/filesystem/fat32.cpp:475-526 | on any directory: the first matching entry is marked and exactly the chain it records is freed; if its sector cannot be written, the chain is freed and every slot stays |
| `Fat32Files.RemoveEntry` | kernel/filesystem/fat32.cpp:475-526 | succeeds exactly when an entry matches and its sector can be written; the first matching entry goes, exactly its chain is freed, and every other slot stays; every other file keeps its clusters and bytes, and owned chains stay pairwise disjoint |
| `Fat32Files.DanglingEntry` | kernel/filesystem/fat32.cpp:510-516 | if the entry cannot be marked, the owned chains are still in use and disjoint exactly when it had no chain |
| `Fat32Owner.DotDoomed` | kernel/filesystem/fat32.cpp:484-501 | exactly which components match the entries "." and ".." |
| `Fat32Files.RemovingDot` | kernel/filesystem/fat32.cpp:410-526 | removing "." in a subdirectory frees all clusters of the directory itself |
| `Fat32Owner.ApartAfterFree` | kernel/filesystem/fat32.cpp:323-333 | freeing one entry's chain keeps the chains of the others disjoint and unchanged |
| `Fat32Owner.ApartAfterLink` | kernel/filesystem/fat32.cpp:685-727 | a new entry's chain is disjoint from all chains owned before |
| `Fat32Owner.FreeSameFile` | kernel/filesystem/fat32.cpp:323-333 | freeing another entry's chain leaves every byte and link of a file |
| `Fat32Owner.FreshSameFile` | kernel/filesystem/fat32.cpp:685-718 | building and filling a new chain leaves every byte and link of a file |
| `Fat32Owner.DirWriteSameFile` | kernel/filesystem/fat32.cpp:369-407 | rewriting a directory sector leaves every byte and link of a file |
| `Fat32Files.WriteFile` | kernel/filesystem/fat32.cpp:663-727 | removal, then all or nothing: it succeeds exactly when the name can be packed, a free slot can be written and there is room for the data; else table and slots are those after the removal; on success the data is stored under the packed name; all other slots and files are untouched, owned chains stay disjoint and FAT copies equal |
| `Fat32Files.StoredReadsBack` | kernel/filesystem/fat32.cpp:1154-1221 | reading the recorded first cluster, passed as a decimal string, for the length written gives the data |
| `Fat32Files.GetFile` | kernel/filesystem/fat32.cpp:1223-1410 | the lookup finds the first answering entry and delivers the bytes that its recorded cluster and length denote |
| `Fat32Files.LookupDelivers` | kernel/filesystem/fat32.cpp:1383-1403 | for an entry that records a chain, success, length and every byte delivered are those of the chain on the disk, with one byte for a recorded size of 0 |
| `Fat32Files.DirectoryNeverRead` | kernel/filesystem/fat32.cpp:1384-1384 | a lookup that ends at a directory delivers nothing |
| `Fat32Files.WrittenIsRead` | kernel/filesystem/fat32.cpp:663-727 | a non-empty file written under a name that fits is looked up and read back whole, unless an earlier entry answers to the name |
| `Fat32Files.EmptyNeverRead` | kernel/filesystem/fat32.cpp:1389-1400 | a lookup of a file without a chain delivers nothing |
| `Fat32Format.RoundShrinks` | kernel/filesystem/fat32.cpp:1655-1663 | each round brings the size 64 times closer to the settled ones |
| `Fat32Format.FixedSize` | kernel/filesystem/fat32.cpp:1655-1663 | exactly which devices have a size that is its own requirement, and that it is unique |
| `Fat32Format.Settled` | kernel/filesystem/fat32.cpp:1655-1663 | a settled size is within one sector of its requirement, and equal to it exactly for those devices |
| `Fat32Format.FatSize` | kernel/filesystem/fat32.cpp:1640-1663 | for every device below 2^28 sectors the loop settles within its cap; exactly those too small are rejected |
| `Fat32Format.MountFormatted` | kernel/filesystem/fat32.cpp:790-796 | mounting reads back the layout that formatting wrote |
| `Fat32Format.MountReads` | kernel/filesystem/fat32.cpp:790-817 | for 512-byte sectors, exactly which boot sectors mount, and the little-endian fields the layout is read from |
| `Fat32Format.BootFields` | kernel/filesystem/fat32.cpp:1669-1722 | every field of the boot sector written, at its FAT32 offset: sector counts, FAT size, root cluster, labels and signature |
| `Fat32Format.InfoFields` | kernel/filesystem/fat32.cpp:1724-1734 | signatures and counts of the information sector, and zeros elsewhere |
| `Fat32Format.Format` | kernel/filesystem/fat32.cpp:1665-1790 | succeeds exactly when the device is large enough and takes every sector up to the root cluster; every sector is then the one the layout prescribes and the rest is unchanged |
| `Fat32Format.FormattedIsEmpty` | kernel/filesystem/fat32.cpp:1665-1790 | a formatted volume satisfies the invariant of all file operations and has no entries |
| `Fat32Run.RunKeeps` | kernel/filesystem/fat32.cpp:410-727 | over every run in a directory, an entry whose name no component of a request starts stays in its slot, and its file stays byte for byte |
| `Fat32Run.ElsewhereKept` | kernel/filesystem/fat32.cpp:410-727 | over every run in a directory, every chain elsewhere on the volume, file or directory, stays byte for byte |
| `Fat32Run.FoundWhenForemost` | kernel/filesystem/fat32.cpp:1280-1350 | among readable slots that do not end the directory, the lookup of a name stops at an answering slot exactly when none before it answers |
| `Fat32Run.AnsweredExactly` | kernel/filesystem/fat32.cpp:1314-1350 | exactly which lookups the entry written for a name answers to |
| `Fat32Run.NothingBefore` | kernel/filesystem/fat32.cpp:663-727 | after the removal that starts a write, no entry before the first free slot answers to the name |
| `Fat32Run.LastWriteStands` | kernel/filesystem/fat32.cpp:410-727 | after every run, the entry of a last successful write is in the slot it was given, with its chain and bytes |
| `Fat32Run.LastWriteFound` | kernel/filesystem/fat32.cpp:1280-1400 | for a name that fits, the lookup then finds that entry exactly when no slot before it answers, and delivers what was written |
| `Fat32Run.LastWriteRead` | kernel/filesystem/fat32.cpp:663-727 | after every run, a lookup of a name that fits delivers what its last successful write stored, unless a later request removes by a prefix of the name or writes an entry that answers to it |
| `Fat32Session.ServeOne` | kernel/filesystem/fat32.cpp:604-727 | the result and the disk of one write or removal are those of a step of a run |
| `Fat32Session.Serve` | kernel/filesystem/fat32.cpp:604-727 | serving any sequence of requests, failing ones included, is a run: each result is the one its step defines, FAT copies stay equal, links in range and owned chains pairwise disjoint |
| `Fat32Session.FormatAndServe` | kernel/filesystem/fat32.cpp:1640-1790 | from an unformatted device on: succeeds exactly when it can be formatted; the run starts on the formatted disk, the invariant holds at its end, and every name whose last write stands reads as that write |
| `Fat32Subdir.InitDir` | kernel/filesystem/fat32.cpp:629-651 | succeeds exactly when every sector of the cluster can be written, and then the directory has its two dot entries and free slots only |
| `Fat32Subdir.NewDirEntries` | kernel/filesystem/fat32.cpp:633-651 | the first slot is named "." and records the directory, the second ".." and its parent, and there the directory ends |
| `Fat32Subdir.MakeDir` | kernel/filesystem/fat32.cpp:620-653 | exactly when it succeeds, when it fails without a trace, and when it fails and leaves the entry; in all cases the invariant holds in the parent and all files stay byte for byte |
| `Fat32Subdir.Reroot` | kernel/filesystem/fat32.cpp:410-653 | the invariant holds as seen from any directory if it holds as seen from one |
| `Fat32Subdir.MadeIsOrderly` | kernel/filesystem/fat32.cpp:620-653 | a directory just made meets the invariant of all operations, with the parent and all chains known there apart from it |
| `Fat32Subdir.BackInParent` | kernel/filesystem/fat32.cpp:410-727 | after every run in a new directory the invariant holds in the parent again, whose slots and files are what they were |
| `SchedModel.ReapIsFilter` | kernel/scheduler/scheduler.cpp:290-324 | the pass removes all dead tasks exactly when the head lives or is the only dead one |
| `SchedModel.PickIsFirst` | kernel/scheduler/scheduler.cpp:358-377 | the task chosen is the first runnable one in ring order from the scan start |
| `SchedModel.ScheduleSafe` | kernel/scheduler/scheduler.cpp:282-385 | a step keeps pids distinct and at most the current task running, and dispatches some task if one can run |
| `SchedModel.StepKeepsTasks` | kernel/scheduler/scheduler.cpp:358-381 | task by task, a step leaves blocked and dead tasks as they are, makes the current task running and every other task that could run ready, the preempted one included |
| `SchedModel.RunSafe` | kernel/scheduler/scheduler.cpp:282-385 | the same over every run of steps, deaths, blocks, wake-ups and creations |
| `SchedModel.StepUsesBudget` | kernel/scheduler/scheduler.cpp:282-385 | a step that passes a ready task over lowers its lexicographic budget, also when the scan restarts at the head |
| `SchedModel.BoundedWaiting` | kernel/scheduler/scheduler.cpp:282-385 | a task that stays ready is dispatched within n * n steps of a ring of n tasks, whatever the others do |
| `SchedModel.DispatchedAgain` | kernel/scheduler/scheduler.cpp:282-385 | a task that can run and whose state nobody changes is dispatched before more than n * n steps have passed, also when the first of them preempts it |
| `Scheduler.Scheduler.Init` | kernel/scheduler/scheduler.cpp:23-43 | one running task linked to itself |
| `Scheduler.Scheduler.Create` | kernel/scheduler/scheduler.cpp:163-172 | the new task is ready, last in the ring and has a fresh pid; the cycle of links stays one cycle |
| `Scheduler.Scheduler.FindByPid` | kernel/scheduler/scheduler.cpp:395-402 | a pid that is present is found before the walk comes round |
| `Scheduler.Scheduler.Kill` | kernel/scheduler/scheduler.cpp:404-410 | exactly the task with the pid becomes dead |
| `Scheduler.Scheduler.LeaveCurrent` | kernel/scheduler/scheduler.cpp:54-58 | exactly the current task changes its state |
| `Scheduler.ReapPartition` | kernel/scheduler/scheduler.cpp:303-323 | every task of the old ring is kept or freed, and none is freed twice |
| `Scheduler.Scheduler.ReapDead` | kernel/scheduler/scheduler.cpp:290-324 | the relinked tasks form one cycle through exactly those kept, in order, and the caller learns whether the current task was freed |
| `Scheduler.PickNext` | kernel/scheduler/scheduler.cpp:358-377 | following the links gives the model's choice |
| `Scheduler.Scheduler.ScheduleNext` | kernel/scheduler/scheduler.cpp:282-385 | without a current task nothing changes; otherwise links, states and current task after the call are those of the model's step, and the current task is a ring task unless it was freed and nothing can run |
| `HeapModel.AlignUpExact` | kernel/mem/heap.cpp:29-31 | rounding up is the least multiple that is not below, when the sum does not wrap |
| `HeapModel.BlockSizeFits` | kernel/mem/heap.cpp:88-91 | the block covers the request exactly when the request is at most 2^64 - 32 |
| `HeapModel.BlocksDisjoint` | kernel/mem/heap.cpp:84-181 | in a conserved heap no address lies in two blocks, free or handed out |
| `HeapModel.AllocatedConserved` | kernel/mem/heap.cpp:98-114 | taking a block, split or whole, leaves every address of the heap in exactly one block |
| `HeapModel.ReleasedConserved` | kernel/mem/heap.cpp:145-180 | freeing with either, both or no merge does too, for lists in any order |
| `HeapModel.ReleasedCoalesced` | kernel/mem/heap.cpp:145-180 | freeing keeps an address-ordered list ordered with no two blocks touching |
| `HeapModel.RunSound` | kernel/mem/heap.cpp:37-181 | over every run, growth included, blocks tile exactly the memory given, their sizes add up to it, are multiples of 16 of at least 32, and every block handed out covers its request and exceeds it by less than 48 bytes |
| `HeapModel.RunRestores` | kernel/mem/heap.cpp:78-181 | while the heap has not grown, once everything is freed, in any order, the state is the initial one |
| `HeapModel.OrderKeptExactly` | kernel/mem/heap.cpp:84-137 | an allocation from an ordered list leaves an ordered list exactly when a free block fits or the block added by growth is used whole |
| `HeapModel.FragmentedAfterGrowth` | kernel/mem/heap.cpp:145-180 | a run that ends with everything free in touching pieces |
| `HeapModel.InitialExact` | kernel/mem/heap.cpp:68-74 | there is a first block exactly for sizes from 1 to 2^64 - 4096: the least number of whole pages that holds the size, and 1 MiB for larger sizes |
| `HeapModel.GrowPagesEnough` | kernel/mem/heap.cpp:122-128 | growth is by the least number of pages that holds the block, and by at least four |
| `KernelHeap.CarvedRepresents` | kernel/mem/heap.cpp:99-113 | the header and link updates of an allocation realise the model's step |
| `KernelHeap.MergeRepresents` | kernel/mem/heap.cpp:153-180 | those of a free, in all its cases, too |
| `KernelHeap.Bump.Alloc` | kernel/mem/bump_alloc.cpp:34-61 | aligned, above everything handed out before, and the next allocation starts above it |
| `KernelHeap.Allocator.Init` | kernel/mem/heap.cpp:68-82 | the first call makes one free block of the static buffer; later calls change nothing |
| `KernelHeap.Allocator.GrowHeap` | kernel/mem/heap.cpp:37-66 | fresh pages become the first free block and add to the size |
| `KernelHeap.Allocator.FindFit` | kernel/mem/heap.cpp:95-118 | walking the links finds the first block that is large enough and the one before it |
| `KernelHeap.Allocator.Malloc` | kernel/mem/heap.cpp:84-137 | the call is the model's step, so that the block handed out is the request's up to 48 bytes; the result is null exactly for size 0 or an empty list, and else points behind the header of that block |
| `KernelHeap.Allocator.Free` | kernel/mem/heap.cpp:139-181 | the call is the model's step on the block whose payload was passed; null is ignored |
| `HanaPath.NormalizeIdempotent` | kernel/filesystem/hanafs.cpp:57-70 | normalising a normalised path changes nothing |
| `HanaPath.Spellings` | kernel/filesystem/hanafs.cpp:57-70 | a path with or without a leading slash and with any number behind it has one normal form, and slashes alone are the root |
| `HanaPath.NormalizeInPlace` | kernel/filesystem/hanafs.cpp:57-70 | shifting and cutting the buffer leaves the normal form in it, or the buffer unchanged when it is full |
| `HanaPath.ParseDrivePrefix` | kernel/filesystem/hanafs.cpp:96-107 | a drive is returned and removed from the buffer, and only then |
| `HanaPath.BuildInternalPath` | kernel/filesystem/hanafs.cpp:112-138 | the buffer holds the first 511 bytes of namespace and path |
| `HanaPath.Resolve` | kernel/filesystem/hanafs.cpp:168-180 | the three buffer passes together give the stored path of a request |
| `HanaPath.SameEntry` | kernel/filesystem/hanafs.cpp:96-138 | for all requests, exactly which ones name the same entry |
| `HanaPath.PlainRequest` | kernel/filesystem/hanafs.cpp:96-138 | a request that does not start with a digit and a colon is stored under the first 511 bytes of its normal form |
| `HanaPath.DriveSyntaxCollides` | kernel/filesystem/hanafs.cpp:109-138 | for every drive and path, "N:path" and "/drvN" with the normal path behind it are one entry, exactly unless the path is the root |
| `HanaPath.LongPathsCollide` | kernel/filesystem/hanafs.cpp:115-120 | all long requests with the same first 511 bytes are one entry |
| `HanaModel.ApplyRefines` | kernel/filesystem/hanafs.cpp:167-200 | each operation has the effect and the result it has on a map keyed by stored paths |
| `HanaModel.RunRefines` | kernel/filesystem/hanafs.cpp:546-596 | over every run no stored path occurs twice and every lookup gives what the map gives |
| `HanaModel.FindAgrees` | kernel/filesystem/hanafs.cpp:41-47 | a search of the list is a lookup in the map |
| `HanaFs.Store.Init` | kernel/filesystem/hanafs.cpp:140-165 | an empty file system gets a root and four directories and is then the map with them; any other is unchanged |
| `HanaFs.InitialTree` | kernel/filesystem/hanafs.cpp:140-165 | that map has exactly the root and the four directories |
| `HanaFs.Store.WriteFile` | kernel/filesystem/hanafs.cpp:167-215 | the list after the call is the model's, and the persistence area holds it when it is to be saved and can be written |
| `HanaFs.Store.CreateFile` | kernel/filesystem/hanafs.cpp:542-544 | the same for an empty file |
| `HanaFs.Store.Unlink` | kernel/filesystem/hanafs.cpp:546-572 | succeeds exactly when the path is there, and then saves the list without it |
| `HanaFs.Store.MakeDir` | kernel/filesystem/hanafs.cpp:574-596 | succeeds exactly when nothing is there, and then saves the list with it |
| `HanaFs.Store.GetFile` | kernel/filesystem/hanafs.cpp:423-451 | delivers the bytes of a file and nothing for directories and absent paths |
| `HanaFs.Store.Serialize` | kernel/filesystem/hanafs.cpp:226-263 | the buffer is the saved form of the list |
| `HanaFs.Store.WriteArea` | kernel/filesystem/hanafs.cpp:265-283 | succeeds exactly when every sector needed can be written, and then the sectors hold the blob; other sectors stay |
| `HanaFs.Store.LoadFromAta` | kernel/filesystem/hanafs.cpp:315-379 | fails without a change on bad magic or an unreadable sector, and else replaces the list by what the records say |
| `HanaImage.RecordReadsBack` | kernel/filesystem/hanafs.cpp:356-374 | reading a record gives the entry it was made from and the place after it |
| `HanaImage.BlobStart` | kernel/filesystem/hanafs.cpp:241-250 | the saved form starts with "HANA", version 1, the number of entries and the number of bytes behind |
| `HanaImage.ParseRecords` | kernel/filesystem/hanafs.cpp:356-375 | parsing all records gives the entries in reverse |
| `HanaImage.LoadSaved` | kernel/filesystem/hanafs.cpp:315-379 | loading what was saved gives the list reversed, followed by a fresh root |
| `HanaImage.LoadedLookups` | kernel/filesystem/hanafs.cpp:350-369 | every lookup survives exactly when there was a root entry |
| `HanaImage.SaveLoadKeepsLookups` | kernel/filesystem/hanafs.cpp:223-379 | with a directory root every lookup survives saving and loading, any number of times |
| `HanaImage.RunSurvivesReload` | kernel/filesystem/hanafs.cpp:223-379 | after any run, saving and loading leaves every path standing for what the map of the run says |
| `HanaImage.ReloadedRootStays` | kernel/filesystem/hanafs.cpp:352-369 | a loaded list has two roots, and unlinking the root leaves one |
| `InitrdModel.OctalRoundTrip` | kernel/filesystem/initrd.cpp:10-18 | parsing a number written in octal gives the number |
| `Initrd.ParseOctal` | kernel/filesystem/initrd.cpp:10-18 | the loop computes the value of the leading octal digits |
| `Initrd.CopyField` | kernel/filesystem/initrd.cpp:63-74 | a field is copied up to its NUL, or whole when it has none |
| `Initrd.DecodeHeader` | kernel/filesystem/initrd.cpp:87-125 | path, kind and size that a header announces |
| `Initrd.EnsureParentDirs` | kernel/filesystem/initrd.cpp:41-61 | one directory request for every slash but the leading one, from the top down, and none for paths of 512 bytes and more |
| `Initrd.InitFromMemory` | kernel/filesystem/initrd.cpp:76-156 | ends on every input; the list afterwards is the one that the records, up to a truncated file, produce, and the result tells whether there was one |
| `InitrdModel.ArchiveReads` | kernel/filesystem/initrd.cpp:82-153 | every archive of the ustar format is read as its members, in order and completely: regular ones under the path of their own name and prefix fields, directories likewise, the top not at all |
| `InitrdModel.PathWithoutPrefix` | kernel/filesystem/initrd.cpp:92-116 | members "a", "./a" and "/a" go to "/a" |
| `InitrdModel.PathWithPrefix` | kernel/filesystem/initrd.cpp:92-116 | with prefix "d", "./d" or "/d" a member "a" goes to "/d/a" |
| `InitrdModel.DirectoryPath` | kernel/filesystem/initrd.cpp:112-125 | a directory "d" with any number of slashes behind it, "./" before it or not, goes to "/d" |
| `InitrdModel.CutReads` | kernel/filesystem/initrd.cpp:82-137 | an archive cut off in the data of a file is read up to that file and reported as incomplete |
| `InitrdModel.OctalFirst` | kernel/filesystem/initrd.cpp:10-18 | the first digit of a size field counts most |
| `InitrdModel.Extracted` | kernel/filesystem/initrd.cpp:130-148 | every file path stands for the bytes of its last record and has an entry for each ancestor |
| `InitrdModel.ArchiveExtracted` | kernel/filesystem/initrd.cpp:76-156 | from the bytes of an archive to lookups in the file system, from any start: the path of every regular member stands for the bytes of the last member with that path, and all its ancestors are there |
| `InitrdModel.DirectoryExtracted` | kernel/filesystem/initrd.cpp:128-130 | every directory member is there, as a directory unless a file was or is put under its path |
| `InitrdModel.ExtractedOnly` | kernel/filesystem/initrd.cpp:76-156 | nothing is added but the paths of records and the ancestors of files, and nothing is changed but the paths of files |
| `Rings.RunConserves` | kernel/tty/pty.cpp:27-43 | for every interleaving, bytes delivered followed by bytes held are the bytes accepted |
| `Rings.PutAllOrFull` | kernel/tty/pty.cpp:27-34 | a write takes a prefix of what is offered, and leaves a rest only when the queue is full then |
| `Rings.GetAllOrEmpty` | kernel/tty/pty.cpp:36-43 | a read takes the oldest bytes, and fewer than asked only when the queue is empty then |
| `Rings.ReadableUntilWrap` | kernel/tty/pty.cpp:36-43 | the reader's test is right exactly until the write counter wraps |
| `Rings.PtyRing.Write` | kernel/tty/pty.cpp:27-34 | accepts exactly the smaller of what is offered and the room left of 1024, behind what is held |
| `Rings.PtyRing.Read` | kernel/tty/pty.cpp:36-43 | delivers the oldest bytes held, as many as asked or all |
| `Rings.PtyPair.MasterWrite` | kernel/tty/pty.cpp:90-94 | goes to the queue the slave reads; -1 when the pair is not in use |
| `Rings.PtyPair.SlaveRead` | kernel/tty/pty.cpp:96-100 | takes from the queue the master writes |
| `Rings.PtyPair.SlaveWrite` | kernel/tty/pty.cpp:102-106 | goes to the queue the master reads |
| `Rings.PtyPair.MasterRead` | kernel/tty/pty.cpp:84-88 | takes from the queue the slave writes |
| `Rings.PtyPair.PushInput` | kernel/tty/pty.cpp:108-114 | a typed byte joins the slave's queue, or is dropped when that is full |
| `Rings.Pipe.Write` | kernel/userland/syscalls.cpp:95-106 | accepts exactly the smaller of what is offered and the room left of 4095 |
| `Rings.Pipe.Read` | kernel/userland/syscalls.cpp:139-148 | delivers the oldest bytes held, as many as asked or all |
| `Descriptors.WrittenBytes` | kernel/userland/syscalls.cpp:107-119 | a write changes exactly the bytes under it and the length only to make room |
| `Descriptors.WriteSeekRead` | kernel/userland/syscalls.cpp:107-138 | seeking back and reading gives what was written |
| `Descriptors.SeekOrigins` | kernel/userland/syscalls.cpp:225-241 | seeking from the position and from the end: back over what was written, to the last bytes, to the end where a write appends, and not before the start |
| `Descriptors.ReadInTurn` | kernel/userland/syscalls.cpp:131-138 | consecutive reads give the bytes in order without a gap |
| `Descriptors.OpenFile.Write` | kernel/userland/syscalls.cpp:107-119 | growing, copying and overwriting the buffer is a write of the abstract file |
| `Descriptors.OpenFile.Read` | kernel/userland/syscalls.cpp:131-138 | delivers the bytes from the position to the smaller of count and end, and moves past them |
| `Descriptors.OpenFile.Seek` | kernel/userland/syscalls.cpp:225-241 | fails before the start and stops at the end, so the position never exceeds the length |
| `Descriptors.AllocFd` | kernel/userland/fdtable.cpp:31-37 | the lowest free descriptor from 3 on, -1 exactly when there is none |
| `Descriptors.Open` | kernel/userland/syscalls.cpp:153-178 | contents and position a new descriptor starts with, and when an empty file is made first |
| `Descriptors.Close` | kernel/userland/syscalls.cpp:212-223 | the contents become the file's |
| `Descriptors.WriteThenRead` | kernel/userland/syscalls.cpp:107-223 | open, write, close, open, read gives back the data exactly when it is not empty or nothing else is under the path |
| `ElfLoader.LastCoverWins` | kernel/userland/elf_loader.cpp:105-121 | the last segment whose file bytes cover an address decides it, and uncovered addresses are zero |
| `ElfLoader.LoadedAsDefined` | kernel/userland/elf_loader.cpp:98-121 | for disjoint segments every segment has its file bytes followed by zeros |
| `ElfLoader.ZeroExactly` | kernel/userland/elf_loader.cpp:105-121 | an address is zero for all contents of the file exactly when no segment has file bytes there |
| `ElfLoader.OverlapNotZeroed` | kernel/userland/elf_loader.cpp:119-120 | an accepted file with overlapping segments, where a tail that should be zero is not |
| `ElfLoader.Span` | kernel/userland/elf_loader.cpp:73-86 | lowest start and highest end of the loadable segments |
| `ElfLoader.CopySegments` | kernel/userland/elf_loader.cpp:105-121 | copies in order inside the image, and fails exactly on a segment that is not in the file or ends outside the span |
| `ElfLoader.LoadFromMemory` | kernel/userland/elf_loader.cpp:55-133 | loads exactly the files accepted; the result is the file's image in memory never handed out before, with the entry inside it |
| `ElfLoader.FileReads` | kernel/userland/elf_loader.cpp:10-36 | every file with given header and program header values at their ELF-64 offsets, little-endian, is read as these values |
| `ElfLoader.FileAccepted` | kernel/userland/elf_loader.cpp:55-131 | such a file is accepted exactly when its loadable segments span at most 64 MiB, lie in the file, end in the span, and the entry is in it |
| `ElfLoader.NothingToLoad` | kernel/userland/elf_loader.cpp:84-85 | and not when it has no loadable segment |
| `ElfLoader.FileLoaded` | kernel/userland/elf_loader.cpp:98-124 | its image has the length of the span, the entry as far from the start as in the file, and at every address the byte of the last segment that has one there, or zero |

## Left out

- Fat32Files.WriteFile: works in one given directory, because the walk over the components of a path only repeats the directory scan; component names are 1 to 63 bytes long, as the walk makes them.
- Fat32Files.WriteFile: does not cover names that start with the byte 0xE5, because the code does not escape it and the entry would at once count as deleted.
- Fat32Files.WriteFile: an entry to be removed whose sector cannot be written is excluded, because the code goes on with an entry that names free clusters; `Fat32Files.RemoveEntry` covers the removal itself and `Fat32Files.DanglingEntry` what it breaks.
- Fat32Files.WriteFile: components that reach a dot entry of the directory are excluded, because the removal then frees the directory itself, as `Fat32Files.RemovingDot` states.
- Fat32Files.RemoveEntry: components that reach a dot entry are excluded for the same reason; `Fat32Files.EraseEntry` covers them.
- Fat32Run.LastWriteRead: covers directories whose entries lookup and removal decode alike; they differ on names with a space inside, which the kernel does not write, and a formatted volume has none. Sizes are recorded modulo 2^32, so files of 4 GiB and more are excluded.
- Fat32Files.RemovesWhatIsFound: the same condition on the directory.
- Fat32Session.ServeOne: the same two exclusions as for writing.
- Fat32Session.Serve: the same, for all requests of the run.
- Fat32Volume.Volume.WriteFatEntry: transfers of FAT sectors are taken to succeed, because a refused one can leave the copies different and the code does not repair them; it covers the values its callers store, which are links in range, end marks and zero.
- Fat32Volume.Volume.FreeClusterChain: covers tables whose links are free, in range or end marks; the bad-cluster mark and links past the table send the code outside the FAT.
- Fat32Format.MountReads: other sector sizes up to 4096 are left out, although mounting takes them, because the ATA transfers below are of 512 bytes.
- Fat32Files.GetFile: does not model module images, subdirectories on the way and the debug output.
- Fat32Subdir.MakeDir: works in one given directory, like `Fat32Files.WriteFile`.
- Removing a directory that has entries: it is a removal like any other and frees the directory's chain only, so that the chains of its entries stay in use without an owner.
- Scheduler.Scheduler.ScheduleNext: a ring whose only task is dead is excluded, because the code frees that task and goes on using it.
- Scheduler.Scheduler.FindByPid: an absent pid is excluded, because the walk over the cycle then never ends.
- Scheduler.Scheduler.Kill: an absent pid is excluded for the same reason.
- KernelHeap.Allocator.Malloc: requests above 2^64 - 32 are excluded, because the block would be smaller than the request; where the heap must grow, the address space must have room above the pages handed out, because the page allocator never reports that it is exhausted.
- KernelHeap.Bump.Alloc: likewise does not cover an exhausted address space.
- KernelHeap.Allocator.Free: pointers that were not handed out or were freed already are excluded, because the code cannot tell.
- HanaFs.Store.WriteFile: lists whose lengths do not fit the saved form are excluded when they are to be saved, because the code cuts the lengths off.
- HanaFs.Store.CreateFile: the same limit on lengths.
- HanaFs.Store.Unlink: the same limit on lengths.
- HanaFs.Store.MakeDir: the same limit on lengths.
- HanaFs.Store.Serialize: the same limit on lengths.
- HanaFs.Store.LoadFromAta: records whose data runs past the buffer are excluded, because the code reads whatever follows in memory.
- Initrd.InitFromMemory: the same limit on lengths holds for every list on the way.
- Rings.PtyRing.Write: the write counter must not wrap; what happens when it does is stated by `Rings.ReadableUntilWrap`.
- Rings.PtyPair.MasterWrite: the same limit on the counter.
- Rings.PtyPair.SlaveWrite: the same limit on the counter.
- Rings.PtyPair.PushInput: the same limit on the counter.
- Descriptors.Close: the list written back must fit the saved form when it is saved, as for `HanaFs.Store.WriteFile`.
- Descriptors.Open: for paths under a mount point the dispatch to other file systems is not part of this model; what procfs, devfs and FAT32 have under a path is a parameter.
- ElfLoader.LoadFromMemory: sums that wrap at 64 bits are excluded, and so are program header tables with entries smaller than a program header, because the code then reads outside the file.
- Device drivers, interrupts, context switching, system call entry and the user interface: hardware state or display.
- Stacks, registers and memory of tasks: a switch is an assignment of the current task. Waiting for a task to end is a loop around `ScheduleNext`.
- Listing and removing directories in HanaFS and mounting ISO images: prefix matching without separators and a dropped drive make their useful statements all preconditions.
- ext3, procfs, devfs, floppy, users and shell: table lookups and straight-line code.
- Duplicating descriptors and creating pipes through the descriptor table: the table picks both ends of a pipe before it reserves the first, so that pipes are stated on the ring.
- Allocation failure inside the file systems: taken not to happen, as the code does not recover from it consistently.
- Concurrency: the kernel runs these operations one at a time.
