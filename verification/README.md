# Verified models of an xv6-style kernel for RISC-V and its user programs

This project models the parts of the system that share state in ways that are easy to get wrong, and proves for
every input, every run or every reachable state what those parts promise. Each module follows one component:

| files | component |
|---|---|
| `PrivateMemory.dfy`, `FrameAccounting.dfy`, `TableNodes.dfy`, `CowStates.dfy`, `CowKernel.dfy` | copy-on-write and lazy memory over reference-counted pages: the page allocator, page faults, `sbrk`, `fork`, exit |
| `Sv39.dfy` | the three-level page-table tree of section 4.4 of the RISC-V Privileged Architecture, version 1.12 |
| `Umalloc.dfy` | the user-level allocator of section 8.7 of Kernighan and Ritchie, second edition |
| `FatCache.dfy` | the least-recently-used cache of FAT sectors and its coherence with the disk |
| `FatWalk.dfy`, `FatFile.dfy`, `FatFiles.dfy`, `FatDisk.dfy` | files as FAT32 cluster chains over that cache: cursor, chunked reads and writes, extension, truncation; several files on one volume; where their bytes lie on the disk |
| `LongName.dfy` | long file names in directories, written and read back |
| `Pipe.dfy`, `PipeCalls.dfy` | pipes on top of `sleep` and `wakeup`, as interleaved steps |
| `VirtioDisk.dfy` | the virtio block driver and its device, over the split ring of section 2.6 of OASIS VIRTIO 1.1 |
| `ShellGrammar.dfy`, `ShellSyntax.dfy`, `ShellRoundTrip.dfy`, `ShellParser.dfy` | the shell's parser, the grammar it accepts, its printer, and the parser at work on its buffer |
| `Grep.dfy` | the pattern matcher and the line loop of `grep` |
| `Vma.dfy` | the table of mapped areas and the search for a free range |
| `Mlfq.dfy` | the multi-level feedback queue scheduler |
| `Calendar.dfy` | the calendar clock |
| `Common.dfy` | sequences and sets that several modules count with |

## How the models are built

Code that changes state in place is a class with the fields of the source and methods with its loops; every such
method is proved against a function or predicate on values, and what the system promises is proved about those
values. Protocols between processes, or between driver and device, are state machines whose steps are the points
where the code can interleave; their theorems hold for every finite run. Ghost fields record what the source does not
store but its correctness depends on: which references are in flight, the list a chain of pointers stands for,
the order of uses, the history of a run.

The main results:

- **Private memory.** Any run of `fork`, loads, stores, `copyin`, `copyout`, `sbrk` and exit, with every fault in
  between, refines a machine in which each process owns its own demand-zero memory, and a process is untouched by
  what the others do (`CowKernel.Kernel.Run`, `PrivateMemory.Isolation`). A call fails or kills its process only out of
  range, without a free process slot, or with fewer free pages than it can need. In every state reached, reference
  counts are the numbers of references, a writable page has one mapping, and memory is partitioned into free pages, the
  pages of processes' tables, kernel stacks lost by a failing `allocproc`, orphaned pages and mapped pages
  (`FrameAccounting.Conservation`). No call changes what a process can fetch from a page that stays mapped, and a child
  fetches from its pages as the parent does (`CowStates.FetchBy`). How many pages a walk, a fault or a fork takes is a
  function of the tables.
- **Page tables, heap, files.** The Sv39 tree is a finite map, and a walk adds to it exactly the nodes that the memory
  model counts (`Sv39.PageTable.Walk`, `Sv39.WalkCost`). The heap's free list stays one ordered, coalesced circle with
  all units accounted for in every program run, up to exactly the first request that wraps (`Umalloc.Heap.Run`).
  Any run of reads, writes and truncations on files that share no cluster acts on each as on a byte sequence of its own,
  up to the first write that has no room or has to go past an end of chain that the FAT cache shows as free
  (`FatFiles.Run`). Which write that is
  is proved from the chain, the cached sectors and the lowest free cells (`FatFiles.AstrayExactly`); reads and
  truncations are exact whatever is stale.
- **Interleavings.** Pipes deliver bytes in order through wrapping counters and lose a wakeup in exactly one case; a
  call on a pipe moves exactly its own bytes and stops early only for the reasons named (`PipeCalls.EveryCall`);
  each disk request is completed once and its caller resumes only after its own completion.
- **Areas and queues.** Any run of maps, unmaps and copies among the tables of mapped areas keeps every table's areas
  disjoint, up to exactly the first map that wraps (`Vma.Run`); in every run of the scheduler each dispatch is a best
  choice and a process's level follows from its charged ticks (`Mlfq.Cpu.Run`).
- **Caches, names, languages.** The FAT cache is an exact LRU; long names come back as written; the shell's
  parser gives a command exactly for the texts of its grammar, and that command (`ShellSyntax.ParsesExactly`), and
  inverts printing; the matcher is sound and complete for the meaning of patterns.

Where the code departs from its intent, the model keeps the code, a lemma or contract gives a concrete case, and the
exact condition is proved where there is one:

- `cow_alloc` drops a reference without ever freeing: the page is orphaned exactly when its count was one
  (`CowKernel.Kernel.CowAlloc`), as it is once parent and child have both written to it (`CowKernel.StoresStrand`).
- `uvmcopy`, failing in the child's kernel table, gives back a reference that was never counted. It does so exactly when
  the free pages last for the nodes of the pages before some page and for its user path but not for its kernel path
  (`CowKernel.Kernel.Fork`, `CowKernel.Breaks`); with ten pages free a process of one page ends up mapping a free
  page (`CowKernel.ForkCorrupts`).
- `uvmcopy` gives the child access to a page whose parent has none exactly when the parent's leaf lacks user access; the
  parent's own access then panics if a page is free and kills it otherwise (`CowStates.GuardPageOpened`).
- `allocproc` loses the kernel stack it has just taken exactly when six or seven pages are free: the page stays counted
  and nothing refers to it (`CowKernel.Kernel.NewProc`, `CowKernel.LosesStack`, `CowKernel.StackLost`).
- `malloc` passes a byte count to `sbrk` as an `int`; it returns memory it was not given exactly when that
  wraps and is accepted (`Umalloc.Heap.Malloc`, `Umalloc.HugeRequestWraps`).
- `alloc_clus` writes the FAT past the cache: the cell just claimed reads as free exactly when its sector was cached
  (`FatCache.Fat.AllocThenRead`). A write that has to go past such a cell continues at cluster 0, in front of the data
  area (`FatFiles.LongFirstWrite`, `FatFiles.WriteGoesAstray`, `FatFiles.ClusterZeroOutside`). The scan of `alloc_clus`
  is not bounded by the number of clusters (`FatFile.Volume.AllocClus`).
- A killed writer leaves a full pipe without waking readers: a step strands a reader exactly when it is that return and a
  reader is asleep (`Pipe.StrandedExactly`, `Pipe.KilledWriterStrandsReader`), and the next wakeup of the readers makes
  up for it (`Pipe.WakeupMakesUp`).
- `vma_find_free_range` can wrap below zero, exactly when the last area it meets begins below the length asked for, or
  accept a hint whose end wraps; `sys_mmap` then hands out an area outside user space exactly as `Vma.Escapes` says
  (`Vma.Manager.Mmap`, `Vma.SearchWraps`, `Vma.HintWraps`, `Vma.HintInside`).
- The scheduler rescans from the first process, so the others in the lowest queue starve, whatever is woken
  (`Mlfq.HogStarvesOthers`, `Mlfq.FirstStarvesOthers`).
- `grep` stops at a line that does not fit its buffer; it prints exactly the matching lines of exactly
  the inputs for which nothing is lost that way (`Grep.SelectedIsFiltered`, `Grep.LongLineStops`).
- `sys_settime` takes the 31st in every month (`Calendar.FebruaryOverflows`), and the clock is right exactly as
  long as its seconds fit an `int` (`Calendar.Clock.SetThenGet`).
- `snstr`, having met a NUL, clears one byte less than is left, and padding behind the NUL of a name is read as
  0xFF bytes; the name still comes back whole (`LongName.Dirent.Snstr`, `LongName.Dirent.Enext`). On a directory with
  misplaced long entries `enext` writes outside the fields it sets or through a null pointer, exactly as
  `LongName.Faults` says.

## Model

| member | source | states |
|---|---|---|
| PrivateMemory.Isolation | kernel/vm.c:408-453 | over whole runs of the private-memory machine a process that makes no call keeps its memory whatever the others do |
| PrivateMemory.SpliceTwice | kernel/vm.c:477-508 | writing page by page is writing the concatenation |
| PrivateMemory.BytesJoin | kernel/vm.c:532-554 | reading page by page is reading the concatenation |
| PrivateMemory.SpliceAt | kernel/vm.c:499-503 | every byte after a write is the one written there or the one that was there |
| PrivateMemory.ReadBack | kernel/vm.c:477-554 | what is written is read back |
| PrivateMemory.ResizedAt | kernel/sysproc.c:95-122 | after sbrk the pages that stay keep their bytes and new ones read as zero |
| PrivateMemory.StoredIsLoaded | kernel/trap.c:95-146 | a load gives what was stored, unless it kills |
| PrivateMemory.CopiedIsRead | kernel/vm.c:471-562 | copyin gives what was copied out, unless it fails |
| FrameAccounting.TakenKeeps | kernel/kalloc.c:155-179 | kalloc keeps the accounting: counts, free list, sole writers |
| FrameAccounting.ReleasedKeeps | kernel/kalloc.c:117-150 | kfree of a held reference keeps the accounting, freeing the page only with its last reference |
| FrameAccounting.DroppedKeeps | kernel/kalloc.c:61-71 | decref keeps the accounting when the page it strands is booked as an orphan |
| FrameAccounting.MappedKeeps | kernel/vm.c:213-217 | storing a leaf for a held page keeps the accounting when a writable page is alone |
| FrameAccounting.UnmappedKeeps | kernel/vm.c:275-279 | clearing a leaf moves its reference to the running code |
| FrameAccounting.TabledKeeps | kernel/vm.c:131-134 | a page taken as a table node is private to its table |
| FrameAccounting.UntabledKeeps | kernel/vm.c:386-395 | a freed node is no longer referenced |
| FrameAccounting.StowedKeeps | kernel/vm.c:742-748 | a held page put away as a node or lost as a kernel stack keeps the accounting |
| FrameAccounting.SharedKeeps | kernel/vm.c:437-440 | mapping a shared page before its incref keeps the accounting with one count owed |
| FrameAccounting.CountedKeeps | kernel/kalloc.c:50-58 | incref settles the count that is owed |
| FrameAccounting.ProtectedKeeps | kernel/vm.c:428-434 | turning a writable leaf into a copy-on-write one keeps the accounting |
| FrameAccounting.Conservation | kernel/kalloc.c:117-179 | free pages, pages of tables, lost kernel stacks, orphaned and mapped pages are disjoint and together all of memory |
| FrameAccounting.LostCounted | kernel/vm.c:742-754 | a lost kernel stack has one count, no mapping, and is neither free nor orphaned |
| FrameAccounting.FreedIsNext | kernel/kalloc.c:117-179 | the page freed last is the next one handed out |
| TableNodes.WalkAdds | kernel/vm.c:124-136 | a walk to a page has to add exactly the nodes of levels 1 and 0 that its table lacks |
| TableNodes.CopyCost | kernel/vm.c:417-440 | a page needs in each of the child's tables what it adds to the nodes above the pages before it |
| TableNodes.FailsShort | kernel/vm.c:437-440 | a copy that fails at a page had fewer pages than the whole copy needs |
| TableNodes.NotBoth | kernel/vm.c:437-440 | with given free pages a copy fails in one way only: in a user table or in a kernel table |
| TableNodes.AboveBound | kernel/vm.c:417-440 | the pages of a process have at most two nodes each above them |
| CowStates.CowKeeps | kernel/vm.c:649-669 | kalloc, copy, decref and the new leaf keep the accounting and every byte any process sees |
| CowStates.UnmappedSame | kernel/vm.c:265-280 | unmapping and freeing one page makes that page read zero and changes no other |
| CowStates.ShrunkKeeps | kernel/vm.c:355-376 | shrinking cuts whole pages of one process and nothing else |
| CowStates.GrownKeeps | kernel/sysproc.c:107-113 | growing adds pages that read zero without allocating |
| CowStates.ShareStep | kernel/vm.c:424-440 | sharing one page gives the child the parent's page and keeps the accounting |
| CowStates.ForkedAbs | kernel/vm.c:415-446 | after a complete copy the child's memory is the parent's and no other changed |
| CowStates.ForkedLaw | kernel/vm.c:424-440 | after a fork the child fetches from its pages as the parent did, and the parent as before |
| CowStates.TouchedLaw | kernel/vm.c:627-731 | a fault changes what can be fetched from no mapped page, and maps new pages as data of the caller |
| CowStates.CopyUndone | kernel/vm.c:448-452 | a copy that fails in the child's user table is undone completely |
| CowStates.UncountedRelease | kernel/vm.c:439-451 | undoing a mapping whose incref never happened leaves a page counted one short |
| CowStates.UncountedSeen | kernel/vm.c:448-452 | undoing an uncounted mapping changes what is seen only through mappings of its page, and only when its count is gone |
| CowStates.UncountedRest | kernel/vm.c:448-452 | if the page keeps a count, that one missing count is the whole damage |
| CowStates.UnderCountedBroken | kernel/vm.c:448-452 | such a state breaks the accounting |
| CowStates.FaultNeverPanics | kernel/trap.c:95-146 | in a consistent state a fault never remaps, and kills only beyond the size |
| CowStates.SupplyFollows | kernel/vm.c:742-754 | with the mapped pages the same, the free pages are one less exactly when a kernel stack was lost |
| CowStates.GuardPageOpened | kernel/vm.c:424-437 | after uvmcopy the child may load from a page its parent may not exactly when the parent's leaf lacks user access; the parent's load then panics if a page is free, and kills it otherwise |
| CowStates.WrittenAbs | kernel/vm.c:499-503 | a store through a sole writable mapping changes one process's bytes and no other's |
| CowKernel.Kernel.constructor | kernel/kalloc.c:86-102 | kinit: all pages of the range are free, none referenced or orphaned |
| CowKernel.Kernel.FreeRange | kernel/kalloc.c:104-111 | every page of the range ends on the free list once |
| CowKernel.Kernel.KAlloc | kernel/kalloc.c:155-179 | the head of the free list with one reference, or none exactly when the list is empty |
| CowKernel.Kernel.KFree | kernel/kalloc.c:117-150 | one reference less; on the free list exactly when it was the last |
| CowKernel.Kernel.DecRef | kernel/kalloc.c:61-71 | one reference less, and an orphan when it was the last |
| CowKernel.Kernel.IncRef | kernel/kalloc.c:50-58 | one reference more |
| CowKernel.Kernel.Walk | kernel/vm.c:120-138 | exactly the nodes missing on the path are added, from free pages, and no memory changes; it fails exactly when fewer are free |
| CowKernel.Kernel.MapFresh | kernel/vm.c:715-727 | the two mappings of lazy_alloc, the first undone when the second fails; exact in pages and nodes taken |
| CowKernel.Kernel.MapKernel | kernel/vm.c:722-727 | the mapping in the kernel table, the user mapping undone when it fails; exact in pages and nodes taken |
| CowKernel.Kernel.LazyAlloc | kernel/vm.c:704-731 | an untouched page gets a zeroed page of its own, changing no memory, exactly when the page and the missing nodes of both tables are free |
| CowKernel.Kernel.CowCopy | kernel/vm.c:649-669 | kalloc, memmove, decref and the new leaf, as one effect |
| CowKernel.Kernel.CowAlloc | kernel/vm.c:627-685 | a private copy exactly when the page is copy-on-write and a page is free: writable, no longer copy-on-write, executable as before; orphans grow exactly when the count was one |
| CowKernel.Kernel.UvmUnmap | kernel/vm.c:256-281 | exactly the range is unmapped and reads zero, references are given back |
| CowKernel.Kernel.UvmDealloc | kernel/vm.c:355-376 | both tables lose exactly the pages above the new size |
| CowKernel.Kernel.FreeProc | kernel/proc.c:206-218 | the process's memory is gone and no other's has changed |
| CowKernel.Kernel.Sbrk | kernel/sysproc.c:95-122 | exactly the private-memory step: lazy growth, eager shrinking, the refusals |
| CowKernel.Kernel.CopyPage | kernel/vm.c:417-443 | one turn of uvmcopy: shared, without a table, or counted short, each exactly by the missing nodes and free pages |
| CowKernel.Kernel.CopyLeaf | kernel/vm.c:424-437 | the leaves that one turn of uvmcopy leaves in parent and child, whatever the access of the page |
| CowKernel.Kernel.ShareWithChild | kernel/vm.c:437-442 | the two mappings and the incref of one shared page, counted short exactly when the kernel table lacks nodes |
| CowKernel.Kernel.CopyNext | kernel/vm.c:417-443 | the same turn from the tables the copy began with: what each failure says about the free pages at the start |
| CowKernel.Kernel.UvmCopy | kernel/vm.c:414-453 | a whole copy exactly when the pages last for the nodes of both tables; the undercounting failure exactly when they run out in a kernel table; the other failure undone |
| CowKernel.Kernel.UndoAll | kernel/vm.c:448-452 | the error path after the first mapping failed restores every memory |
| CowKernel.Kernel.Undo | kernel/vm.c:448-452 | the error path after the second mapping failed: one page counted one short, read as freed where its count is gone, all else as before |
| CowKernel.Kernel.PageFault | kernel/trap.c:95-146 | access permitted exactly within the size and with the pages the fault takes, killed otherwise; no memory and no right to fetch changes; which page is orphaned |
| CowKernel.Kernel.Load | kernel/trap.c:95-146 | a load returns the private-memory byte, killed exactly beyond the size or for lack of pages; nothing is orphaned |
| CowKernel.Kernel.Store | kernel/trap.c:95-146 | a store changes that byte of that process alone; the page orphaned, if any; killed exactly beyond the size or for lack of pages |
| CowKernel.Kernel.Resolve | kernel/vm.c:477-497 | what copyin and copyout do before moving bytes ends like the fault of a load or store |
| CowKernel.Kernel.PutChunk | kernel/vm.c:477-505 | one turn of copyout: the bytes go to that page of that process alone, exactly when it is in range and the pages suffice |
| CowKernel.Kernel.CopyIn | kernel/vm.c:526-562 | the bytes of the private memory, failing only out of range or for lack of pages |
| CowKernel.Kernel.CopyOut | kernel/vm.c:471-521 | the bytes written to the private memory, refused exactly out of range, a failure leaving a written prefix |
| CowKernel.Kernel.KernelTable | kernel/vm.c:734-754 | a kernel table exactly when four pages are free; the stack is lost exactly when two or three are |
| CowKernel.Kernel.MapStack | kernel/vm.c:745-746 | the stack is mapped exactly when the two nodes can be had, and lost otherwise |
| CowKernel.Kernel.NewProc | kernel/proc.c:128-161 | a process with no pages and no nodes exactly when eight pages are free; otherwise nothing changes, except that a page is lost exactly when six or seven are |
| CowKernel.Kernel.CopyTo | kernel/proc.c:401-408 | the copy into the new process and the error path after it: the copy exactly when the nodes of both tables can be had |
| CowKernel.Kernel.Fork | kernel/proc.c:390-408 | the child has the parent's memory and its shielded leaves exactly when a slot is free and the pages suffice; the undercounting failure exactly when its condition holds; nothing changed otherwise but a kernel stack lost exactly when allocproc loses it |
| CowKernel.Kernel.UserInit | kernel/proc.c:339-350 | the first process has one executable page holding its code, exactly when thirteen pages are free |
| CowKernel.Kernel.Perform | kernel/vm.c:408-754 | each call is a step of the private-memory machine, breaks the accounting exactly under the undercounting condition, and loses exactly the kernel stacks said |
| CowKernel.Kernel.Run | kernel/vm.c:408-754 | every run refines the private-memory machine, each failure out of range, without a slot or short of pages, and which pages each call loses and what it leaves executable, up to exactly the first fork that meets the undercounting condition, the accounting holding at every state |
| CowKernel.ForkCorrupts | kernel/vm.c:437-452 | from boot: a fork with ten pages free leaves the parent mapping a free page that reads as kfree filled it |
| CowKernel.StoresStrand | kernel/vm.c:649-669 | from boot: a fork, a store by the parent and a store by the child leave one page neither free nor mapped |
| CowKernel.StackLost | kernel/vm.c:742-754 | from boot: a fork with six pages free fails and leaves one page counted once that nothing refers to |
| Sv39.PackedEntry | kernel/include/riscv.h:351-355 | packing an address and flags into an entry and unpacking them are inverse on page addresses |
| Sv39.PackedLink | kernel/vm.c:134 | the entry of a node is valid and not a leaf |
| Sv39.PackingInjective | kernel/include/riscv.h:351-355 | equal entries have equal addresses and flags |
| Sv39.HardwareSees | kernel/include/riscv.h:351-366 | three loads from the root, as section 4.3.2 of the RISC-V Privileged Architecture has them, find the entry of the map |
| Sv39.IndexSplit | kernel/include/riscv.h:358-366 | the three indices of an address below MAXVA make up its page number |
| Sv39.IndexInjective | kernel/include/riscv.h:358-366 | page addresses with equal indices are equal |
| Sv39.NodeAdded | kernel/vm.c:128-135 | linking a zeroed page below an invalid entry keeps the tree and every translation |
| Sv39.EntryStored | kernel/vm.c:213-217 | storing or clearing a leaf changes the translation of one page only |
| Sv39.NodeRemoved | kernel/vm.c:386-390 | clearing the link to an empty node takes it out of the tree |
| Sv39.LeafEntry | kernel/vm.c:242-273 | unmapping never meets an inner entry, so its panic cannot happen |
| Sv39.PageTable.constructor | kernel/vm.c:285-294 | an empty root maps nothing |
| Sv39.PageTable.Walk | kernel/vm.c:119-138 | the entry of the address, or none exactly when its path is missing; with alloc set the tree gains exactly the missing nodes of the path, and none exactly when fewer pages are free |
| Sv39.WalkCost | kernel/vm.c:124-136 | the nodes a walk lacks and adds in the tree are those counted and added for the table of a process |
| Sv39.PassedStop | kernel/vm.c:128-132 | where a walk meets a missing node without a page left, the whole path takes more pages than there were |
| Sv39.PageTable.MapOne | kernel/vm.c:206-218 | one page: mapped, found mapped, or without a node for lack of pages, each exactly when |
| Sv39.PageTable.MapPages | kernel/vm.c:203-224 | exactly the range is mapped, to consecutive frames, if and only if none of it was mapped and the pages suffice for the missing nodes above it; the early stops say why |
| Sv39.OverStep | kernel/vm.c:206-223 | each page of a range takes what its walk finds missing behind the pages before it |
| Sv39.PageTable.Unmap | kernel/vm.c:256-281 | exactly the range is unmapped, its frames freed in order |
| Sv39.PageTable.FreeWalk | kernel/vm.c:380-396 | on a tree without leaves every table page is freed exactly once |
| Umalloc.PlaceExists | xv6-user/umalloc.c:30-32 | a block to be freed has a place in the list |
| Umalloc.SearchStops | xv6-user/umalloc.c:30-32 | the search of free stops at that place and nowhere else, also round the end of the circle |
| Umalloc.FreedKeeps | xv6-user/umalloc.c:33-43 | relinking with both merges keeps the list ordered, disjoint, without adjacent blocks, units conserved |
| Umalloc.FreedBlocks | xv6-user/umalloc.c:33-42 | after free a listed block is one that was listed before or holds the freed one |
| Umalloc.WholeTaken | xv6-user/umalloc.c:76-77 | handing out a whole block keeps it so |
| Umalloc.SplitKeeps | xv6-user/umalloc.c:78-82 | handing out the tail of a block keeps it so |
| Umalloc.FreshHeld | xv6-user/umalloc.c:54-58 | a block at the old break is held and disjoint from all others |
| Umalloc.CoreFits | xv6-user/umalloc.c:46-61 | when nothing fits, only the block with the new core can |
| Umalloc.CoreBytes | xv6-user/umalloc.c:46-53 | core is asked for in pieces of at least 65536 bytes |
| Umalloc.KernelRefuses | kernel/sysproc.c:95-122 | sbrk refuses exactly where the private-memory machine does |
| Umalloc.ModestRequestSafe | xv6-user/umalloc.c:54-69 | requests below two gigabytes less a header never wrap |
| Umalloc.HugeRequestWraps | xv6-user/umalloc.c:54-69 | malloc(0xFFFFFFFF) asks sbrk for sixteen bytes |
| Umalloc.Heap.FindPlace | xv6-user/umalloc.c:30-32 | the loop ends at the place of the block |
| Umalloc.Heap.Splice | xv6-user/umalloc.c:33-43 | the merges and links of free, exactly |
| Umalloc.Heap.Free | xv6-user/umalloc.c:24-44 | exactly the block leaves the held ones; all others keep their sizes |
| Umalloc.Heap.MoreCore | xv6-user/umalloc.c:46-61 | the units obtained, none exactly when sbrk refuses, overrun exactly when the byte count wraps |
| Umalloc.Heap.FirstFit | xv6-user/umalloc.c:74-89 | the tail of the first block behind freep that fits, freep then before it; none exactly when no listed block has the units |
| Umalloc.Heap.Scan | xv6-user/umalloc.c:74-86 | once round the list from behind freep: the first block that fits, none exactly when none does |
| Umalloc.Heap.Malloc | xv6-user/umalloc.c:63-90 | the tail of the first block that fits, or of the new core when none does, of the bytes asked for and less than a unit more, disjoint from all held ones; Null exactly when no listed block fits and sbrk refuses, Wild exactly on the wrap |
| Umalloc.Heap.Perform | xv6-user/umalloc.c:24-90 | one call: its answer and the heap after it, unless it is a request that wraps, exactly |
| Umalloc.Heap.Run | xv6-user/umalloc.c:24-90 | every run of malloc, free and growth: each answer, address and heap exactly as the call says, blocks disjoint, the list in order and all units accounted for at every point, up to exactly the first request that wraps |
| FatFile.SectorUnique | kernel/fat32.c:322-325 | clusters and sectors of the data area do not overlap |
| FatFile.SectorWritten | kernel/fat32.c:461-475 | one sector of rw_clus writes its bytes and no others |
| FatFile.FileWritten | kernel/fat32.c:580-592 | writing within one cluster changes exactly those bytes of the file |
| FatFile.ChainExtended | kernel/fat32.c:504-508 | a free cluster hung on the end extends the chain |
| FatFile.ExtendedTwice | kernel/fat32.c:499-518 | repeated extension adds only clusters that were free |
| FatFile.OthersUntouched | kernel/fat32.c:567-607 | after a write every other chain is a chain with the same bytes |
| FatFile.OthersKeepChains | kernel/fat32.c:1165-1176 | after truncating a file every other chain is in place |
| FatFile.SupplyKept | kernel/fat32.c:420-444 | clusters move one for one from the free ones to the chain |
| FatFile.SplicedContent | kernel/fat32.c:580-598 | what the loop of ewrite leaves is the old content with the bytes laid over it |
| FatFile.Volume.ZeroClus | kernel/fat32.c:407-418 | the cluster is zero and no other byte changed |
| FatFile.Volume.AllocClus | kernel/fat32.c:420-444 | the lowest zero cell, a data cluster exactly when one is free |
| FatFile.Volume.ReadCell | kernel/fat32.c:350-381 | the cell of the table, or zero exactly where it is claimed; what the cache then remembers |
| FatFile.Volume.WriteCell | kernel/fat32.c:386-405 | the cell of the table changes; what the cache then remembers |
| FatFile.Volume.WriteClus | kernel/fat32.c:451-487 | exactly the given bytes of the cluster change |
| FatFile.Volume.ReadClus | kernel/fat32.c:451-487 | exactly the given bytes of the cluster |
| FatFile.Volume.AppendClus | kernel/fat32.c:504-508 | the chain grows by the lowest free cluster; table and cache exactly |
| FatFile.Volume.Advance | kernel/fat32.c:501-517 | one turn of the loop: the next cluster of the way, the end of it, or cluster 0 exactly at a stale end |
| FatFile.Volume.Forward | kernel/fat32.c:499-518 | forward to the cluster along its way, appending if asked; full exactly at the end of the way, cluster 0 exactly past a stale end |
| FatFile.Volume.Rewind | kernel/fat32.c:519-532 | from the start to the cluster, never meeting the panic, whatever is stale |
| FatFile.Volume.RelocClus | kernel/fat32.c:496-534 | from any position the cursor ends at the cluster of the offset, parked at the start, without room, or at cluster 0 past a stale end |
| FatFile.Volume.ERead | kernel/fat32.c:538-564 | exactly the requested slice of the content, clipped to the size, whatever is stale; the cursor and what the cache then remembers |
| FatFile.Volume.ReadChunk | kernel/fat32.c:549-562 | one turn of the loop of eread: the bytes of the content up to the end of the cluster |
| FatFile.Volume.EWrite | kernel/fat32.c:567-607 | the content becomes the overlay along the planned chain; refused, without room, or lost at cluster 0 exactly when; in the last two cases exactly the bytes that the chain has room for are written; nothing outside the chain changes |
| FatFile.Volume.WriteChunks | kernel/fat32.c:579-592 | the chunk loop: complete, full, or derailed exactly as its walk is, the bytes before the stop in place |
| FatFile.Volume.ETrunc | kernel/fat32.c:1165-1176 | exactly the cells of the chain become free, whatever is stale; what the cache then remembers |
| FatFile.WayCovers | kernel/fat32.c:420-444 | a walk has clusters enough exactly when free clusters and chain together do |
| FatDisk.ClustersInOrder | kernel/fat32.c:322-325 | cluster 2 begins with the data area and each cluster right behind the one before |
| FatDisk.ByteOnDisk | kernel/fat32.c:322-325 | where on the raw disk each byte of a file lies |
| FatDisk.ConsecutiveOnDisk | kernel/fat32.c:322-325 | a file on consecutive clusters is one stretch of the raw disk |
| FatDisk.ReadStretch | kernel/fat32.c:538-564 | reading such a file gives that stretch |
| FatDisk.WriteStretch | kernel/fat32.c:567-607 | writing to such a file puts the bytes there |
| FatWalk.GrownZeros | kernel/fat32.c:420-434 | hanging clusters on takes exactly them from the free ones |
| FatWalk.NextPlanned | kernel/fat32.c:420-444 | the lowest free cluster is the next one of the planned chain, which ends where none is free |
| FatWalk.WalkRecent | kernel/fat32.c:501-508 | the cached sectors along a walk are those of its reads alone |
| FatWalk.ClaimLasts | kernel/fat32.c:366-380 | within the chain a claim lasts exactly as long as its sector stays cached |
| FatWalk.StaleExactly | kernel/fat32.c:501-508 | an end of chain is stale exactly by the claims and cached sectors before the walk: the old end while its sector stays cached, a new one in a cached sector other than its predecessor's |
| FatFiles.DoRead | kernel/fat32.c:538-564 | a read returns the slice of that file and changes no byte of any; cursor and cache exactly |
| FatFiles.DoWrite | kernel/fat32.c:567-607 | a write overlays that file and leaves every other as it was; refused, without room, or astray exactly when |
| FatFiles.DoTrunc | kernel/fat32.c:1165-1176 | truncation empties that file and leaves every other as it was; table and cache exactly |
| FatFiles.Run | kernel/fat32.c:538-607 | every run on files that share no cluster acts on independent byte sequences, up to the first write that lacks room or goes astray, as table, chains and cache decide |
| FatFiles.Undisturbed | kernel/fat32.c:538-607 | through every run a file that is only read keeps its bytes and clusters |
| FatFiles.AstrayExactly | kernel/fat32.c:501-517 | a write goes astray exactly when it has to pass an end of chain that is stale by the claims and cached sectors before it |
| FatFiles.ClusterZeroOutside | kernel/fat32.c:322-325 | cluster 0 lies in front of every sector of the data area |
| FatFiles.LongFirstWrite | kernel/fat32.c:575-592 | a first write of more than a cluster ends at cluster 0 whenever the FAT sector of the lowest free cluster is cached |
| FatFiles.WriteGoesAstray | kernel/fat32.c:575-592 | such a volume and write |
| FatCache.Removed | kernel/fat32.c:137-152 | unlinking an entry leaves the list of the others, head and tail included |
| FatCache.Added | kernel/fat32.c:155-168 | linking an entry in front gives the list with it first |
| FatCache.ListLength | kernel/fat32.c:199-211 | the list is full exactly when no entry is free |
| FatCache.MostRecent | kernel/fat32.c:171-215 | the reference cache holds exactly the thirty-two sectors used last, in order of last use |
| FatCache.CellAddress | kernel/fat32.c:332-344 | cells lie four bytes apart from the first sector of the table on |
| FatCache.HitCoherent | kernel/fat32.c:366-370 | a hit only reorders |
| FatCache.MissCoherent | kernel/fat32.c:372-380 | a miss loads what the disk has and forgets claims on the evicted sector |
| FatCache.WriteCoherent | kernel/fat32.c:396-402 | writing through refreshes the whole cached sector |
| FatCache.ClaimCoherent | kernel/fat32.c:428-434 | claiming a cell behind the cache leaves exactly that cell stale, as zero |
| FatCache.Fat.constructor | kernel/fat32.c:118-134 | an empty cache |
| FatCache.Fat.RemoveFromList | kernel/fat32.c:137-152 | exactly the entry leaves the list |
| FatCache.Fat.AddToHead | kernel/fat32.c:155-168 | the entry becomes the first of the list |
| FatCache.Fat.Lookup | kernel/fat32.c:171-192 | found exactly when cached, and then moved to the front |
| FatCache.Fat.Add | kernel/fat32.c:194-224 | the reference use of a new line, the oldest evicted when full |
| FatCache.Fat.Evict | kernel/fat32.c:207-221 | the last entry is reused for the new sector |
| FatCache.Fat.Update | kernel/fat32.c:227-247 | the reference use of a cached line, nothing otherwise |
| FatCache.Fat.ReadFat | kernel/fat32.c:350-381 | the disk's cell, or zero exactly for a cell claimed since its sector was loaded or written through; the sector is cached afterwards, the last used |
| FatCache.Fat.WriteFat | kernel/fat32.c:386-405 | the disk's cell changes, and the cached sector with it; what is remembered |
| FatCache.Fat.AllocClus | kernel/fat32.c:420-444 | the first zero cell of the disk is claimed; it goes stale exactly when its sector is cached |
| FatCache.Fat.AllocThenRead | kernel/fat32.c:420-444 | the claimed cell reads as the end of a chain exactly when its sector was not cached |
| FatCache.Fat.ReadAllocRead | kernel/fat32.c:350-434 | a cell read while free and then claimed is read as free again |
| FatCache.Fat.Run | kernel/fat32.c:350-444 | every run leaves the disk of the uncached table; answers differ only as stale zeros, and not at all without alloc_clus |
| LongName.EntriesBound | kernel/fat32.c:804 | a legal name needs between one and twenty entries, the last not empty |
| LongName.ShortExample | kernel/fat32.c:922-959 | the one entry of a name of two letters |
| LongName.MakeUnits | kernel/fat32.c:928-955 | thirteen characters of the name, then a NUL, then padding |
| LongName.Emake | kernel/fat32.c:922-959 | the entries of the name in reverse, the first marked as last |
| LongName.Dirent.Snstr | kernel/string.c:116-123 | characters up to the first NUL, the NUL kept or left, nothing outside |
| LongName.Dirent.ReadEntryName | kernel/fat32.c:1254-1265 | the three pieces of an entry, read in place |
| LongName.Dirent.ReadNext | kernel/fat32.c:1356-1365 | one entry more of the name is in the buffer |
| LongName.Dirent.ReadShortName | kernel/fat32.c:1266-1287 | base, dot and extension without the padding, up to a NUL |
| LongName.ShortWhole | kernel/fat32.c:1266-1287 | a short name without NUL is read whole |
| LongName.ShortNameExample | kernel/fat32.c:1266-1287 | a short name with padding and an extension |
| LongName.AllDeleted | kernel/fat32.c:1346-1350 | entries that begin with 0xE5 are passed over |
| LongName.Dirent.ReadEntryInfo | kernel/fat32.c:1295-1311 | all the fields behind the name, up to clus_cnt, whatever the name left there |
| LongName.InfoBack | kernel/fat32.c:1295-1311 | the fields laid out behind filename are read back as they were |
| LongName.Dirent.Enext | kernel/fat32.c:1324-1378 | on any directory: every stored name comes back with its entry count, and every entry found with all its own fields; faults exactly as the entries say, never on a well-formed directory; the other outcomes |
| LongName.WellformedSafe | kernel/fat32.c:1356-1365 | on a well-formed directory enext never writes outside the fields it sets or through the null pointer |
| LongName.WrittenStored | kernel/fat32.c:922-973 | what emake writes is well formed and holds the name |
| LongName.RoundTrip | kernel/fat32.c:922-1375 | writing a name and reading it back gives the name, its entry count and all the fields of its entry, for every legal name |
| LongName.PastFilename | kernel/fat32.c:1364 | names of 248 bytes and more reach past filename when read |
| Pipe.CounterTests | kernel/pipe.c:76-110 | the tests on wrapped counters mean full and empty |
| Pipe.RingStored | kernel/pipe.c:87 | storing a byte appends it to what waits in the ring |
| Pipe.RingTaken | kernel/pipe.c:112 | taking a byte takes the oldest |
| Pipe.PipeBuffer.Store | kernel/pipe.c:75-88 | as many bytes as there is room for, in order, stopping only at a full pipe |
| Pipe.PipeBuffer.Fetch | kernel/pipe.c:109-116 | the oldest bytes, as many as asked for and waiting |
| Pipe.RingKept | kernel/pipe.c:67-120 | no step of any process disturbs the ring |
| Pipe.StepKeeps | kernel/proc.c:792-838 | every step keeps mutual exclusion and leaves no sleeper without a waker |
| Pipe.StepSwept | kernel/proc.c:826-838 | a wakeup of the readers leaves none behind where it has been |
| Pipe.RunInv | kernel/pipe.c:49-120 | so does every run |
| Pipe.NoLostWakeup | kernel/proc.c:792-838 | whenever the lock is free a sleeping writer faces a full open pipe and a sleeping reader an empty open one, unless bytes were left unannounced since the last wakeup of the readers |
| Pipe.Fifo | kernel/pipe.c:67-120 | bytes come out in the order they went in, at most PIPESIZE waiting, through counter wrap-around |
| Pipe.LostExactly | kernel/pipe.c:77-80 | bytes are left unannounced exactly by a killed writer at a full pipe it has been filling, while a reader waits |
| Pipe.WakeupMakesUp | kernel/proc.c:826-838 | when a wakeup of the readers has gone through the table no reader waits and nothing is unannounced |
| Pipe.StrandedExactly | kernel/pipe.c:77-80 | a step strands a reader over bytes exactly when it is that return while a reader is asleep |
| Pipe.KilledWriterStrandsReader | kernel/pipe.c:77-80 | a run that ends with a reader asleep over a full pipe |
| PipeCalls.WriterStep | kernel/pipe.c:75-88 | a step of a writer moves one byte from what it has to do into the pipe or none, and ends the call only for the reasons of the source |
| PipeCalls.ReaderStep | kernel/pipe.c:102-116 | a step of a reader takes one byte or none, and ends the call only for the reasons of the source |
| PipeCalls.OthersStep | kernel/pipe.c:68-120 | a step of one process can only wake another |
| PipeCalls.EveryCall | kernel/pipe.c:68-120 | in every run the bytes a write was given are those it stored, in order, and those it still has to; a read takes no more than it asked for |
| PipeCalls.WriteReturns | kernel/pipe.c:68-92 | a write returns with all its bytes stored, after a failed copy, or from a full pipe when closed or killed |
| PipeCalls.ReadReturns | kernel/pipe.c:95-120 | a read returns with all it asked for, with the pipe empty, after a failed copy, or killed |
| VirtioDisk.FirstFree | kernel/virtio_disk.c:123-133 | the lowest free descriptor, none exactly when there is none |
| VirtioDisk.Alloc3 | kernel/virtio_disk.c:161-173 | three different free descriptors |
| VirtioDisk.FreeChainOfThree | kernel/virtio_disk.c:149-159 | freeing a chain frees exactly its three descriptors without a panic |
| VirtioDisk.Descriptors.AllocDesc | kernel/virtio_disk.c:123-133 | the loop takes the lowest free descriptor |
| VirtioDisk.Descriptors.FreeDesc | kernel/virtio_disk.c:136-146 | one descriptor becomes free, the panic exactly when it was free or out of range |
| VirtioDisk.Descriptors.Alloc3Desc | kernel/virtio_disk.c:161-173 | three descriptors, or all given back |
| VirtioDisk.Descriptors.FreeChainFrom | kernel/virtio_disk.c:149-159 | the loop frees the chain, terminating on any descriptor table, with the panic on the way if there is one |
| VirtioDisk.NoThree | kernel/virtio_disk.c:187-193 | three requests cannot be in flight |
| VirtioDisk.FewOutstanding | kernel/virtio_disk.c:241-263 | at most two requests are untaken and at most two completions unhandled |
| VirtioDisk.InterruptExact | kernel/virtio_disk.c:263-270 | the modulo test is exact and what the handler reads is a request in flight |
| VirtioDisk.ReturnSafe | kernel/virtio_disk.c:248-253 | a caller goes on exactly when its own completion was handled, and freeing cannot panic |
| VirtioDisk.StepKeeps | kernel/virtio_disk.c:175-277 | every step of driver and device keeps the partition of descriptors, the tickets and the rings |
| VirtioDisk.RunInv | kernel/virtio_disk.c:175-277 | so does every run |
| VirtioDisk.EveryRun | kernel/virtio_disk.c:175-277 | in every run each request is completed once and the handler's test is exact |
| VirtioDisk.ResumesAfterOwnCompletion | kernel/virtio_disk.c:248-256 | no caller returns before its own request was completed |
| VirtioDisk.CompletesTheRightRequest | kernel/virtio_disk.c:263-273 | the handler clears the flag of the completed request and of no other |
| ShellGrammar.ParseLine | xv6-user/sh.c:488-503 | terminates on every text, with parsepipe, parseexec and parseblock, moving forward |
| ShellSyntax.TokenMeans | xv6-user/sh.c:409-452 | the token at a place: white space, the longest word, >> before >, the symbols |
| ShellSyntax.LineDerived | xv6-user/sh.c:488-592 | whatever parses is a text of the grammar with that command |
| ShellSyntax.ArgsRead | xv6-user/sh.c:574-588 | words and redirections in any order: every one of the text is in the command, in order |
| ShellSyntax.LineParsed | xv6-user/sh.c:488-592 | every text of the grammar is parsed, to its command |
| ShellSyntax.ItemsTaken | xv6-user/sh.c:574-588 | words and redirections in any order are so many turns of the loops |
| ShellSyntax.ParsesExactly | xv6-user/sh.c:471-592 | the parser gives a command exactly for the texts of the grammar, and the command of the text |
| ShellRoundTrip.WordAt | xv6-user/sh.c:439-450 | a printed word is one token with its own span |
| ShellRoundTrip.RedirectStep | xv6-user/sh.c:524-538 | a printed redirection is one turn of the loop |
| ShellRoundTrip.WordsStep | xv6-user/sh.c:575-586 | printed words are so many turns of the argument loop |
| ShellRoundTrip.ExecLevel | xv6-user/sh.c:559-590 | a printed command is what parseexec has in hand when the text goes on |
| ShellRoundTrip.PipeLevel | xv6-user/sh.c:505-516 | a printed pipeline parses to itself |
| ShellRoundTrip.BackLevel | xv6-user/sh.c:493-497 | so does a background job, whatever &s follow |
| ShellRoundTrip.LineLevel | xv6-user/sh.c:488-503 | so does a list |
| ShellRoundTrip.RoundTrip | xv6-user/sh.c:471-486 | parsing the printed form of any command with well-formed words and at most nine arguments gives the command back |
| ShellParser.LineTokens | xv6-user/sh.c:471-590 | whatever the text, every word of a parsed command is a whole word of the text |
| ShellParser.EndsOutside | xv6-user/sh.c:607-617 | no NUL is written inside a word |
| ShellParser.CommandReads | xv6-user/sh.c:592-637 | after the NULs each word reads back, as a C string, as its token |
| ShellParser.Parser.GetToken | xv6-user/sh.c:409-452 | the loops compute the token and leave the cursor behind it |
| ShellParser.Parser.Peek | xv6-user/sh.c:454-464 | the next character is one of the set, the cursor on it |
| ShellParser.Parser.ParseRedirs | xv6-user/sh.c:518-541 | the loop computes the redirections |
| ShellParser.Parser.ParseArgs | xv6-user/sh.c:570-589 | the loop computes the arguments and redirections, with its panics |
| ShellParser.Parser.ParseBlock | xv6-user/sh.c:543-557 | a parenthesised line and its redirections |
| ShellParser.Parser.ParsePipe | xv6-user/sh.c:505-516 | a pipeline |
| ShellParser.Parser.ParseBacks | xv6-user/sh.c:494-497 | the loop over & |
| ShellParser.Parser.ParseLine | xv6-user/sh.c:488-503 | a line |
| ShellParser.Parser.NulTerminate | xv6-user/sh.c:592-637 | a NUL behind every word of the command and nowhere else |
| ShellParser.Parser.ParseCmd | xv6-user/sh.c:471-486 | a command exactly when the text is one of the grammar, and that one; its words read in the buffer as they stood in the text; a printed command comes back |
| Grep.HereOne | xv6-user/grep.c:91-92 | a single character consumes one character of the language |
| Grep.HereStar | xv6-user/grep.c:87-102 | a star takes some number of accepted characters |
| Grep.HereEnd | xv6-user/grep.c:89-90 | a last $ matches only at the end |
| Grep.MatchHere | xv6-user/grep.c:83-94 | exactly when some prefix of the text is in the language of the items |
| Grep.MatchStar | xv6-user/grep.c:97-104 | exactly when some number of repetitions does |
| Grep.Match | xv6-user/grep.c:70-80 | exactly when some substring, anchored as the pattern says, is in its language |
| Grep.FindNewline | xv6-user/grep.c:21 | the first newline that no NUL hides |
| Grep.EmitLines | xv6-user/grep.c:20-28 | the complete matching lines are written, the rest is kept |
| Grep.Grep | xv6-user/grep.c:10-34 | whatever sizes the reads come in, exactly the selected lines are written |
| Grep.SelectedIsFiltered | xv6-user/grep.c:10-34 | these are the matching lines of the input exactly when none lies behind a line that is too long or holds a NUL |
| Grep.LongLineStops | xv6-user/grep.c:17 | a line that fills the buffer ends the search |
| Vma.ClashIsOverlap | kernel/vma.c:121-127 | without wrapping the test is overlap of the ranges |
| Vma.RoundDown | kernel/include/riscv.h:340-341 | the page boundary at or right below an address |
| Vma.RoundUp | kernel/include/riscv.h:340-341 | whole pages that hold the bytes and less than a page more |
| Vma.InsideIsWithin | kernel/vma.c:165-186 | without wrapping, vma_remove takes the areas that lie all in the range |
| Vma.CoveredIsWithin | kernel/sysproc.c:440-476 | without wrapping, sys_munmap takes the area if all of it is in the range |
| Vma.FirstMap | kernel/vma.c:228-260 | on an empty table a page goes to 0x7FFFF000 |
| Vma.PlacedDisjoint | kernel/vma.c:118-140 | an area that passes the test keeps the areas disjoint |
| Vma.BelowTheClash | kernel/vma.c:240-248 | every place at or below a clashing candidate is below the area in the way |
| Vma.Lowered | kernel/vma.c:233-250 | one step of the search loses no place, and goes below zero only when there is none |
| Vma.LastBeginNext | kernel/vma.c:240-248 | one step of the search keeps where it ends |
| Vma.FoundClear | kernel/vma.c:195-261 | any range found passes the overlap test of vma_insert |
| Vma.SearchWraps | kernel/vma.c:244 | a table in which the search has to wrap, and sys_mmap escapes |
| Vma.HintWraps | kernel/vma.c:221 | a hint that wraps is taken, and taken again, and sys_mmap escapes |
| Vma.HintInside | kernel/vma.c:205-226 | a hint that is taken lies in user space exactly when its end does not wrap |
| Vma.Manager.constructor | kernel/vma.c:23-30 | an empty table |
| Vma.Manager.Lookup | kernel/vma.c:75-90 | the one area that holds the address, none exactly when there is none |
| Vma.Manager.Insert | kernel/vma.c:102-157 | refused exactly for no length, a clash or a full table; the table stays good exactly when the area does not wrap |
| Vma.Manager.Remove | kernel/vma.c:165-186 | exactly the areas inside the range go, and are counted |
| Vma.Manager.CopyFrom | kernel/vma.c:266-290 | the same areas in the same slots, the other slots unused, and the same count |
| Vma.Manager.FindFreeRange | kernel/vma.c:195-261 | the hint if it serves, else the highest place if there is one, else the wrapped address below the last area met exactly when that begins below the length |
| Vma.Manager.Descend | kernel/vma.c:228-260 | the downward search: terminating, optimal, and without a place wrapping exactly when it ends at an area that begins below the length, to the address said |
| Vma.Manager.Mmap | kernel/sysproc.c:375-430 | refused exactly for the length, a full table, a fixed address that is out of range or taken, or no place; otherwise where it maps, an area of all the bytes asked for and less than a page more; the table stays good exactly when the address does not wrap, a condition on the table before |
| Vma.Manager.Munmap | kernel/sysproc.c:440-476 | the area that holds the address goes, alone, if the range covers it |
| Vma.Perform | kernel/sysproc.c:375-476 | one call by one process: its answer, its table after it, and the other tables as before |
| Vma.Run | kernel/vma.c:102-290 | any run of maps, unmaps and copies among any number of tables: every answer and table as the call says, areas disjoint and counts right, up to exactly the first map that wraps |
| Mlfq.ChargedAccounted | kernel/proc.c:744-756 | a tick keeps level and slice what the charged ticks say, the quantum over exactly at its last tick |
| Mlfq.Chosen | kernel/proc.c:630-636 | a dispatch gives the slice the charged ticks say, a new quantum exactly when the old one is over |
| Mlfq.UsedUpExactly | kernel/proc.c:744-756 | a slice in the lowest queue is over after exactly its ticks |
| Mlfq.ScanFound | kernel/proc.c:617-624 | the process found is in the best queue of those ready when the scan began, and none of them is before it in that queue |
| Mlfq.FirstStarvesOthers | kernel/proc.c:617-656 | with every process ready in the lowest queue the first is the best choice round after round, whatever is left of its quantum, and gets all the ticks |
| Mlfq.HogStep | kernel/proc.c:617-656 | a process in the lowest queue before all others is dispatched next and charged every tick, whatever is woken |
| Mlfq.HogStarvesOthers | kernel/proc.c:617-656 | over every run of dispatches, ticks and wakeups that process has all the ticks and the accounts of the others stand still |
| Mlfq.OthersSleepOn | kernel/proc.c:826-838 | a wakeup leaves those asleep on another channel |
| Mlfq.Cpu.Create | kernel/proc.c:128-177 | the first unused slot gets a process at level 0 with nothing charged, none exactly when there is none |
| Mlfq.Cpu.Wakeup | kernel/proc.c:826-838 | every sleeper on the channel, and nothing else |
| Mlfq.Cpu.Dispatch | kernel/proc.c:610-656 | a ready process with its residual slice, in a queue no worse and a slot no later than any that was ready when the scan began, whatever is woken during it |
| Mlfq.Cpu.HigherReady | kernel/proc.c:706-728 | exactly when a ready process is in a better queue |
| Mlfq.Cpu.Tick | kernel/trap.c:168-177 | the tick is charged; the process yields exactly when its quantum is over or a better queue is ready |
| Mlfq.Cpu.Sleep | kernel/proc.c:792-812 | the process sleeps on the channel with its account unchanged |
| Mlfq.Cpu.Exit | kernel/proc.c:533-536 | the process leaves the CPU with its account unchanged |
| Mlfq.Cpu.Free | kernel/proc.c:226-230 | the slot is new again |
| Mlfq.Cpu.Step | kernel/proc.c:602-764 | each event: what it does to the table and the current process |
| Mlfq.Cpu.Run | kernel/proc.c:602-764 | in every run each event acts as said, every dispatch being a best choice, and at every point a process's level follows from its charged ticks and one process runs at most |
| Mlfq.Cpu.PlayRounds | kernel/proc.c:617-656 | the scheduler and the timer by themselves play the rounds in which the first process starves the others |
| Calendar.YearLength | kernel/timer.c:51-60 | a year is 366 days exactly when it is a leap year, against the closed form of the calendar |
| Calendar.MonthLength | kernel/timer.c:48-54 | the table of days has the months of the calendar, given by a line from March on |
| Calendar.NextMonth | kernel/timer.c:116-134 | exchanging a month's days for the next month keeps the day |
| Calendar.DayUnique | kernel/timer.c:48-60 | a day has one valid date |
| Calendar.TimeUnique | kernel/timer.c:75-136 | a second has one valid time |
| Calendar.Int32Congruent | kernel/timer.c:189 | cutting to an int takes off a multiple of two to the 32 |
| Calendar.CarryClock | kernel/timer.c:94-111 | the loops over seconds, minutes and hours keep the second and bound the fields |
| Calendar.CarryCalendar | kernel/timer.c:113-135 | the loop over months and years terminates, keeps the second and bounds the day |
| Calendar.Clock.GetTime | kernel/timer.c:74-136 | the second of the start plus the time elapsed; a valid date exactly when the sum is not a negative int |
| Calendar.Clock.SetTime | kernel/timer.c:166-192 | accepted exactly as the checks say, the start moved back by the time elapsed |
| Calendar.Clock.SetThenGet | kernel/timer.c:74-192 | k seconds after setting, the date k seconds after the one set, exactly while the seconds fit an int |
| Calendar.FebruaryOverflows | kernel/timer.c:176-178 | the 31st of February is taken and shows in March |

## Left out

- Concurrency inside the memory system: locks are atomic and the TLB is always current; memory-model fences are not modelled.
- CowKernel.Kernel.Walk: which nodes a table has is a set; the tree in memory is the subject of Sv39.
- CowKernel.Kernel.Fork: stops at the undercounting failure of uvmcopy; what freeproc then does to the broken state is not followed. The child's size is set before the copy, not after it.
- CowKernel.Kernel.NewProc: allocproc's pages are counted, not laid out in their tables.
- CowKernel.Kernel.FreeProc: exit and wait are one step; between them a process keeps its memory and its slot.
- CowKernel.Kernel.PageFault: the mmap branch of the fault arm is not part of this model, nor are exec's pages without write permission and its guard page, except for `CowStates.GuardPageOpened`.
- The links stored inside free pages and the permission bits of kernel page-table entries.
- CowKernel.Kernel.Sbrk: the old size it returns is not part of its answer.
- copyinstr, uvmalloc, growproc and the other ways to move bytes or pages that repeat these.
- Umalloc.Heap.Malloc: what the heap looks like after a wild block is handed out is not followed.
- FatFile.Volume.EWrite: user buffers are accessible and timestamps are not kept; a write is followed up to the panic of a full disk or the cursor at cluster 0.
- FatFile.Volume.RelocClus: chains end in cells below 0x80000000, since the source compares them as signed numbers, and the two reserved cells are in use.
- FatCache.Fat.Lookup: lookup and add run without another caller between them; two callers that miss at once can cache a sector twice.
- FatCache.Fat.AllocClus: the data sectors it zeroes are the subject of FatFile.
- LongName.Dirent.Enext: what the kernel does after a fault is not followed, nor how far beyond the entry it writes; entries are values, their clusters are the subject of FatFile. Short-name generation, checksums and the duplicate check of emake are not modelled.
- Pipe.StepKeeps: the calls of pipe.c and sleep/wakeup are steps on values, so that every interleaving is covered; only the buffer is also a class. A closed end has no caller inside it, as the file layer arranges, and freeing the pipe is not modelled.
- VirtioDisk.StepKeeps: driver code between lock operations is one step on values, and only the descriptor table is also a class; the status panic and the memory the descriptors point to are not modelled.
- ShellParser.Parser.ParseArgs: the exec node, which the source fills through an alias under its redirections, is built once it is complete; argv and eargv are a sequence of spans.
- The shell's execution of commands, its built-ins and environment variables.
- Grep.Grep: a failing read ends the input; the output is what would be written.
- Vma.Manager.FindFreeRange: for the lengths sys_mmap lets through, more than 0 and less than MAXUVA.
- Vma.Manager.CopyFrom: reference counts of mapped files are not kept.
- Vma.Manager.Mmap: the checks of flags and file descriptors, and what the kernel does with an area that has wrapped, are not part of this model.
- Mlfq.Cpu.Tick: ticks charged are unbounded, where the source counts in an int; one CPU, no signals.
- Mlfq.Cpu.Create: fork and the pages of a process are the subject of CowKernel.
- Calendar.Clock.GetTime: years are unbounded, where the source counts in an int.
- Drivers and board code, the buffer cache, the entry cache, path walking, exec, signals, shared memory, the sandbox, the console, and the small user programs: mostly input and output, with little state of their own to reason about.
