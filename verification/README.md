# SBUnix memory, loader, heap, file index and processes in Dafny

SBUnix is a small x86-64 kernel with a shell and a libc of its own. This project models
the parts of it that hold state and proves what they promise.

**Virtual memory** is the centre. Physical memory is a sequence of frames of 512 words.
A 64-bit word is kept as `Word(page, low)`, split at bit 12, because the kernel either
masks entries with `0xFFFFFFFFFFFFF000` or sets low bits. A pointer to a frame, and the
same pointer with `0xffffffff80000000` set in it, denote one frame; this is right below
2 GiB of memory. A ghost *role* for every frame says what it is used for: free, in the
kernel's hands, the page table at one place of one tree, a user page owned by one leaf,
or a user page shared copy-on-write. `TreeOk` types every table entry by the roles, and
`LeafOk` every user leaf; tree shape, disjointness of spaces and exclusiveness of
writable frames all follow locally from these two.

- `Integers.dfy` - C ints, and the bytes of a number.
- `FrameAllocator.dfy` - the array free list of sys/page.c.
- `Paging.dfy` - addresses, walks, roles, and what one write to a table does to all walks.
- `Mmu.dfy` - allocation of tables and `map_v_p` / `map_v_p2` on the machine's memory.
- `Fork.dfy` - the four nested loops of fork.
- `Tables.dfy` - every user table has a page below it, so tables are counted by pages.
- `Spaces.dfy` - the user's view of spaces, the machine whose fork copies eagerly, and the
  refinement lemmas.
- `Kernel.dfy` - kmalloc, setUserSpace, the copy-on-write fault, fork's address space.
- `Runs.dfy` - loads, stores and whole runs; `Runs.Execute` is the main theorem.
- `Boot.dfy` - kernmemMap and phy2vir, from the memory map to the first sound state.
- `Heap.dfy` - the fault handler, the demand-paged heap, and what fork does to regions.
- `Elf.dfy` - the program loader on the same machine, and bytes in the words of frames.
- `Malloc.dfy` - the libc heap, records and blocks in the same bytes, over the demand-paged
  heap as `Heap.Access` shows it to be.

The other files need `Integers.dfy` at most: `Tarfs.dfy` (ustar index), `Processes.dfy` (the
process list and the shell's protocol), `LineReader.dfy` (the boot loader's chunked line
reader) and `Numbers.dfy` (number printing and parsing).

## What holds, and what does not

- For every run of forks, loads, stores, fresh pages, new spaces and kernel allocations,
  with the processor setting accessed and dirty bits at will, user programs observe what
  they would if fork copied all memory at once (`Runs.Execute`), and at its end spaces are
  isolated.
- Frames on the free list must read as zero: `allocatePage` does not clear what it hands
  out, and neither setUserSpace nor fork clears a new root. Nothing gives frames back, so
  it is enough that this holds at start-up.
- Every operation, the program loader included, has an exact cost in frames, which the
  machine with eager fork can tell (`Runs.Cost`, `Elf.LoadCost`), because a user table is
  there if and only if a page is mapped below it. An operation succeeds if and only if more
  frames than its cost are free, the last page being out of reach; a run from power-on comes
  to its end if and only if the pages free at start outnumber what start-up and the run
  cost (`Boot.StartAndRun`). What a run has shown before it runs out is right.
- The kernel stores into user pages without regard to the write bit (its code sets CR0.WP
  nowhere), and such a store to a copy-on-write page reaches all who share the frame. It is
  right if and only if no other page lies on the frame or the word does not change
  (`Spaces.KernelStoreRefinesIff`); `Runs.ReadAfterFork` is a run where it is wrong. Runs
  may hold kernel stores into pages that their process has mapped or written since it was
  last part of a fork (`Spaces.SafeRun`).
- `allocatePage` cannot tell page 0 from failure. When the memory region begins in page 0,
  page 0 is handed out first, as address 0 (`FrameAllocator.PageZeroRun`); the callers do
  not test the address, and start-up goes on.
- Giving back a free page that is not the first destroys the free list; `SetPage` states
  the exact condition.
- After fork, parent and child share all region records but the first
  (`Heap.CopyRegions`). The heap's end is one of the shared fields, and a page can be
  lost through it: `Heap.SharedEndRun` is such a run, `Heap.FaultReplacesIff` the exact
  condition for one fault.
- loadElf into a cleared memory record follows a null pointer on a file without a loadable
  segment (`Elf.LoadElf`, outcome `Crashed`).
- The stack-growth branch of the fault handler is never taken (`Heap.StackBranchDead`).
- malloc takes the first fitting freed block, although its variable is called `min`
  (`Malloc.FirstNotSmallest`), and never reuses the tail of its list.
- malloc stops the process when the record of a new block cannot be stored: it lies behind
  HEAP_END in a page that is not mapped, or outside the users' half. A size also goes
  through an int on its way to the kernel. `Malloc.Heap.Malloc` has the exact condition for
  each, `Malloc.RecordInHeap` the addresses at which a record can be stored; among those at
  or below HEAP_END four cannot, because the padding of the record lies over it.
  `Malloc.QuarterGigabyteStops` is a size that stops a fresh process.
- The archive index drops an entry whose directory has not been seen yet; no entry is
  dropped exactly when directories come first (`Tarfs.CompleteIffDirsFirst`).
- When all descriptors are taken, open fails, but has stored into the field of the
  process record behind the descriptor table (`Tarfs.Open`).
- exit's search for its predecessor ends exactly for a process on a cycle. A child that
  is waited for is off the list until it calls execve; if it exits before that, the
  search never ends (`Processes.WaitedChildCannotExit`).
- execve links the new program behind the process after `first` and overwrites that link.
  One command of the shell therefore strands every process but the shell, and the program
  while it runs (`Processes.Launch`, `Processes.BackgroundIsLost`).
- printd shows a negative number as a 20-digit unsigned one
  (`Numbers.PrintdShowsNumberIff`).

## Model

| member | source | states |
|---|---|---|
| FrameAllocator.ChainIsSorted | sys/page.c:26-64 | following the links from a free page meets exactly the free pages from there on, strictly ascending |
| FrameAllocator.ListIsFreeSet | sys/page.c:26-64 | the linked list, from its head, is the set of pages with nonzero entries in strictly ascending order |
| FrameAllocator.RemoveFirst | sys/page.c:29-31 | zeroing the head's entry and moving the head keeps the list and removes exactly the head from the set |
| FrameAllocator.InsertFront | sys/page.c:51-54 | a page below the head put in front keeps the list and adds exactly that page |
| FrameAllocator.InsertBehind | sys/page.c:60-62 | a used page linked in behind its predecessor keeps the list and adds exactly that page |
| FrameAllocator.InsertAt | sys/page.c:55-63 | the insertion keeps the list if and only if the page was in use |
| FrameAllocator.FreePagesAvoidKernel | sys/page.c:69-77 | a page in the ranges left free meets neither the kernel image nor the page array with its end mark |
| FrameAllocator.PageList.InitPage | sys/page.c:15-25 | every page from 0 to the last is free and the array is a free list |
| FrameAllocator.PageList.UnsetPage | sys/page.c:26-33 | removes the least free page, never the last page; fails exactly when only the last is left |
| FrameAllocator.PageList.ScanTo | sys/page.c:56-59 | the scan by array index ends in bounds at a free page whose link is the first at or beyond the index |
| FrameAllocator.PageList.SetPage | sys/page.c:50-64 | adds exactly the page; the list survives if and only if the page was in use or was the head |
| FrameAllocator.PageList.AllocatePage | sys/page.c:34-43 | takes the least free page; the address is 0 if and only if only the last page is left or page 0 was free, and in the second case page 0 is taken |
| FrameAllocator.PageList.Withdraw | sys/page.c:73-74 | exactly the pages below the bound leave the free set |
| FrameAllocator.PageList.Restore | sys/page.c:76-77 | exactly the pages of the range come back into the free set |
| FrameAllocator.PageList.InitPageTable | sys/page.c:65-80 | a page is free if and only if it lies from base up to the kernel image or behind the page array; free pages avoid both |
| FrameAllocator.PageZeroRun | sys/page.c:34-43 | a memory region that begins in page 0: the first address handed out is 0 although pages are left |
| Paging.IndicesDecompose | sys/mmu.c:12-14 | the four indices, the offset and the bits above bit 47 make up the address |
| Paging.SamePathSamePage | sys/mmu.c:12-14 | canonical addresses have equal indices if and only if they are in one page |
| Paging.DirectPathIsPathOf | sys/mmu.c:210-216 | the indices of 0xffffffff80000000 plus a frame's address, for frames below 2 GiB |
| Paging.WalkTyped | sys/mmu.c:281-299 | a walk from a root of a typed memory meets only tables of its own tree, each at its place |
| Paging.LinkKeepsWalks | sys/mmu.c:97-142 | linking an empty new table changes no translation of any space |
| Paging.LinkKeepsTree | sys/mmu.c:97-142 | linking keeps the trees typed |
| Paging.LinkMissing | sys/mmu.c:97-142 | one table less is missing on every way through the linked entry, and on no other |
| Paging.LinkedElsewhere | sys/mmu.c:97-142 | a table made for one space is on no way of a user page of another |
| Paging.MarkEffect | sys/page.c:98-101 | accessed and dirty bits set in any table entry change no frame number and no permission of any walk and keep the trees typed |
| Paging.MarkLeaf | sys/page.c:98-101 | a marked leaf is the old leaf with the bits added; no other walk changes |
| Paging.LeafWriteUpdates | sys/mmu.c:91-93 | a leaf write translates that page of that space anew and no other page; user pages of other spaces never |
| Paging.ShareRootEntry | sys/mmu.c:230-230 | a copied kernel root entry makes the new space translate that part like the old, and changes nothing else |
| Mmu.Machine.AllocFrame | sys/page.c:34-43 | a free frame passes into the kernel's hands, one less is free, nothing else changes; it fails if and only if one is left |
| Mmu.Machine.TableAlloc | sys/mmu.c:97-142 | one entry written, one free frame becomes the cleared table of that place; fails if and only if one frame is left |
| Mmu.Machine.Descend | sys/mmu.c:71-89 | the next table of the way, made if missing; no translation changes; the missing tables of all ways are counted exactly |
| Mmu.Machine.ReachLeaf | sys/mmu.c:71-89 | all three lower tables are there afterwards, no translation changes, and exactly the missing tables of the way are paid for |
| Mmu.Machine.MapPage | sys/mmu.c:24-95 | the page is translated to the word with the flags set, every other page of every space as before; trees stay typed; it works if and only if more frames are free than tables are missing |
| Mmu.Machine.MapVP2 | sys/mmu.c:56-95 | on canonical addresses map_v_p2 is a finite-map update, whichever tables had to be allocated |
| Mmu.Machine.Mark | sys/page.c:98-101 | the processor marks the entry of a walk at any level: only marks differ, and a leaf gets exactly the bits |
| Fork.CopyPt | sys/syscall.c:310-321 | both leaf tables hold the parent's pages with P, U and COW only; other frames stay |
| Fork.CopyPdEntry | sys/syscall.c:305-323 | one directory entry is copied with its subtree, the others keep their translations; one frame if it is present |
| Fork.CopyPd | sys/syscall.c:303-324 | all translations below a page directory are copied; it works if and only if more frames are free than it has page tables |
| Fork.CopyPdpEntry | sys/syscall.c:298-326 | one pointer-table entry is copied with its subtree, the others keep their translations; its tables are counted exactly |
| Fork.CopyPdp | sys/syscall.c:296-327 | all translations below a pointer table are copied; it works if and only if more frames are free than tables lie below it |
| Fork.CopyRootEntry | sys/syscall.c:291-329 | one root entry is copied with its subtree, the others keep their translations; its tables are counted exactly |
| Fork.CopyRoot | sys/syscall.c:289-330 | for all user pages parent and child translate alike, copy-on-write, and have the same tables; only the parent's leaf tables, the child's root and free frames change; one frame for each table of the parent, and success if and only if there are more |
| Tables.MissingForMore | sys/mmu.c:71-89 | one page more changes which tables the other pages still need exactly as mapping it does |
| Tables.TightMapped | sys/mmu.c:56-95 | after mapping a page every table of every space still has a page below it |
| Tables.TightForked | sys/syscall.c:289-330 | the same after a fork, for the child, too |
| Tables.TightSpawned | sys/mmu.c:225-232 | the same after a new space |
| Tables.EntriesPresent | sys/mmu.c:71-89 | an entry of a user table is present if and only if a page is mapped below it |
| Tables.TablesAreCounted | sys/syscall.c:289-330 | the number of tables fork copies, read off the mapped pages alone |
| Tables.TableCountMore | sys/syscall.c:289-330 | a page more adds the tables that were missing for it, so fork copies as many as mapping made |
| Spaces.WritableIsExclusive | sys/syscall.c:289-332 | a frame mapped writable by one user leaf is mapped by no other user leaf of any space |
| Spaces.TablesAreNotPages | sys/mmu.c:97-142 | no table of a user tree is a user page of any space |
| Spaces.TablesAreNotShared | sys/syscall.c:289-332 | no table belongs to the user trees of two spaces |
| Spaces.TypedIsIsolated | sys/syscall.c:289-332 | the three isolation properties together, for any list of spaces |
| Spaces.LeafDecides | sys/mmu.c:97-142 | all four levels grant what the leaf grants, and a mapped page is writable or copy-on-write |
| Spaces.StoreThenLoad | sys/syscall.c:289-332 | on the machine that copies at once a store is seen by loads of that word by that process, and by no others |
| Spaces.ForkThenLoad | sys/syscall.c:289-332 | on it a child loads what its parent does, and all others what they did |
| Spaces.MapThenLoad | sys/page.c:119-123 | on it a new page reads as zero, a new space has no page, and nothing else changes |
| Spaces.DataWrite | sys/page.c:100-100 | writing a frame that is no table changes no translation |
| Spaces.KernelStoreRefinesIff | sys/syscall.c:613-613 | a store that ignores the write bit is a store to one private memory if and only if no other page lies on the frame or the word was there before |
| Spaces.WritableIsSole | sys/page.c:97-102 | no other page of any process lies on the frame of a writable page |
| Spaces.WithoutKernelWrites | sys/syscall.c:613-613 | the condition on kernel stores holds of every run that has none |
| Spaces.RemapRefines | sys/page.c:97-102 | moving a page to a fresh frame changes one page of one private memory to the frame's content |
| Spaces.ForkKeepsLeaves | sys/syscall.c:310-321 | after fork every leaf of parent and child is copy-on-write on a shared page |
| Spaces.ForkRefines | sys/syscall.c:286-332 | sharing all pages looks like appending a copy of the parent's memory |
| Spaces.KernelOnlyRefines | sys/mmu.c:225-240 | kernel allocations and new spaces leave all private memories as they are; a new space is empty |
| Spaces.MarksRefine | sys/page.c:98-101 | accessed and dirty bits are invisible to programs |
| Spaces.OwnsAfterFork | sys/syscall.c:310-321 | the writable pages of every process after a fork: none of parent and child, the others as before |
| Spaces.OwnsOneMore | sys/page.c:97-102 | after a store or a new page exactly that page has become writable |
| Kernel.DirectRemap | sys/mmu.c:233-240 | mapping a frame once more at its own place keeps the kernel mapping in all spaces |
| Kernel.MapKernelFrame | sys/mmu.c:235-237 | a frame is mapped at its place without a new table, and no user page moves |
| Kernel.Kmalloc | sys/mmu.c:233-240 | one cleared frame, mapped at its place and marked accessed and dirty; the kernel mapping of all spaces and every root, entry 511 included, stay; user pages stay; fails if and only if one frame is left |
| Kernel.InstallPage | sys/mmu.c:56-95 | a kernel frame becomes the page owned by one leaf, marks carried over included; the invariants hold on; the missing tables are paid for exactly |
| Kernel.UserMapKeepsTight | sys/mmu.c:56-95 | map_v_p2 on a user page leaves no table without a page |
| Kernel.CowFault | sys/page.c:89-104 | the page becomes writable on a fresh frame with the old content, the only frame taken; no other page moves or changes; fails if and only if one frame is left |
| Kernel.MapFresh | sys/page.c:122-122 | an empty page at the given place; no other page moves or changes; one frame and the missing tables |
| Kernel.SetUserSpace | sys/mmu.c:225-232 | a new space with the kernel half and no user page; all else stays |
| Kernel.AllocRoot | sys/syscall.c:273-273 | the child's root is a free, zero frame |
| Kernel.CopyKernelHalf | sys/syscall.c:331-332 | root entries 510 and 511 of parent and child are equal, and the child translates that half like the parent |
| Kernel.ForkTables | sys/syscall.c:273-332 | child and parent both map the parent's old frames with P, U, COW and without W, unmapped pages stay unmapped; other spaces and all contents stay; one root and one frame for each table |
| Kernel.ForkKeepsTight | sys/syscall.c:273-332 | fork leaves no table without a page |
| Runs.UserLoad | sys/syscall.c:310-321 | a load gives what the process's private memory holds, or faults when nothing is mapped |
| Runs.Fetch | sys/mmu.c:281-299 | a load reads the frame of the leaf if all four entries grant it, which is when the leaf is present |
| Runs.MakeWritable | sys/page.c:89-105 | a mapped page can be written, after a fault if need be, and no private memory changes; one frame exactly when the page was shared |
| Runs.UserStore | sys/page.c:89-105 | a store changes one word of one private memory |
| Runs.StoreThrough | sys/syscall.c:613-613 | the store changes one word of one frame and no walk; it is private if and only if the mapping is the only one or the word was there |
| Runs.KernelStore | sys/syscall.c:613-613 | the same for a page that may be missing; the kernel sets CR0.WP nowhere, so no fault is taken |
| Runs.ReadAfterFork | sys/syscall.c:613-613 | after fork a kernel store into a page of the parent is seen by the child |
| Runs.EagerReadAfterFork | sys/syscall.c:613-613 | on the machine that copies at once the child sees the old word |
| Runs.KernelPages | sys/syscall.c:339-370 | n kernel allocations take exactly n frames, work if and only if more are free, and change no private memory and no table of a space |
| Runs.ForkSyscall | sys/syscall.c:258-375 | fork appends a copy of the parent's private memory; all pages are shared and none is writable; the frames it takes, exactly, from the parent's pages |
| Runs.ForkSpace | sys/syscall.c:273-332 | the address space part: a copy of the private memory on the same frames |
| Runs.NewPage | sys/page.c:119-123 | a fresh page is a zero page in one private memory, and can be written; its cost follows from the pages already mapped |
| Runs.SpawnSpace | sys/mmu.c:225-232 | a new space is an empty private memory |
| Runs.MarkEntry | sys/page.c:98-101 | a marked entry changes no private memory |
| Runs.Step | sys/syscall.c:258-375 | every operation shows and does what the eager machine shows and does; it works if and only if more frames are free than it costs on that machine, and takes exactly its cost |
| Runs.CostSeen | sys/mmu.c:71-89 | tables missing for a page and tables copied by fork, from the private memory alone |
| Runs.StoreCostSeen | sys/page.c:89-105 | a store costs a frame if and only if its page is mapped and not written or mapped since the last fork |
| Runs.ForkRunCost | sys/syscall.c:258-375 | a run with a fork and three stores costs 15 frames; who is left alone on a page still pays for a copy |
| Runs.Execute | sys/syscall.c:289-332 | copy-on-write refines eager copying over every run, and spaces end isolated; a run comes to its end if and only if more frames are free than the sum of its costs, and shows a prefix otherwise |
| Boot.FirstTables | sys/mmu.c:149-161 | a root with the three tables of the kernel's first page and no user page; exactly four frames |
| Boot.MapImagePage | sys/mmu.c:163-174 | one image page more in the early table, no table made |
| Boot.ImageMapped | sys/mmu.c:163-174 | when the loop has ended no page of the image that the table has room for is left out |
| Boot.KernmemMap | sys/mmu.c:144-175 | every page of the image, or of its last 512 pages, is found in the one early table, at its index modulo 512 |
| Boot.MapDirect | sys/mmu.c:214-214 | one more frame at its place, the others stay; the tables made are counted exactly |
| Boot.Phy2Vir | sys/mmu.c:208-224 | every frame up to the limit is mapped at 0xffffffff80000000 plus its address, and the state is sound; the number of tables made, exactly |
| Boot.StepTables | sys/mmu.c:210-216 | which tables of the kernel half are there after n frames, for every place |
| Boot.TablesForNext | sys/mmu.c:210-216 | the number of tables for n frames in closed form agrees with the loop |
| Boot.BootIsSound | sys/mmu.c:208-224 | a complete kernel mapping and an empty user half satisfy the invariants |
| Boot.StartPages | sys/page.c:65-80 | the number of pages free at start, and where they lie |
| Boot.Start | sys/main.c:47-51 | from any memory map to a sound state with no processes, if and only if more frames are free than tables have to be made |
| Boot.StartAndRun | sys/main.c:47-51 | from power-on on, every run shows what the machine with eager fork shows, or a prefix; it comes to its end if and only if the free pages of the memory map outnumber what start-up and the run cost |
| Heap.StackBranchDead | sys/page.c:126-126 | the unsigned comparison of the stack branch never holds |
| Heap.HeapFault | sys/page.c:116-125 | maps one fresh page, at the region's end or at the fault's own page below it, and moves the end behind it; a mapped page is replaced if and only if the fault is at or beyond the end and the page there is mapped |
| Heap.FaultReplacesIff | sys/page.c:119-123 | between the states before and after a fault at an unmapped address no mapped page of any space is replaced, unless the fault lies at or beyond the end and the page there is mapped |
| Heap.GrownIsTidy | sys/page.c:119-123 | one growth of a tidy heap keeps it tidy and replaces no page of any space |
| Heap.TouchHeap | sys/page.c:112-125 | an access is resolved after exactly page(a) - page(end) + 1 faults, each adding one page, none replacing one |
| Heap.Access | sys/page.c:81-145 | an access is made, after faults, or stops the process, exactly as the rule for mapped pages and the heap range says; program pages stay |
| Heap.FindRegion | sys/page.c:112-136 | the loop stops at the first heap region that takes the address |
| Heap.HeapRange | sys/page.c:116-116 | a heap region takes the addresses 0x08000000 to 0x10000000, both included, and no other region takes any |
| Heap.PageFault | sys/page.c:81-145 | which fault is copied, which extends the heap, which halts, which returns; exactly, with the whole effect of each |
| Heap.CopyRegions | sys/syscall.c:342-365 | the child's list is one copied record followed by the parent's own second record |
| Heap.ForkHeap | sys/syscall.c:273-365 | after fork both heaps are mapped to the same end and both region lists lead to one heap record |
| Heap.LoseThirdPage | sys/page.c:119-123 | three faults on a shared record replace a mapped page |
| Heap.SharedEndRun | sys/syscall.c:346-363 | from one process with a tidy heap: fork, then three faults, and a mapped heap page of the child is replaced |
| Elf.ImageOfSegment | sys/elf64.c:26-75 | the last segment that covers a page decides its bytes |
| Elf.FileBytesReadBack | sys/elf64.c:26-75 | segments of type 1 that keep apart are fully mapped; with flags 5 or 6 their file bytes stand at their addresses; all else is zero |
| Elf.ProgramMaps | sys/elf64.c:40-111 | mapped are the pages from the first to the last address of each segment of type 1, the page at 0x22222000000 and the page at 0x08000000, no others; the last two are empty |
| Elf.RegionDescribes | sys/elf64.c:30-72 | start, end, flags, type, file part and bss of the region of a segment |
| Elf.RegionsInOrder | sys/elf64.c:26-112 | one region for each header of type 1, in order; the places of stack and heap |
| Elf.ByteIs | sys/elf64.c:55-55 | a byte of memory is a little-endian byte of its word |
| Elf.OnePageProgram | sys/elf64.c:26-111 | a program of one page takes 14 frames |
| Integers.DigitSet | sys/elf64.c:55-55 | a byte set in a word is read back, and the other bytes of the word stay |
| Integers.DigitIs | sys/elf64.c:55-55 | byte k of a number counts 256 to the k |
| Elf.StoredByte | sys/elf64.c:55-55 | a byte stored through the page tables changes that byte of the private memory alone |
| Elf.ZeroPageBytes | sys/elf64.c:44-45 | a new page shows zero bytes and changes no other |
| Elf.WriteByte | sys/elf64.c:55-55 | one byte of the kernel's copy, seen by this process only |
| Elf.MapEmpty | sys/elf64.c:44-45 | an empty, writable page at one place, all other bytes stay; one frame and the tables the other pages have not made |
| Elf.MapSegment | sys/elf64.c:40-49 | exactly the pages from the first to the last address of the segment become empty pages; the frames taken, exactly |
| Elf.CopySegment | sys/elf64.c:50-56 | exactly the file bytes are stored at their virtual addresses |
| Elf.LoadSegment | sys/elf64.c:28-73 | one program header, loadable or not, with its records linked in and counted, acts on every byte as specified; the frames taken, exactly |
| Elf.LoadSegments | sys/elf64.c:26-75 | all program headers in turn: the image of the file, one linked record for each loadable segment |
| Elf.AddRegion | sys/elf64.c:29-39 | a record with the fields of the segment behind the last one, counted |
| Elf.AppendStack | sys/elf64.c:77-83 | the doubled store: the record is linked behind the last; with no record and no current one a null pointer is followed |
| Elf.AddAreas | sys/elf64.c:76-112 | the list ends in the records of stack and heap, both counted |
| Elf.LoadProgram | sys/elf64.c:23-113 | segments, stack and heap: bytes, list, count and cost |
| Elf.NoRegions | sys/elf64.c:76-82 | no region to link the stack behind exactly when no segment is loadable |
| Elf.RecordAndPage | sys/elf64.c:76-85 | a kernel record and an empty page |
| Elf.LoadElf | sys/elf64.c:13-114 | every byte of the process is that of the program, or the one before where the program has none; no other process sees a change; the records of segments, stack and heap are linked from mmap on and added to the counter; refused and crashed exactly when; works if and only if more frames are free than it costs |
| Elf.UserInitProcess | sys/process.c:57-85 | a new process whose memory, byte for byte, is the program, and whose counter is the length of its region list; all others stay; the frames it takes, exactly |
| Malloc.ReadWrite | libc/malloc.c:30-33 | a field stored in heap bytes is read back |
| Malloc.BlocksDisjoint | libc/malloc.c:14-73 | blocks and records are pairwise disjoint and below the break, whatever others have taken between them |
| Malloc.FlagWritten | libc/malloc.c:58-58 | setting a record's flag keeps all records of the list in memory right |
| Malloc.BlockWritten | libc/malloc.c:19-19 | stores inside a block keep all records right |
| Malloc.Appended | libc/malloc.c:61-70 | a new block, record and link keep all records right |
| Malloc.RecordLayout | libc/malloc.c:5-10 | which byte of a record holds what, and which are left alone |
| Malloc.RoomDecides | libc/unistd.c:41-45 | where a record can be stored at all, it stands behind its block if and only if the size survives the int parameter and the break does not wrap |
| Malloc.TouchInHeap | sys/page.c:116-125 | accesses in the heap range are made if and only if they begin at or below HEAP_END or its page is mapped, and map the heap up to the last |
| Malloc.RecordInHeap | libc/malloc.c:63-67 | a record can be stored if and only if it ends in the last heap page and that page is mapped, or no field begins behind HEAP_END before one reaches it |
| Malloc.BlockReached | libc/malloc.c:19-19 | a block whose record is in the heap can be accessed, all of it |
| Malloc.QuarterGigabyteStops | libc/malloc.c:28-30 | a request of 256 MiB stops a fresh process |
| Malloc.KernelHalfStops | libc/unistd.c:41-45 | a size that is negative as an int leads into the kernel half and stops the process |
| Malloc.ExtendedList | libc/malloc.c:61-70 | what the list is after a new block, in order or not |
| Malloc.Heap.SbMalloc | libc/unistd.c:41-45 | called by others, the list stays in order if and only if the break stays behind it |
| Malloc.Heap.Fill | libc/malloc.c:64-67 | the four stores into a record, or the stop at the first that cannot be made |
| Malloc.Heap.Extend | libc/malloc.c:61-70 | one block at the break, one record behind it; only the tail's link changes besides; the process stops if and only if the record cannot be stored, and otherwise the list agrees with memory if and only if the size reaches the kernel and the break does not wrap |
| Malloc.Heap.Search | libc/malloc.c:37-54 | the walk settles on the first freed non-tail block with request < size < 10000 |
| Malloc.Heap.Reuse | libc/malloc.c:55-60 | one flag changes, the block's address is returned |
| Malloc.Heap.Malloc | libc/malloc.c:26-73 | for every 64-bit size: stops if and only if nothing is reused and the record cannot be stored; otherwise the block list and address as specified, and no byte of any block changed, if and only if a block is reused or there is room |
| Malloc.Heap.Release | libc/malloc.c:18-20 | one block is marked free and cleared; stops if and only if the block cannot be accessed |
| Malloc.Heap.Free | libc/malloc.c:14-24 | exactly the block that starts at the address is freed and cleared; no byte of another block changes; stops if and only if that block cannot be accessed |
| Malloc.Heap.Clear | libc/string.c:160-164 | for an int size: exactly the range reads as zero and is mapped, or the process stops at its first byte that cannot be |
| Malloc.Heap.Poke | libc/malloc.c:14-73 | a program's store into its live block keeps the list in order, and is made whenever the block's record is in the heap |
| Malloc.RunKeeps | libc/malloc.c:14-73 | over every run of malloc, free and sb_malloc by others blocks keep place and size and stay apart, and live ones are as large as requested |
| Malloc.MallocGivesUnheldBlock | libc/malloc.c:26-73 | malloc returns a block that was not live, large enough, and leaves the others |
| Malloc.FreeUndoesMalloc | libc/malloc.c:14-24 | free after malloc leaves that block unused and all others as before |
| Malloc.FreshExactlyWhenNoneFits | libc/malloc.c:42-70 | fresh memory is taken if and only if no block before the last is unused, larger than the request and below 10000 bytes; then it is at the break, which moves by the size and 32 |
| Malloc.ReusedIsFirst | libc/malloc.c:42-60 | otherwise the first such block is given out, and nothing but its flag changes |
| Malloc.FirstNotSmallest | libc/malloc.c:37-54 | a list on which a larger block than necessary is chosen |
| Tarfs.OctalRoundTrip | sys/tarfs.c:12-21 | reading octal digits inverts writing them |
| Tarfs.OctalDigit | sys/tarfs.c:12-21 | digits 0 to 7, eightfold to the left |
| Tarfs.RoundUpIsLeast | sys/tarfs.c:142-145 | the least multiple of 512 that is not smaller |
| Tarfs.EntryFields | sys/tarfs.c:126-148 | name, size, type and mark at offsets 0, 124, 156 and 257 of the header |
| Tarfs.Oct2Bin | sys/tarfs.c:12-21 | the value of the 11 digits, with all partial sums inside int, for sizes that fit an int |
| Tarfs.Index.Parse | sys/tarfs.c:23-56 | the node goes to the top, to its directory's node, or nowhere |
| Tarfs.ParentIs | sys/tarfs.c:30-45 | the directory of d + name, and of d + name + "/", is d |
| Tarfs.Index.Take | sys/tarfs.c:126-148 | one header becomes one node and the walk moves behind its data |
| Tarfs.Index.InitTarfs | sys/tarfs.c:122-149 | the table is the one built from the archive's entries in order |
| Tarfs.NodeFromEntry | sys/tarfs.c:122-149 | every node but the first comes from an entry |
| Tarfs.BuildComplete | sys/tarfs.c:23-56 | with directories first every entry has one node, whose parent is earlier and bears the directory's name |
| Tarfs.CompleteIffDirsFirst | sys/tarfs.c:46-55 | no entry is dropped if and only if directories precede their contents |
| Tarfs.FileWithoutDirectory | sys/tarfs.c:46-55 | an archive whose one file is dropped |
| Tarfs.GetFile | sys/tarfs.c:57-77 | the block behind the first header with the name, or nothing if there is none |
| Tarfs.OpenAgreesWithGetFile | sys/syscall.c:423-440 | the node open finds starts one block before the address getFile returns |
| Tarfs.OpenFindsEveryFile | sys/syscall.c:423-440 | with directories first open finds the node of every file |
| Tarfs.Readdir | sys/syscall.c:527-544 | prints the two dots and the stripped names of the nodes with that parent |
| Tarfs.ChildHasPrefix | sys/syscall.c:533-540 | a directory's name is a prefix of its children's |
| Tarfs.ReaddirListsChildren | sys/syscall.c:527-544 | readdir lists exactly the immediate children, in archive order |
| Tarfs.InsideShows | sys/syscall.c:533-540 | an entry directly inside is listed by its last name, one of another directory is not |
| Tarfs.Open | sys/syscall.c:415-446 | the least unused descriptor gets the node; the exact effect when none is unused |
| Tarfs.WalkVisitsMembers | sys/tarfs.c:122-149 | the walk over an encoded archive visits exactly its members in order |
| Tarfs.DataFollowsHeader | sys/tarfs.c:70-73 | the data of each member stands where getFile says |
| Tarfs.ArchiveReadBack | sys/syscall.c:605-613 | encode, index, open: the node found points at the file's data and holds its size |
| Processes.SearchEndsIffOnCycle | sys/syscall.c:116-118 | exit's search ends if and only if the process is on a cycle |
| Processes.SearchEndsSoonOrNever | sys/syscall.c:116-118 | the search ends within as many steps as there are processes with a link, or never |
| Processes.Scheduler.constructor | sys/process.c:37-55 | the kernel's process is a ring of its own |
| Processes.Scheduler.Insert | sys/process.c:79-83 | the first user process joins the ring at its end |
| Processes.Scheduler.FindPredecessor | sys/syscall.c:116-118 | a process linked to the caller and reached from it |
| Processes.Scheduler.ExitEdit | sys/syscall.c:114-129 | the links after exit, the zombie's included; the next process runs |
| Processes.ForkRing | sys/syscall.c:275-277 | fork keeps one cycle, with the child behind the caller |
| Processes.ExitRing | sys/syscall.c:114-129 | exit from a ring of two or more keeps one cycle without the caller; the zombie links to it, and no other link off the ring changes |
| Processes.ExecRing | sys/syscall.c:209-217 | execve by any process of a ring: the image stands before the process behind first, the caller and all between are off the ring |
| Processes.Act | sys/syscall.c:114-129 | each call moves the ring as specified |
| Processes.Execute | sys/syscall.c:114-129 | over every run of fork, yield and exit the links are one cycle over exactly the live processes |
| Processes.RingAtShell | sys/process.c:79-83 | the state in which the shell calls, for every ring that it heads and the kernel's process ends |
| Processes.StartShell | sys/process.c:37-55 | the ring of kernel process and shell after start-up |
| Processes.Launch | sys/syscall.c:209-217 | fork, waitpid, execve leave the program and the shell as a ring of two, and no other process is reached any more |
| Processes.ShellCycle | sys/syscall.c:393-413 | fork, waitpid, execve, exit: the search ends and the shell runs again, alone on its ring, whatever was on it before |
| Processes.ShellRun | sys/syscall.c:209-217 | for any number of commands first->next stays the shell and control returns to it |
| Processes.BackgroundIsLost | sys/syscall.c:209-217 | from start-up: a child that is not waited for is lost with the next command |
| Processes.WaitedChildCannotExit | sys/syscall.c:114-129 | on every ring: a waited-for child that exits before execve searches for ever, and the ring is as before |
| Processes.GetPID | sys/process.c:15-26 | the least unused number, used from then on; -1 when there is none |
| LineReader.LineThenRest | rootfs/boot/support.4th:374-383 | a finished line in front of the rest is the next line of the text |
| LineReader.LinesOfText | rootfs/boot/support.4th:374-383 | non-empty lines, each ended by a line feed, are the lines of the text they make |
| LineReader.Reader.SkipNewlines | rootfs/boot/support.4th:295-305 | skipping changes no line of the remaining text |
| LineReader.Reader.ScanBuffer | rootfs/boot/support.4th:307-323 | the text up to the next line feed or the end of the piece |
| LineReader.Reader.ReadFromBuffer | rootfs/boot/support.4th:345-349 | the line grows by exactly what is consumed |
| LineReader.Reader.RefillBuffer | rootfs/boot/support.4th:356-366 | the next piece, or the end of the file; no text is lost |
| LineReader.Reader.ReadLine | rootfs/boot/support.4th:374-383 | delivers the next non-empty line or an empty one, and always makes progress |
| LineReader.Reader.ProcessConf | rootfs/boot/support.4th:783-794 | the non-empty lines delivered are those of the remaining text |
| LineReader.ReadFile | rootfs/boot/support.4th:295-383 | the same for a whole file, however it is split into pieces of 1 to 80 characters |
| Numbers.NumeralValue | sys/kprintf.c:109-128 | the numeral stands for the number and has no leading zero |
| Numbers.DigitIs | sys/kprintf.c:112-125 | digit r is character r of 0123456789abcdef |
| Numbers.NumeralDigits | sys/kprintf.c:109-128 | only digits of the base are written |
| Numbers.NumeralLength | sys/kprintf.c:109-128 | at most k digits if and only if the number is below base to the k |
| Numbers.TwentyDigits | sys/kprintf.c:107-107 | 20 characters suffice for every 64-bit number and are needed for the largest |
| Numbers.LowDigits | sys/kprintf.c:107-128 | the digits lowest first, in 20 characters, never overrun |
| Numbers.Convert | sys/kprintf.c:105-160 | the canonical numeral in base 10 or 16, of digits 0 to 9 and a to f, with the value of the number, ended by NUL |
| Numbers.PrintdShowsNumberIff | sys/kprintf.c:172-181 | printd shows the number itself if and only if it is not negative |
| Numbers.PowerOfTen | bin/sleep/sleep.c:26-29 | the power of ten, wrapped to an int |
| Numbers.AddDigit | bin/sleep/sleep.c:30-31 | wrapping at every operation is wrapping once at the end |
| Numbers.ParseSeconds | bin/sleep/sleep.c:14-42 | the nested loops compute the decimal value wrapped to 32 bits, the value itself below 2^31, and without leading zeros nothing leaves the int range there |
| Numbers.PrintThenSleep | bin/sleep/sleep.c:14-42 | what convert prints for an int the sleep program reads back |

## Left out

- Mmu.Machine.AllocFrame: stops at exhaustion; the kernel carries on with frame 0 there, and no contract speaks of that state.
- Paging.Translate: gives ZERO where a table of the way is missing; physicalAddress would read through a null pointer.
- Elf.LoadElf: needs segments below 2^47 and file parts inside the file; the region records are objects of their own, beside the kernel pages taken for them.
- Malloc.Heap.Malloc: frames do not run out; when the size does not survive, only that memory and list disagree is stated; a heap whose end record is shared after fork is not covered.
- Tarfs.Index.Parse: needs a path of 3 to 99 characters; on a shorter one the code reads before its buffer, on a longer one it writes behind it.
- Numbers.ParseSeconds: an overflowing int wraps, as the processor's does; C leaves it undefined. The copy of the argument into ten bytes of heap is not part of this model.
- Numbers.Convert: only the kinds 'd' and 'x', the only ones with callers.
- TLB contents and CR3 reloads: translations are read from memory at every access.
- Runs.Execute: kernel stores only where `Spaces.SafeRun` allows them, because the property is false of others (`Runs.ReadAfterFork`).
- kfree, freemm, exit(pcb) and deletePagetable: no live caller, and they use physical addresses as virtual ones.
- execve's argument copying, contextSwitch, switchToRing3 and all inline assembly; only the list edits and the choice of the running process are kept.
- Process states, pids on the list, file descriptors other than in open, and the sleep and timer code.
- Console cursor and scrolling, AHCI and PCI, keyboard, timer, PIC, GDT and IDT set-up.
- split, cd, strstr, the shell's command loop, chdir, getpwd and the length handling of read: fixed buffers and no clear specification.
- isDir, isFile and opening directories: the same scans as getFile and open.
- The rest of the boot Forth: menus, kernel search, assignments, and the error exits of fread and allocate.
