# RaOS memory, task and loading layer in Dafny

A Dafny 4.11 model of the hard core of RaOS, a small 32-bit kernel, with proofs about every
input, every run and every reachable state. `dafny verify dfyconfig.toml` checks all of it.

What is modelled, and the main results:

- **Block heap** (`HeapTable`, `HeapRuns`, `KernelHeap`). The entry table is a byte array that
  the marking and freeing loops overwrite. In every run of allocations and frees the table
  stands for exactly one set of disjoint live runs (`EveryHeapRun`); the first-fit scan has an
  exact specification, including its wrong answer for a free tail that is too short
  (`GetStartBlock`, `ShortTailIsReturned`, `MallocSafeIff`); blocks are conserved; freeing all
  live runs in any order gives the all-free table.
- **Page tables** (`AddressSpace`, `Paging`, `Isolation`). A directory and 1024 tables live in
  words of the heap's data pool. The two levels refine a flat map from page to entry; the
  contracts of the mapping routines are equations on that flat map, and the processor's own
  walk finds the same entries (`WalkIsFlat`). Over whole runs that interleave any number of
  address spaces with other allocations, frees and writes, the flat map of a space is what its
  own map calls make of it (`RunIsolates`), because the heap keeps all tables apart. Creating, mapping and freeing restores the entry table byte for byte.
- **Processes and loading** (`Process`, `ProcessRuns`, `Loader`, `ElfBounds`). In every run of
  allocations and frees by any number of processes, each slot table agrees with the heap and
  with its process's page tables, and processes stay apart (`EveryProcessRun`). ELF segments, a
  flat image and the stack reach the right bytes at the same time.
- **Tasks** (`RoundRobin`, `Scheduler`, `CopyString`). The doubly linked task list refines a
  ring; every reachable state is fair. The string copy's temporary mapping leaves no trace.
- **Around them**: the path parser and its heap-allocated list (`PathSpec`, `PathParser`), the
  sector streamer (`Streamer`), the FAT directory scan (`FatDirectory`), and the segment
  descriptor encoder (`Gdt`).

Conventions. Table bytes are `bv8`; machine words are integers below 2^32 with wrap-around
written out as `% TWO32`. `|` on words is given by its digits (`Bits.Or`) and `& 0xfffff000` is
`Bits.Frame`, justified by `FrameIsMask`. Page entries follow the "32-Bit Paging" chapter and
descriptors section 3.4.5 of the Intel SDM, volume 3A. Digits 0, 1 and 2 of a page entry
(`Bits.Bit`) are its present, writable and user bits. The data pool is an array of words;
`Bytes` splits words into bytes, and `PoolBytes` keeps strings in the pool. A live run is the
number of its first block with its length. An address space is named by the block numbers of
its chunk record, directory and tables.

Where the code and its documentation differ, the model follows the code:

- README.md:548 promises at least 4096 bytes for every allocation. A request of 0 bytes, or of
  more than 2^32 - 4096 (whose rounding wraps to 0), is granted with no block at all:
  `GrantHoldsIff` gives the exact condition.
- The comment at src/memory/heap/heap.c:238 says a run ends with byte 0x01; a run of one block
  is 0x41, and the freeing pass stops at any entry without HAS_NEXT.
- process_map_elf maps every program header, whatever its type.
- process_free leaves the pages it releases without the present bit, not as a fresh task has
  them (`MallocThenFreePages`).

## Model

| member | source | states |
|---|---|---|
| HeapTable.RunByte | src/memory/heap/heap.h:9-13 | a run's bytes are taken, carry IS_FIRST on the first block only and HAS_NEXT on all but the last |
| HeapTable.RunBytes | README.md:550-564 | the documented byte values: 0x41 for a run of one block, else 0xc1, then 0x81s, then 0x01 |
| HeapTable.FirstFitUnique | src/memory/heap/heap.c:110-139 | the scan's specification (least fit; else -ENOMEM or start of the free tail) has one answer |
| HeapTable.MallocSafeIff | src/memory/heap/heap.c:110-195 | the blocks to be marked lie in the table iff nothing is asked for, a fit exists or the last entry is taken |
| HeapTable.ShortTailIsReturned | src/memory/heap/heap.c:134-138 | a concrete table on which a too short free tail is answered as if it fitted |
| HeapTable.OneBlockIsSafe | src/memory/heap/heap.c:110-139 | one-block requests never meet that case |
| HeapTable.TakenAddsRun | src/memory/heap/heap.c:154-171 | marking a fit adds exactly one run of formerly free blocks and keeps the table well formed |
| HeapTable.FreedChain | src/memory/heap/heap.c:224-234 | the freeing pass clears exactly the chain of HAS_NEXT entries |
| HeapTable.FreedRemovesRun | src/memory/heap/heap.c:224-247 | freeing the start of a live run removes that run and nothing else |
| HeapTable.DecodingUnique | src/memory/heap/heap.h:9-21 | a byte table stands for at most one set of live runs |
| HeapTable.EncodingUnique | src/memory/heap/heap.h:9-21 | the live runs determine every byte of the table |
| HeapTable.FreeUndoesMalloc | src/memory/heap/heap.c:181-247 | allocating a run and freeing it restores the table byte for byte |
| HeapTable.FreedInsideBreaks | src/memory/heap/heap.c:224-247 | freeing from inside a run leaves a table that stands for no set of runs |
| HeapTable.FreedWellFormedIff | src/memory/heap/heap.c:224-247 | a free keeps the table well formed iff the block starts a live run, is free, or is past the end |
| HeapRuns.BlocksForIff | src/memory/heap/heap.c:87-94 | a request is rounded to the blocks it needs iff it is at most 2^32 - 4096; beyond that it gets none |
| HeapRuns.GrantHoldsIff | src/memory/heap/heap.c:181-209 | a granted request has a live run that holds its bytes iff it is non-zero and does not wrap |
| HeapRuns.Conservation | src/memory/heap/heap.c:154-247 | free blocks plus live run lengths equal the table size |
| HeapRuns.FreeAllRemoves | src/memory/heap/heap.c:244-247 | freeing any distinct live runs in any order removes exactly those |
| HeapRuns.FreeAllGivesAllFree | src/memory/heap/heap.c:244-247 | freeing all live runs in any order gives the all-free table |
| HeapRuns.FirstByteIsStart | src/memory/heap/heap.h:12-13 | IS_FIRST marks exactly the starts of live runs |
| HeapRuns.StepKeepsWellFormed | src/memory/heap/heap.c:181-247 | every call changes the decoded runs by exactly the run it grants or frees |
| HeapRuns.EveryHeapRun | src/memory/heap/heap.c:181-247 | in every run: unique decoding, exact effect of each call, conservation, and freeing all restores the first table |
| KernelHeap.Heap.Create | src/memory/heap/heap.c:14-76 | success iff both ends are aligned and the sizes match, then an all-free heap; else -EINVARG and the table untouched |
| KernelHeap.Heap.GetStartBlock | src/memory/heap/heap.c:110-139 | the loop meets the exact first-fit specification for every n, 0 included |
| KernelHeap.Heap.MarkBlocksTaken | src/memory/heap/heap.c:154-171 | the loop writes the bytes of a run of the given length and no others |
| KernelHeap.Heap.MallocBlocks | src/memory/heap/heap.c:181-195 | null with nothing changed when full, else the first fit becomes a live run |
| KernelHeap.Heap.Malloc | src/memory/heap/heap.c:205-209 | the same for a size in bytes; every call is a step of the run theorem |
| KernelHeap.Heap.MarkBlockFree | src/memory/heap/heap.c:224-234 | the loop is the freeing pass |
| KernelHeap.Heap.Free | src/memory/heap/heap.c:219-247 | exactly the named run leaves the live runs; a free block or a pointer past the pool changes nothing |
| KernelHeap.Heap.Clear | src/memory/memory.c:4-10 | every byte of the given range of the pool is zero and every other byte is as before |
| KernelHeap.ZeroedByte | src/memory/memory.c:4-10 | clearing, byte by byte: for every start, size and byte of the pool, zero inside the range and unchanged outside, with 1, 2 or 3 left-over bytes of a word included |
| KernelHeap.Heap.Kzalloc | src/memory/heap/kheap.c:26-37 | an allocation whose first `size` bytes are zero, for every size, with every other byte of the pool unchanged |
| KernelHeap.KheapInit | src/memory/heap/kheap.c:9-24 | the configured addresses give an empty heap of 25600 blocks |
| Bits.OrIsBitOr | src/memory/paging/paging.c:27-31 | computing the bitwise or one digit at a time gives the or of all digits |
| Bits.FrameIsMask | src/memory/paging/paging.c:94-95 | masking with 0xfffff000 clears the low 12 bits of any word |
| Bits.OrFlags | src/memory/paging/paging.c:143-151 | flags below 4096 or-ed into an aligned address can be masked off again |
| Bits.OrTwoFlags | src/memory/paging/paging.c:31-31 | a directory entry's mask recovers the table it was built from |
| Bits.FlagDigits | src/memory/paging/paging.c:143-151 | the present, writable and user digits of an entry are those of the flags or-ed in |
| AddressSpace.IdentityTranslates | src/memory/paging/paging.c:18-39 | a fresh space translates every 32-bit address to itself |
| AddressSpace.WalkIsFlat | src/memory/paging/paging.c:67-97 | the processor's walk through directory and table, by bits 31-22 and 21-12 of any address, finds the flat map's entry and translation |
| AddressSpace.SpaceFrame | src/memory/paging/paging.c:89-126 | writes outside a space's blocks leave its wiring and its flat map alone |
| AddressSpace.StoreEntry | src/memory/paging/paging.c:108-126 | storing one entry updates the flat map at that page only and leaves the directory intact |
| Paging.GetIndex | src/memory/paging/paging.c:67-86 | the two indices recompose to the address; a misaligned address gives -EINVARG and indices 0 |
| Paging.Get | src/memory/paging/paging.c:89-97 | the walk returns the flat map's entry (page 0's for a misaligned address) |
| Paging.Set | src/memory/paging/paging.c:108-126 | one flat-map update, or -EINVARG and no change |
| Paging.Map | src/memory/paging/paging.c:143-151 | one flat-map update with the flags or-ed in, or -EINVARG and no change |
| Paging.MapOne | src/memory/paging/paging.c:157-162 | one round of the loop extends a mapping by one page, with 32-bit wrap-around |
| Paging.MapRange | src/memory/paging/paging.c:154-165 | the loop maps `count` consecutive pages around the address space |
| Paging.MapTo | src/memory/paging/paging.c:169-195 | a flat-map equation for every range; misaligned or reversed ranges give -EINVARG and change nothing; only tables are written |
| Paging.MapToTranslates | src/memory/paging/paging.c:169-220 | byte k of an accepted range reaches byte k of the physical range, also across the 4 GB wrap, and every other page is as before |
| Paging.GetPhysicalAddress | src/memory/paging/paging.c:208-220 | the routine computes the flat map's translation of any address |
| Paging.FillTable | src/memory/paging/paging.c:26-28 | the inner loop fills a table with the identity entries of its 4 MB |
| Paging.AddTable | src/memory/paging/paging.c:23-32 | one round adds a fresh filled table and its directory entry and disturbs none before it |
| Paging.New4Gb | src/memory/paging/paging.c:18-39 | 1026 fresh one-block runs become a wired space with the identity map; nothing else changes |
| Paging.NewDirectoryDigits | src/memory/paging/paging.c:31-31 | every directory entry of a new space is writable and carries the flags, so the page entry alone decides |
| Paging.FreeTable | src/memory/paging/paging.c:130-135 | masking a directory entry recovers the table allocated for it, which is freed |
| Paging.Free4Gb | src/memory/paging/paging.c:129-139 | exactly the blocks of the space leave the live runs |
| Isolation.StepIsolates | src/memory/paging/paging.c:108-195 | a call changes the flat map of a space only if it maps in that very space |
| Isolation.StepKeepsInv | src/memory/paging/paging.c:18-195 | every call keeps all spaces wired, owned and pairwise disjoint |
| Isolation.RunIsolates | src/memory/paging/paging.c:18-195 | over every run a living space's flat map is the replay of its own map calls |
| Isolation.CreatedSpaceIsolated | src/memory/paging/paging.c:18-195 | from its creation on a space is the identity changed by its own map calls only |
| Isolation.NewMapFreeRestores | src/memory/paging/paging.c:18-195 | new, any mappings, then free restores the entry table byte for byte |
| Isolation.Allocate | src/memory/heap/kheap.c:30-37 | kzalloc is a step of the isolation runs |
| Isolation.FreeRun | src/memory/heap/kheap.c:28-28 | kfree of a run outside every space is a step |
| Isolation.CreateSpace | src/memory/paging/paging.c:18-39 | paging_new_4gb is a step |
| Isolation.MapSpace | src/memory/paging/paging.c:169-195 | paging_map_to is a step |
| Isolation.FreeSpace | src/memory/paging/paging.c:129-139 | paging_free_4gb is a step |
| Process.SlotsApart | src/task/process.c:52-80 | two used slots never share a block |
| Process.SelfMapEffect | src/task/process.c:63-66 | mapping a run onto itself gives its pages the flags and keeps all others |
| Process.MallocKeepsSlots | src/task/process.c:52-80 | recording a fresh run keeps every slot in step with heap and page tables |
| Process.FreeKeepsSlots | src/task/process.c:241-262 | releasing a slot's run keeps every other slot in step |
| Process.MallocThenFreePages | src/task/process.c:63-66 | after malloc and free a page's entry is its bare address, all other pages unchanged |
| Process.SlotPages | src/task/process.c:63-66 | every page of a used slot maps to itself with the present, writable and user digits set |
| Process.Process.Record | src/task/process.c:62-74 | the run is mapped onto itself for the user, only page tables are written, and only the given slot changes |
| Process.Process.FindFreeAllocationIndex | src/task/process.c:40-50 | the least empty slot, or -ENOMEM iff there is none |
| Process.Process.FindAllocation | src/task/process.c:99-107 | the first slot that records an address, or none |
| Process.Process.Unjoin | src/task/process.c:90-97 | exactly the slots that record the pointer are emptied |
| Process.Process.Malloc | src/task/process.c:52-80 | keeps the slot invariant; success records the first fit in the first empty slot, maps it, and its `size` bytes are zero after the page-table writes; failure (no fit or no slot) leaves table, slots and page map unchanged |
| Process.Process.Free | src/task/process.c:241-262 | keeps the slot invariant; a recorded pointer loses exactly its slot, its run and its page flags; any other changes nothing |
| Process.OtherProcessKept | src/task/process.c:52-107 | malloc and free by one process leave every other process's tables and slots in order |
| ProcessRuns.StaysApart | src/task/process.c:52-107 | after any call no process records a pointer of another or a block of another's page tables |
| ProcessRuns.StepKeepsInv | src/task/process.c:52-262 | every malloc or free by any process keeps all processes in step with heap and page tables |
| ProcessRuns.EveryProcessRun | src/task/process.c:52-262 | in every run used slots of all processes name live runs of ceil(size/4096) blocks, pairwise disjoint, mapped to themselves present, writable and user |
| ProcessRuns.EverySlot | src/task/process.c:52-262 | in every run, each used slot of each process: its run is live, holds its size, and its pages map to themselves with digits 0, 1 and 2 set |
| Loader.SegTranslatesIff | src/task/process.c:351-362 | a covered address reaches its byte of the file iff address and place agree modulo 4096 |
| Loader.ElfFlatPage | src/task/process.c:345-368 | for any headers each page ends with the entry of the last segment that reaches it, or unchanged |
| Loader.ElfFlatDigits | src/task/process.c:354-357 | for any headers a page that some segment reaches is present, user, and writable iff the last such header sets digit 1 of p_flags |
| Loader.WellPlacedSegment | src/task/process.c:353-362 | a segment laid out by the ABI is accepted and covers exactly the pages of its range |
| Loader.ElfLoads | src/task/process.c:345-368 | page-disjoint segments: every address reaches its byte, its page is present and user, and writable iff digit 1 of p_flags is set; all other pages unchanged |
| Loader.MapSegment | src/task/process.c:352-362 | one round maps one header, its pages present, user, and writable iff digit 1 of p_flags is set; or -EINVARG and no change |
| Loader.MapElf | src/task/process.c:345-368 | the loop maps headers in order up to the first refused one and reports it; each reached page has the digits of the last header that reaches it |
| Loader.MapMemory | src/task/process.c:336-405 | program and stack mapped in turn; a refused ELF header stops before the stack |
| Loader.BinaryLoads | src/task/process.c:336-405 | fresh task: program bytes and stack bytes reach their memory at once on writable user pages; every other page maps to itself, read-only |
| Loader.ElfMemoryLoads | src/task/process.c:345-405 | ELF segments off the stack's pages, with their digits, and the stack itself load at the same time |
| ElfBounds.ElfFile.ProcessPtLoad | src/loader/elfloader.c:96-112 | one header widens the bounds, with 32-bit sums and zero as unset |
| ElfBounds.ElfFile.ProcessPheaders | src/loader/elfloader.c:113-133 | the loop folds the PT_LOAD headers only |
| ElfBounds.BaseIsLowest | src/loader/elfloader.c:96-133 | the base is the least address of a loaded segment, with the physical address of the last one that has it |
| ElfBounds.EndIsHighest | src/loader/elfloader.c:96-133 | for all headers the end is the greatest p_vaddr + p_filesz of a PT_LOAD header, with memory + p_offset + p_filesz of the last one that has it |
| ElfBounds.ZeroIsForgotten | src/loader/elfloader.c:98-102 | two headers for which the base is not the least address |
| ElfBounds.BaseIsLowestIff | src/loader/elfloader.c:96-133 | for all headers the base is the least address iff none starts at zero or the last loaded one does |
| RoundRobin.RemovedCurrent | src/task/task.c:72-92 | removal keeps the current task or hands over to its cyclic successor, and drops only the removed task |
| RoundRobin.AddsInOrder | src/task/task.c:39-48 | after n creations the ring is the n tasks in that order, the first of them current |
| RoundRobin.CreationOrder | src/task/task.c:39-65 | switching from there visits the tasks in creation order and comes back to the first |
| RoundRobin.EveryRingOk | src/task/task.c:26-119 | in every run tasks are distinct and there is a current task iff there is a task |
| RoundRobin.Fairness | src/task/task.c:59-65 | n switches with n tasks make each task current exactly once, the starting one last |
| RoundRobin.EveryRunFair | src/task/task.c:26-119 | fairness from every reachable state |
| Scheduler.Unlink | src/task/task.c:73-79 | the neighbours of a task are joined and the links of all others stay mutually inverse |
| Scheduler.FreshPages | src/task/task.c:212-217 | the flags of a fresh task: digits 0 and 2 set, digit 1 clear, on every page |
| Scheduler.Scheduler.Append | src/task/task.c:39-48 | the task becomes the tail, after the old tail and with no successor; head and current stay when there were any; the sequence of tasks is the old one followed by it |
| Scheduler.Scheduler.GetNextIsSuccessor | src/task/task.c:59-65 | the next task is the cyclic successor |
| Scheduler.Scheduler.ListRemove | src/task/task.c:72-92 | the list stays well formed without the task, no link, head, tail or current refers to it, and the others keep their order |
| Scheduler.Scheduler.Next | src/task/task.c:103-119 | the cyclic successor becomes current |
| Scheduler.TaskNew | src/task/task.c:26-57 | the new task stands last in the list, with a record block and a fresh space, all from fresh blocks; every page maps to itself, present, user and not writable |
| Scheduler.TaskFree | src/task/task.c:94-101 | the list forgets the task and exactly its blocks are given back |
| Scheduler.NewTaskFreeRestores | src/task/task.c:26-101 | creating and freeing a task restores the entry table byte for byte |
| Bytes.ByteOfWithByte | src/string/string.c:78-87 | writing one byte of a word leaves the other three |
| PoolBytes.CopyIn | src/string/string.c:78-87 | the buffer holds the string's own bytes, all of them or the first n - 1, and then a zero; only its block is written |
| PoolBytes.CopyOut | src/string/string.c:78-87 | the string in the buffer is read back whole, up to its terminator |
| CopyString.CopyThrough | src/task/task.c:149-163 | map, copy, restore: the task's flat map is as before and the result is the string, or its first max - 1 bytes |
| CopyString.CopyStringFromTask | src/task/task.c:136-169 | page map, heap table and live runs unchanged on every path; exact result codes; the result is the string, or its first max - 1 bytes when it is longer |
| PathSpec.HeadOfPart | src/fs/pparser.c:46-55 | the next part is the text up to '/' or the end |
| PathSpec.ParsedPrint | src/fs/pparser.c:16-133 | parsing inverts printing for every digit and list of non-empty parts within 128 characters |
| PathSpec.ParsedIff | src/fs/pparser.c:16-20 | a path is accepted iff it has at most 128 characters and is a digit followed by ":/" and any rest |
| PathSpec.PartsArePrefixOfSplit | src/fs/pparser.c:43-133 | for every string the parts are the non-empty prefix of its '/'-split |
| PathSpec.JoinOfSplit | src/fs/pparser.c:43-63 | the split loses nothing |
| PathParser.CopyPart | src/fs/pparser.c:46-51 | the loop writes the characters up to '/' or the end into the cleared buffer, which then holds them with a terminator |
| PathParser.SpelledBytes | src/fs/pparser.c:43-63 | character j of part i stands at byte j of the part's block, and a zero after the last |
| PathParser.ScanPart | src/fs/pparser.c:46-55 | exactly one part is read and one '/' stepped over; only the buffer's block is written |
| PathParser.GetPathPart | src/fs/pparser.c:43-63 | a part's text is spelled out in a fresh block; an empty one gives it back and leaves the table unchanged |
| PathParser.ParsePathPart | src/fs/pparser.c:65-83 | a fresh record linked after the last one, or null and nothing changed |
| PathParser.GetDriveByPath | src/fs/pparser.c:16-32 | the drive digit, or -EBADPATH iff the path does not start with digit, ':' and '/' |
| PathParser.PathParse | src/fs/pparser.c:99-133 | null iff the path is refused; else the drive and a chain of exactly the parts, each spelled out in its own fresh block; no word of a live run changes |
| PathParser.PathFree | src/fs/pparser.c:85-96 | exactly the blocks behind the list leave the live runs |
| PathParser.ParseFreeRestores | src/fs/pparser.c:85-133 | parsing and freeing restores the entry table byte for byte |
| Streamer.BufferSafeIff | src/disk/streamer.c:35-58 | every buffer access is in bounds iff the read starts on a sector or stays inside one |
| Streamer.Stream.Seek | src/disk/streamer.c:21-24 | the position is set |
| Streamer.Stream.Read | src/disk/streamer.c:35-58 | byte i of the disk, i in [pos, pos + total), is byte i % 512 of sector i / 512 and lands at its place in the output; no other output byte changes; pos advances by total; a foreign disk gives -EIO |
| FatDirectory.TotalItems | src/fs/fat/fat16.c:195-238 | terminates at the first end mark and returns the number of items before it that are in use |
| FatDirectory.ItemInSector | src/fs/fat/fat16.c:217-221 | no 32-byte item crosses a sector |
| Gdt.DecodedEncoded | src/gdt/gdt.c:5-30 | decoding by the processor's rule gives the segment back iff its limit is encodable |
| Gdt.BaseLayout | src/gdt/gdt.c:22-29 | each byte of the base, and the type, in its place |
| Gdt.LimitLayout | src/gdt/gdt.c:11-20 | each byte of the limit in its place; byte 6 has the 32-bit size bit and only it among bits 4-6 |
| Gdt.EncodedInjective | src/gdt/gdt.c:5-30 | distinct segments have distinct descriptors |
| Gdt.EncodeEntry | src/gdt/gdt.c:5-30 | the byte-wise writes produce the descriptor in place and touch no other byte of the table |
| Gdt.StructuredToGdt | src/gdt/gdt.c:40-46 | every descriptor of the table decodes to its segment |

## Left out

- Assembly, CR3 loading, segment registers, TSS and IDT setup, port I/O and the ATA loop: hardware. The disk is a total function from sector to 512 bytes, and paging_switch and task_return have no effect here.
- Terminal output, kernel_main and panic: a call that would panic is excluded by a precondition (a segment that is not encodable, switching with no task).
- KernelHeap.Heap.Kzalloc: sizes above 2^32 - 4096 are excluded, because the clearing loop would then run over memory that was not granted; Malloc itself covers them.
- KernelHeap.Heap.Create: the pool is below 2 GB and `end` is not below `ptr`, because block numbers and address differences are C ints that the code does not check.
- KernelHeap.Heap.Free: pointers below the pool (null included) are excluded, because the pass would then write before the table.
- Process.Process.Malloc: size 0 is excluded, because the slot then names no run (`GrantHoldsIff`); sizes without a fit are covered when the scan reports failure.
- Process.Process.Free: null is excluded, because it matches empty slots and frees below the pool; process_terminate_allocations, which passes null, is left out for that reason.
- Paging.New4Gb: enough free blocks are required here and in TaskNew, because a null result of the allocator is not handled there.
- PathParser.PathParse: enough free blocks are required for the same reason; the list records are objects with the address of their block, and the unused current-directory argument is dropped.
- Scheduler.TaskNew: task records, like the path records, are objects that carry the address of their block; their fields are not laid out in the pool.
- CopyString.CopyStringFromTask: the string at the task's virtual address is a parameter; negative lengths, which turn into huge sizes, are excluded.
- Streamer.Stream.Read: reads that start inside a sector and cross its end are excluded, because they index past the sector buffer (`BufferSafeIff`).
- Loader.MapElf: program headers are a sequence, not read from the image's bytes; header validity tests and file reading are left out.
- FAT cluster chains, multi-cluster reads, short names and item lookup: the code's arithmetic there fits no content-preservation statement.
- VFS dispatch, file descriptors, fseek and fstat, the process table and command arguments: plumbing with only easy properties.
- Register saving and stack-item access of tasks: plain copies.
