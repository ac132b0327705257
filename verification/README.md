# BimbleOS, verified

BimbleOS is a small 32-bit kernel with its own user library. This project models its core in Dafny and proves
what each layer promises to the next. Every operation that the C code performs step by step is a method over the
same arrays, fields and loops, proved against a specification on values; the laws are lemmas about those
specifications, over all inputs and all runs.

The layers, bottom up:

* **Block heap** (`HeapTable`, `Heap`, `KernelMemory`). A byte per 4096-byte block, with the flags TAKEN,
  IS_FIRST and HAS_NEXT. A table is tied to the set of live runs it stands for by a relation that determines each
  side from the other. kmalloc, kzalloc and kfree then act on physical memory, which is a sequence of 2^20 frames
  of 1024 words.
* **Page tables** (`Paging`, `Mmu`, `PageDirectories`). Two-level tables in memory refine one flat map from page
  number to entry, in the format of section 4.3 (32-bit paging) of the Intel SDM, volume 3A; the processor's walk
  through both levels, with the access bits of both, grants what the flat entry says. Tables are found again by
  masking directory entries, which is right because the heap hands out disjoint aligned blocks.
* **Processes** (`ProcessSpace`, `Processes`, `ElfMapping`, `Loading`, `KernelRuns`, `Isolation`, `ProcessTable`,
  `Bytes`, `UserText`, `TaskPages`). The allocation slots of a process, the heap and its page directory agree from the
  moment a process is loaded and through every run of every process; termination gives back exactly what was held;
  segments and stack appear at the addresses the program expects; a process whose writable segments stay in its
  image can write only what it holds; the kernel reads a task's strings as the task sees them.
* **Tasks and traps** (`TaskList`, `Tasks`, `Traps`). The linked round-robin list, first as a value and then as
  pointer fields, and the interrupt handlers as atomic steps (all gates are interrupt gates) that save and switch.
* **Readers and parsers** (`Streamer`, `Fat16`, `CStrings`, `Strtok`, `Command`, `Paths`, `PathParser`, `Keyboard`,
  `Itoa`). Bytes from the disk, files through their cluster chains, words of a command line from typing to argv,
  paths, the keyboard ring, and decimal numerals.

Where the code does not do what it is evidently meant to do, the model follows the code and the exact condition is
proved: `HeapTable.SafeRequestIsExact`, `PageDirectories.PagingNew`, `Loading.LoadForSlot`,
`ElfMapping.SegmentTranslates`, `ElfMapping.CongruentCovers`, `Isolation.NewIsConfined`, `TaskList.RemovalIsExact`,
`TaskList.RemoveLastKeepsWellFormed`, `TaskList.SuccessorStaysBehind`, `Tasks.Scheduler.TaskNew`,
`Traps.ExitSkipsSuccessor`, `ProcessTable.Table.Unlink`, `Fat16.ReadIsExact`, `PathParser.Parse`,
`Keyboard.Ring.Push` and `Keyboard.Ring.Backspace`. Failing inputs stand beside them:
`HeapTable.UnsafeRequestExample`, `Loading.NullImageExample`, `ElfMapping.MisalignedSegmentExample`,
`Isolation.OverhangExample`, `ProcessTable.UnlinkedTwice`, `Fat16.CrossingReadExample`,
`Keyboard.FullRingExample`, `Keyboard.PushOverFull` and `Keyboard.BackspaceOnEmpty`.

`Words` holds 32-bit arithmetic, C's truncating division and the bit operations on page entries, bit by bit.

## Model

| member | source | states |
|---|---|---|
| HeapTable.FirstFit | src/memory/heap/heap.c:158-187 | the block a fitting request gets: the least start of n consecutive free blocks at or after a given block |
| HeapTable.BlocksForIsCeiling | src/memory/heap/heap.c:46-55 | the 32-bit rounding of sizes is the ceiling in blocks, except that size 0 and the sizes above 0xFFFFF000, whose rounding wraps, ask for no block |
| HeapTable.RunsDisjoint | src/memory/heap/heap.c:139-156 | in a table that pictures a set of runs, no block belongs to two runs |
| HeapTable.EncodingIsUnique | src/memory/heap/heap.c:115-125 | reading the flags back gives exactly the runs the table was made from, so the byte table determines the live allocations |
| HeapTable.EncodingDeterminesTable | src/memory/heap/heap.c:139-156 | conversely the live allocations determine every byte of the table |
| HeapTable.FreeIsUncovered | src/memory/heap/heap.c:115-118 | an entry is exactly 0 if and only if no live run covers its block |
| HeapTable.MarkedEncodes | src/memory/heap/heap.c:139-156 | marking a fitting run adds exactly that run, which was disjoint from all others |
| HeapTable.ClearedEncodes | src/memory/heap/heap.c:239-250 | clearing at a live start removes exactly that run and touches no other entry |
| HeapTable.ClearedIs | src/memory/heap/heap.c:239-250 | in any table, clearing runs from the given block behind the first entry without HAS_NEXT, or to the end of the table, and touches nothing else |
| HeapTable.ClearedUndoesMarked | src/memory/heap/heap.c:196-254 | malloc followed by free restores the table byte for byte |
| HeapTable.SafeRequestIsExact | src/memory/heap/heap.c:158-187 | a request keeps the table a picture of allocations, and stays inside it, if and only if a fit exists or the table does not end in a free block |
| HeapTable.SafePlacement | src/memory/heap/heap.c:196-219 | a safe request takes the first fit and adds exactly one live run, or changes nothing when no run is long enough |
| HeapTable.UnsafeRequestExample | src/memory/heap/heap.c:165-186 | a concrete table on which three blocks are granted from two, and on which a request for zero blocks tags an entry without taking it |
| HeapTable.OneBlockFits | src/memory/heap/heap.c:158-187 | a request for one block finds room exactly while a block is free |
| HeapTable.MarkedOne | src/memory/heap/heap.c:139-156 | and leaves one free block less |
| Heap.BlockHeap.Create | src/memory/heap/heap.c:77-105 | succeeds exactly for aligned ends and a table of matching size; then the heap is empty |
| Heap.BlockHeap.AddressToBlockIsC | src/memory/heap/heap.c:232-235 | the block index is the signed 32-bit difference divided with truncation and read as unsigned |
| Heap.BlockHeap.AddressRoundTrip | src/memory/heap/heap.c:127-130 | every block's address converts back to the block |
| Heap.BlockHeap.NullIsNoBlock | src/memory/heap/heap.c:232-250 | the null pointer becomes an index beyond every table, so freeing it changes nothing |
| Heap.BlockHeap.GetStartBlock | src/memory/heap/heap.c:158-187 | for every table and request the single pass returns first fit, else the start of a too-short trailing free run, else -ENOMEM |
| Heap.BlockHeap.MarkBlocksTaken | src/memory/heap/heap.c:139-156 | writes exactly the marked table, and tells exactly when the loop would leave the table |
| Heap.BlockHeap.Malloc | src/memory/heap/heap.c:196-225 | the whole new table and the returned address for every size and table |
| Heap.BlockHeap.MarkBlocksFree | src/memory/heap/heap.c:239-250 | writes exactly the cleared table |
| Heap.BlockHeap.Free | src/memory/heap/heap.c:252-254 | the table after freeing any pointer, live or not |
| Heap.StepKeepsEncoding | src/memory/heap/heap.c:196-254 | one malloc or free keeps the table the picture of what clients hold and keeps every other holding |
| Heap.EveryRunDecodes | src/memory/heap/heap.c:196-254 | in every run of safe requests and frees of held pointers the table decodes to exactly the clients' holdings, which are pairwise disjoint |
| Heap.HeldUntilFreed | src/memory/heap/heap.c:196-254 | a run stays held, with its length, through every run of calls that does not free it |
| KernelMemory.LiveIsDisjoint | src/memory/heap/heap.c:196-219 | live heap pages are in bounds, non-null and pairwise disjoint |
| KernelMemory.ClearMemory | src/memory/heap/kheap.c:36-43 | the memset of kzalloc: byte k of frame f becomes zero when its address is one of the bytes asked for, and every other byte of memory is as it was, whatever the size |
| KernelMemory.ClearedWordBytes | src/memory/heap/kheap.c:36-43 | in the word where a size ends, the bytes below the end are zero and those above are kept |
| KernelMemory.Kzalloc | src/memory/heap/kheap.c:36-43 | heap table, every byte of memory and the pointer after any request |
| KernelMemory.SafeKzalloc | src/memory/heap/kheap.c:36-43 | a safe request either leaves table and memory alone or hands out fresh pages of which exactly the bytes asked for are set to zero, and writes nothing else |
| KernelMemory.Kfree | src/memory/heap/kheap.c:46-48 | of a live pointer it removes exactly that allocation, of null it changes nothing, of any other it clears the chain of flags that starts there |
| KernelMemory.LiveDeterminesTable | src/memory/heap/heap.c:139-156 | two tables with the same live pages are equal |
| Paging.SetRefinesFlat | src/memory/paging/paging.c:104-126 | writing one entry changes exactly one entry of the flat page map and no directory entry |
| Paging.FlatUnaffected | src/memory/paging/paging.c:104-126 | writes outside a directory and its tables leave everything it maps alone |
| Paging.GetIndexes | src/memory/paging/paging.c:81-102 | the two indexes of an aligned address, or -EINVARG with both indexes zero |
| Paging.Set | src/memory/paging/paging.c:104-126 | memory after paging_set, for aligned and unaligned addresses |
| Paging.Get | src/memory/paging/paging.c:202-211 | the flat map's entry; an unaligned address reads page 0's |
| Paging.GetPhysicalAddress | src/memory/paging/paging.c:195-200 | the translation of the flat map, with the page offset kept |
| Paging.Map | src/memory/paging/paging.c:138-146 | one entry of the flat map changes, or nothing at all |
| Paging.MapRange | src/memory/paging/paging.c:148-161 | count pages from virt are mapped linearly modulo 2^32; a refused call changes nothing |
| Paging.MapTo | src/memory/paging/paging.c:163-193 | exactly the (phys_end - phys) / 4096 pages from virt change, or nothing |
| Paging.EveryMappingRunIsFlat | src/memory/paging/paging.c:104-193 | under every sequence of mapping calls the two-level tables stand for the flat map with the calls applied; directory entries and all other memory stay |
| Paging.LastMappingWins | src/memory/paging/paging.c:148-193 | the last call that covers a page decides its entry, linearly; an uncovered page keeps its entry |
| Mmu.WalkIsFlat | src/memory/paging/paging.c:104-126 | through a directory whose entries all carry the present, user and writable bits, a user access gets the flat map's translation, or a fault, by the flat entry alone |
| Mmu.WalkWithinFlat | src/memory/paging/paging.c:104-126 | through any directory, an access that goes through is one that the flat entry grants, to the address it says |
| PageDirectories.IdentityTranslates | src/memory/paging/paging.c:16-37 | for every flags byte all 2^32 addresses translate to themselves |
| PageDirectories.OffsetStep | src/memory/paging/paging.c:19-31 | the signed accumulator is i * 4 MiB, negative from 2 GiB on, under 32-bit wrap-around |
| PageDirectories.FillTable | src/memory/paging/paging.c:25-30 | the inner loop writes the i-th table of the identity map, also while the accumulator is negative |
| PageDirectories.DirEntry | src/memory/paging/paging.c:32 | the table's address can be read back with the mask, and each of the twelve low bits is set exactly when it is set in the flags or is the writable bit |
| PageDirectories.AddTable | src/memory/paging/paging.c:22-33 | one more table, on a frame disjoint from everything built before |
| PageDirectories.PagingNew | src/memory/paging/paging.c:16-37 | the result is non-null exactly when 1026 blocks were free, and then owns 1026 fresh pages, stands for the identity map with the given flags, and all its directory entries carry those flags and the writable bit |
| PageDirectories.FreeTables | src/memory/paging/paging.c:60-68 | the loop releases exactly the 1024 tables, found again by masking |
| PageDirectories.PagingFree | src/memory/paging/paging.c:60-71 | releases the tables, the directory and the wrapper, and no other page |
| PageDirectories.EventKeepsDirectory | src/memory/paging/paging.c:16-71 | other directories' mappings, allocations and unrelated frees leave a directory's pages, its own words and its map alone |
| PageDirectories.DirectoryLifetime | src/memory/paging/paging.c:16-71 | through every history a directory owns the pages it was built from, keeps its own words and stands for its first map with its own mapping calls applied |
| PageDirectories.LifetimeAccess | src/memory/paging/paging.c:16-193 | so at every moment of its life what the processor grants a user program, through both levels, is the identity map's entry as its own mapping calls changed it |
| PageDirectories.MappedOnlyThenFreed | src/memory/paging/paging.c:16-71 | new, then any mapping calls, then free gives the allocations back as they were |
| ProcessSpace.LoadedIsOk | src/task/process.c:209-279 | a loaded process satisfies the process invariant and holds its program, stack, task and page directory |
| ProcessSpace.MallocKeepsProc | src/task/process.c:322-352 | process_malloc keeps every slot a distinct live allocation whose pages are identity-mapped, user and writable |
| ProcessSpace.FreeKeepsProc | src/task/process.c:531-552 | process_free keeps the other slots distinct, live and mapped, and the entries of the freed pages are without flags |
| ProcessSpace.HoldingsAreLive | src/task/process.c:444-469 | everything a process in order holds is live in the heap |
| Processes.Process.FindFreeAllocationIndex | src/task/process.c:307-320 | the first empty slot, or -ENOMEM when there is none |
| Processes.Process.GetAllocationByAddr | src/task/process.c:366-375 | a slot with that pointer, or the certainty that there is none |
| Processes.Process.AllocationUnjoin | src/task/process.c:354-364 | every slot with that pointer is emptied and no other |
| Processes.Process.MapAndRecord | src/task/process.c:330-345 | maps exactly the pages of the run and records it in the first empty slot, or changes nothing |
| Processes.Process.Malloc | src/task/process.c:322-352 | null exactly when no run fits or no slot is empty, and then table, slots and directory are unchanged; otherwise a fresh run is recorded and exactly its pages are mapped |
| Processes.Process.FreeSlot | src/task/process.c:531-552 | releases that allocation, empties its slot and marks exactly its pages not present |
| Processes.Process.Free | src/task/process.c:531-552 | of an unrecorded pointer, null included, it changes nothing at all |
| Processes.Process.TerminateAllocations | src/task/process.c:377-386 | all recorded allocations are freed, all slots emptied; empty slots cost nothing |
| Processes.Process.FreeProgramData | src/task/process.c:388-417 | of an ELF process the image and the record are released, of a binary the image |
| Processes.Process.TaskFree | src/task/task.c:89-97 | releases page tables, directory, wrapper and task record |
| Processes.Process.FreeFixed | src/task/process.c:388-466 | program, stack, page tables and task are released, and nothing else |
| Processes.Process.Terminate | src/task/process.c:444-469 | releases exactly what the process holds: recorded allocations, program, stack, page tables and task |
| Processes.FreeReleasesOne | src/task/process.c:377-386 | freeing slot i releases its page on top of what the first i slots released |
| KernelRuns.LoadIsStep | src/task/process.c:209-279 | every load of an ELF file that follows no null pointer is such a step, successful or not |
| KernelRuns.StepKeepsSys | src/task/process.c:209-552 | every kernel operation keeps all processes in order and leaves the others untouched |
| KernelRuns.EveryRunKeepsProcesses | src/task/process.c:209-552 | in every run of mallocs, frees, terminations and loads by any processes, holdings stay disjoint and no process's slots, tables or translations change through another; the loads are those that succeed or end with an error code without following a null pointer |
| KernelRuns.MallocRest | src/task/process.c:322-352 | process_malloc changes only what the process itself holds |
| KernelRuns.FreeRest | src/task/process.c:531-552 | process_free changes only what the process itself holds |
| KernelRuns.OtherStepRest | src/task/process.c:322-552 | what another process does changes the allocations outside this one as it changes all of them |
| KernelRuns.TerminationConserves | src/task/process.c:377-469 | through any run, with other processes doing what they like in between, terminating a process leaves allocated exactly what it did not hold when loaded, with the changes the others made |
| KernelRuns.AloneLedger | src/task/process.c:377-469 | and if nobody else acted, exactly what it did not hold |
| KernelRuns.LoadedRest | src/task/process.c:209-279 | what a process just loaded does not hold is what was allocated before the load and its process record, so the record is all that its life leaves behind |
| Isolation.NewIsConfined | src/task/process.c:138-207 | every writable page of a new process points into its image or stack if and only if every page that a writable segment decides does, which the headers tell |
| Isolation.HeldSegmentsStay | src/task/process.c:138-164 | that is so when no writable segment has p_offset + p_memsz beyond the blocks of the image |
| Isolation.OverhangExample | src/task/process.c:154-157 | a writable segment of two pages in an image of one, whose second page points behind the image |
| Isolation.LoadedIsConfined | src/task/process.c:209-279 | the same for a process that the loader has loaded |
| Isolation.MallocKeepsConfined | src/task/process.c:322-352 | process_malloc keeps writable pages within what the process holds |
| Isolation.FreeKeepsConfined | src/task/process.c:531-552 | so does process_free, although it gives pages away |
| Isolation.AllocationIsUsable | src/task/process.c:330-345 | a user program reads and writes every page that process_malloc recorded for it, at the page's own address |
| Isolation.FreedIsGone | src/task/process.c:531-552 | after process_free any access to the freed pages faults |
| Isolation.NewPagesArePresent | src/task/process.c:138-207 | every page of a new address space is present and readable |
| Isolation.LoadedReads | src/task/process.c:209-279 | so a loaded program reads, at every address, where its address space says |
| Isolation.StackIsUsable | src/task/task.c:99-121 | what a program pushes from its first stack pointer on lands in its own stack pages, from their top down, for all 16 KiB |
| Isolation.EveryRunStaysConfined | src/task/process.c:209-552 | processes confined when loaded stay confined through every run of all processes |
| Isolation.WritesStayHome | src/task/process.c:209-552 | no user write that the processor lets through, to any address, reaches what another process holds, a page table or directory, its own included, or memory nobody holds |
| ElfMapping.MapElf | src/task/process.c:138-164 | segments are mapped in order; success exactly when every mapping call is accepted |
| ElfMapping.MapMemory | src/task/process.c:177-207 | on success the directory stands for the old map with all segments and then the stack mapped; otherwise with the segments before the first refused one |
| ElfMapping.CongruentCovers | src/task/process.c:138-164 | under the ABI's congruence the mapped pages cover every byte of the segment if and only if its image ends below the last page of memory |
| ElfMapping.SegmentTranslates | src/task/process.c:138-164 | byte k of a segment not overlapped later translates to elf_memory + p_offset + k, modulo 2^32, if and only if p_vaddr and the image address are congruent modulo 4096; its page is writable exactly when PF_W is set |
| ElfMapping.MisalignedSegmentExample | src/task/process.c:138-164 | a concrete header without that congruence, whose first byte appears 16 bytes too early |
| ElfMapping.StackTranslates | src/task/process.c:199-204 | the 16 KiB stack range translates byte for byte to process->stack, writable, whatever the segments |
| Loading.Acquire | src/memory/heap/kheap.c:36-43 | null exactly when the request is the first to find no room; a granted allocation is a new one at the block the scan finds, and only free frames were written |
| Loading.AcquiredInTwo | src/task/process.c:209-279 | what two stretches of work acquire is new and disjoint |
| Loading.ElfLoad | src/loader/format/elfloader.c:177-214 | a null pointer is followed exactly when one of the two unchecked allocations finds no room; otherwise the image holds the file and nothing else was written |
| Loading.TaskNew | src/task/task.c:99-209 | a null pointer is followed exactly when the task finds no room or fewer than 1026 blocks are free after it; otherwise the new page directory is the identity on frames nobody held |
| Loading.MapProcess | src/task/process.c:177-207 | accepted or not, mapping the segments and the stack writes only the new task's own tables |
| Loading.OneCourse | src/memory/heap/heap.c:158-219 | the table a load begins with determines which requests are granted, where, and the tables they leave |
| Loading.LoadForSlot | src/task/process.c:209-279 | which loads follow an unchecked null pointer, by fits and free blocks of the tables alone; any other ends with -ENOMEM with the heap as the granted requests leave it, or -EINVARG exactly when a segment is refused, with the task freed again, or a process in order at the pages its requests got, built from pages nobody held, with its image holding the file and its address space mapped |
| Loading.NullImageExample | src/loader/format/elfloader.c:196-197 | eight free blocks: the records are granted, a file of 20480 bytes finds no room, and the stack still would, so the load goes on with a null image |
| Loading.ProgramSeesFile | src/task/process.c:138-164 | so the loaded program finds byte p_offset + k of its file at p_vaddr + k |
| ProcessTable.Table.GetFreeSlot | src/task/process.c:166-175 | the least empty slot, or -EISTKN when all are taken |
| ProcessTable.Table.LoadSwitch | src/task/process.c:281-305 | a loaded process gets the first empty slot, which becomes its id, and becomes current; a full table and a failed load change nothing, with the exact result code |
| ProcessTable.Table.SwitchToAny | src/task/process.c:419-432 | the process in the least occupied slot becomes current, or the kernel panics exactly because there is none |
| ProcessTable.Table.Unlink | src/task/process.c:434-442 | exactly the slot that the id names is cleared; the panic condition; the table's invariant survives if and only if the slot did not meanwhile belong to the current process |
| ProcessTable.UnlinkedTwice | src/task/process.c:434-442 | load, load, unlink the second, load a third, unlink the second again: the running process is in no slot |
| TaskPages.FlatDeterminesTables | src/memory/paging/paging.c:104-126 | a directory frame and its flat map determine every word of its tables |
| TaskPages.CopyStringFromTask | src/task/task.c:52-87 | the kernel's buffer receives the string at the user's address as the task's own tables translate it, cut to max - 1 bytes, with its terminator, unless a byte of it lies in the borrowed page or in those tables; a fault exactly at a page that is not present; otherwise directory, tables and heap table end as they were, whatever the string; the exact result code |
| Isolation.OwnTextAvoids | src/task/task.c:52-87 | a string that lies in the process's own allocations, image or stack stays clear of the page tables and of the borrowed page, so that its copy is exactly described |
| UserText.SameText | src/task/task.c:67-72 | borrowing a page and mapping it does not change a string that stays clear of it and of the page tables |
| UserText.CopyThrough | src/string/string.c:110-123 | strncpy through the task's page tables delivers exactly that text, even though it writes memory while it reads |
| UserText.CopyToKernel | src/string/string.c:110-123 | strncpy from the borrowed page delivers the bytes before the first zero, a terminator, and nothing else |
| TaskList.AddKeepsWellFormed | src/task/task.c:173-209 | adding behind the tail keeps a doubly linked list well-formed and appends the task |
| TaskList.RemovalIsExact | src/task/task.c:29-50 | on any list the task leaves if and only if it is the head or its back link is right, and no other task leaves |
| TaskList.RemoveFromWellFormed | src/task/task.c:29-50 | on a well-formed list removal deletes exactly that task with head, tail and current right; only the successor's back link is stale |
| TaskList.RemoveLastKeepsWellFormed | src/task/task.c:29-50 | the list is well-formed again if and only if the removed task was the last |
| TaskList.SuccessorStaysBehind | src/task/task.c:29-50 | removing a task and then its former successor deletes the second only if the first was the head |
| TaskList.SelectedIsRotation | src/task/task.c:19-27 | n consecutive switches select the tasks in forward order around the ring |
| TaskList.RoundRobin | src/task/task.c:19-27 | n consecutive switches select every task exactly once and end where they started |
| Tasks.Scheduler.GetNext | src/task/task.c:19-27 | the successor in forward order, or the head behind the last |
| Tasks.Scheduler.TaskNew | src/task/task.c:173-209 | the linked fields implement the abstract insertion; the new record holds the entry point, the user segments, the stack top and zeros; the list stays in order if and only if the task does not get into it or no listed task's stale back link names its address |
| Tasks.ChainedDrop | src/task/task.c:29-50 | when the back link is right or the task is the head, the one write through it leaves a chain of exactly the other tasks |
| Tasks.ChainedMissed | src/task/task.c:29-50 | when the back link is stale the write misses the chain, which stays as it was with the task in it |
| Tasks.Scheduler.ListRemove | src/task/task.c:29-50 | the linked fields implement the abstract removal, stale back links included |
| Tasks.Scheduler.SwitchToNext | src/task/task.c:154-164 | the next task becomes current and nothing else changes |
| Tasks.RemoveMatches | src/task/task.c:29-50 | head, tail and current after the pointer writes are those of the abstract removal |
| Traps.Kernel.CurrentSaveState | src/task/task.c:221-268 | only the running task's record is written, and each of its twelve fields is the frame's field of that name |
| Traps.Kernel.InterruptHandler | src/idt/idt.c:29-75 | by interrupt number, what happens to records, list, running task and process table, and exactly when the kernel panics: the clock runs the next task, an exception ends the running one, and the task that runs then is named by its place in the old list; gates 0 and 0x80 have handlers of their own |
| Traps.Kernel.Isr80hHandler | src/idt/idt.c:169-177 | what each system call does to records, list and running task, for every way a load can end; after an exit the task that runs is named by its place in the old list |
| Traps.Kernel.Load | src/isr80h/process.c:39-71 | a load that is refused changes nothing; one that is undone, or whose arguments cannot be stored, leaves a new record without a switch; otherwise the new task runs |
| Traps.Kernel.Undo | src/task/process.c:268-277 | a task that is linked and freed again passes through the list as insertion and removal |
| Traps.UndoneLeavesList | src/task/process.c:268-277 | on a well-formed list that leaves everything as it was |
| Traps.Kernel.TerminateProcess | src/task/process.c:444-469 | the running task leaves the list and its process the table; the kernel panics exactly if that process was the current one and the table is then empty |
| Traps.Kernel.TerminateCurrent | src/idt/idt.c:52-57 | exit and exceptions move the list on twice unless the kernel panics in between: of two tasks the other one runs, of three or more the one behind the successor; with no task left and no panic, task_next has no task to go on from |
| Traps.ExitSkipsSuccessor | src/idt/idt.c:52-57 | because removal already advances, the dead task's successor runs next if and only if there were two tasks; with three or more it is passed over and the one behind it runs |
| Traps.RecordsAreFaithful | src/idt/idt.c:29-43 | in every run of traps the saved record of each task that is not running holds, field by field, the frame of its last interrupt, or the start of its creation, switched to or not |
| Streamer.DiskStream.CopyOut | src/disk/streamer.c:60-69 | the copy loop writes exactly that part of the sector buffer |
| Streamer.DiskStream.ReadSector | src/disk/streamer.c:46-69 | the part of a request within one sector |
| Streamer.DiskStream.Read | src/disk/streamer.c:46-79 | the bytes disk[pos..pos+total) and nothing else are copied, the position advances by total, the sectors from pos/512 to (pos+total)/512 are read exactly once each in order; it fails exactly when the sector that holds the end position is not on the disk |
| Streamer.CopiedIsFlatSlice | src/disk/streamer.c:60-69 | such a copy leaves the buffer's beginning, the flat slice of the disk, and the buffer's rest |
| Fat16.GetClusterForOffset | src/fs/fat/fat16.c:316-358 | the offset / cluster-size-th cluster of the chain, or an error where the chain stops |
| Fat16.WalkFollowsChain | src/fs/fat/fat16.c:316-358 | on any chain of table entries the walk gives its n-th cluster, and an error from the first marker on |
| Fat16.ClustersInRow | src/fs/fat/fat16.c:269-272 | cluster 2 begins where the root directory ends, and each next cluster one cluster size later |
| Fat16.ClustersTile | src/fs/fat/fat16.c:269-272 | so every byte behind the root directory lies in exactly one cluster, at exactly one place |
| Fat16.PiecesAre | src/fs/fat/fat16.c:360-398 | a request is served in one piece for each cluster's worth its bytes reach into, of the bytes that lie there; an empty request in one |
| Fat16.ReadInternal | src/fs/fat/fat16.c:360-405 | success exactly when the chain has a cluster for every piece and the sectors are on the disk; each byte comes from its piece's place in that cluster; nothing else in the buffer is written, whether it succeeds or not |
| Fat16.ReadIsExact | src/fs/fat/fat16.c:360-398 | a delivered byte is the file's byte if and only if its piece does not cross its cluster's end, or the next cluster of the chain is the next on disk |
| Fat16.CrossingReadExample | src/fs/fat/fat16.c:376 | on a file that goes from cluster 2 to cluster 5, 512 bytes from offset 256 end in cluster 3 |
| Fat16.AlignedReadIsFileSlice | src/fs/fat/fat16.c:360-398 | a read from a cluster boundary or inside one cluster is exactly that slice of the cluster chain |
| Fat16.Read | src/fs/fat/fat16.c:622-643 | all records are delivered one behind the other, or the read fails; exactly when |
| Fat16.WholeFileRead | src/fs/fat/fat16.c:622-643 | the loader's single whole-file read is the file, byte for byte |
| Fat16.FirstClusterFile | src/fs/fat/fat16.c:622-643 | a file that fits cluster 2 is the beginning of the data area behind the root directory |
| Strtok.SpansAreTheTokens | src/programs/stdlib/src/string.c:128-184 | the spans are exactly the maximal non-empty stretches without delimiters |
| Strtok.SpansAreOrdered | src/programs/stdlib/src/string.c:128-184 | they come in text order, separated by at least one delimiter |
| Strtok.Tokenizer.MatchDelim | src/programs/stdlib/src/string.c:148-156 | the inner loop finds a delimiter exactly when the character is one |
| Strtok.Tokenizer.Strtok | src/programs/stdlib/src/string.c:128-184 | the returned token, the new static position and the one NUL written, in every case of null arguments and exhausted text |
| Command.CopyIn | src/programs/stdlib/src/string.c:112-126 | strncpy keeps the first min(length, count - 1) characters, writes the terminator behind them, and nothing else |
| Command.CopyOut | src/programs/stdlib/src/string.c:112-126 | the same cut of a token out of the tokenised buffer |
| Command.TokensStep | src/programs/stdlib/src/string.c:128-184 | one call peels exactly the first token off the tokens of the text |
| Command.TokenTaken | src/programs/stdlib/src/string.c:128-184 | although earlier calls have overwritten delimiters, the call takes the first token of the original text and leaves the rest unread |
| Command.NextToken | src/programs/stdlib/src/string.c:128-184 | a call returns the next token of the original text |
| Command.UntilNull | src/programs/stdlib/src/string.c:128-184 | from a null position, calling until null yields exactly the tokens of the text for all delimiters, and the position is null again |
| Command.ParsingUndoesJoining | src/programs/stdlib/src/bimbleos.c:50-95 | the words parsed from a line of at most 1023 characters are the words that were joined with blanks to make it |
| Command.Link | src/programs/stdlib/src/bimbleos.c:84-90 | the list is extended by one node at its end, all arguments kept |
| Command.ParseCommand | src/programs/stdlib/src/bimbleos.c:50-95 | the linked list holds the words of the first 1024 characters, each cut to 511, as far as allocations go; strtok's position is null again exactly if they sufficed |
| Command.WhatIsKept | src/programs/stdlib/src/bimbleos.c:50-95 | the words are the tokens between blanks of the first 1024 characters, and of each word the first 511 are kept |
| Command.CountArguments | src/task/process.c:477-488 | the length of the linked list |
| Command.CopyArguments | src/task/process.c:507-522 | argv is the list's strings cut to 511 characters, or the call fails for memory |
| Command.InjectArguments | src/task/process.c:490-529 | the exact result code; argc and argv are set completely or not at all |
| Command.SystemRun | src/programs/stdlib/src/bimbleos.c:97-108 | parsing followed by injection gives argc and argv equal to the words of the line, each cut to 511 characters |
| Paths.JoinOfSplit | src/fs/pparser.c:38-62 | the components between slashes, joined again, are the text |
| Paths.NoComponentHasSlash | src/fs/pparser.c:38-62 | and none of them contains a slash |
| Paths.SplitOfJoin | src/fs/pparser.c:38-62 | and splitting a joined list of slash-free components gives the list back |
| Paths.PartsAreLongestPrefix | src/fs/pparser.c:106-143 | the parts kept are the longest prefix of the components in which none is empty |
| Paths.ParsingUndoesPrinting | src/fs/pparser.c:106-143 | parsing undoes printing for every drive digit and all non-empty slash-free components within 108 characters |
| Paths.RefusedPaths | src/fs/pparser.c:106-120 | a path is refused exactly when it has more than 108 characters or does not begin with a digit, a colon and a slash; otherwise the digit is the drive |
| Paths.PartsFit | src/fs/pparser.c:38-62 | no part is longer than what follows the drive prefix, 105 characters at most |
| PathParser.GetPathPart | src/fs/pparser.c:38-62 | the component at the cursor in one block of its own, or no block kept when it is empty; the new cursor; a write through null exactly when there is a component and no block |
| PathParser.CopyComponent | src/fs/pparser.c:38-48 | the copy is the component and fits its 108-byte buffer with the terminator |
| PathParser.ParsePathPart | src/fs/pparser.c:65-83 | a new node behind the last, in two fresh blocks, or nothing kept; a write through null exactly when two blocks are not there |
| PathParser.Parse | src/fs/pparser.c:106-143 | a bad path allocates nothing and returns null; otherwise the drive and the list of parts, in exactly the blocks recorded; a write through null exactly when the heap has fewer free blocks than one and two for each part |
| PathParser.Free | src/fs/pparser.c:85-97 | the heap table is what it was without the list's blocks |
| PathParser.ParseAndFree | src/fs/pparser.c:85-143 | for every path and heap, parse then free restores the heap table unless the parse writes through null |
| Keyboard.CounterIndex | src/keyboard/keyboard.c:47-50 | the free-running 32-bit counters give right slots also across their wrap, because 1024 divides 2^32 |
| Keyboard.NonZeroSlots | src/keyboard/keyboard.c:69-105 | the non-zero slots are exactly those between head and tail |
| Keyboard.PushStands | src/keyboard/keyboard.c:69-85 | a push keeps buffer and counters standing for a queue, now with the character behind it, if and only if the ring was not full |
| Keyboard.PopStands | src/keyboard/keyboard.c:87-105 | a pop answers as the queue does and leaves the rest of the queue |
| Keyboard.BackspaceStands | src/keyboard/keyboard.c:52-57 | a backspace removes the newest character, and keeps the ring standing for a queue if and only if it was not empty |
| Keyboard.Ring.Push | src/keyboard/keyboard.c:69-85 | the slot and the counter written, on any ring; on one that stands for a queue it appends, ignores zero, and breaks exactly when it was full |
| Keyboard.Ring.Pop | src/keyboard/keyboard.c:87-105 | the slot cleared and the counter, on any ring; on one that stands for a queue it returns and removes the oldest character, or zero |
| Keyboard.Ring.Backspace | src/keyboard/keyboard.c:52-57 | the slot cleared and the counter, on any ring; on one that stands for a queue it removes the newest character, and breaks exactly when it was empty |
| Keyboard.PushOverFull | src/keyboard/keyboard.c:82-84 | on every full ring the next pop answers the character just pushed, the newest instead of the oldest |
| Keyboard.BackspaceOnEmpty | src/keyboard/keyboard.c:52-57 | on every empty ring a backspace makes the next character disappear |
| Keyboard.FullRingExample | src/keyboard/keyboard.c:82-84 | a ring of 1024 times 'a' in which the slot that pop reads next holds the 'b' pushed last |
| Keyboard.Replay | src/keyboard/keyboard.c:47-105 | every run within the limits behaves as the queue: same answers, same contents |
| Itoa.ParsesBack | src/programs/stdlib/src/stdlib.c:4-34 | the numeral is canonical, without leading zeros, and parses back to the integer |
| Itoa.OnlyNumeral | src/programs/stdlib/src/stdlib.c:4-34 | it is the only canonical numeral of its value |
| Itoa.FitsBuffer | src/programs/stdlib/src/stdlib.c:6-8 | with its terminator it fits 12 bytes, for every 32-bit integer |
| Itoa.WriteDigits | src/programs/stdlib/src/stdlib.c:17-21 | the loop on non-positive values writes the digits of the magnitude, every intermediate a 32-bit integer |
| Itoa.Itoa | src/programs/stdlib/src/stdlib.c:4-34 | the buffer holds exactly the numeral with its terminator, the minimum included |
| Words.PageBaseIsMask | src/memory/paging/paging.c:65 | rounding down to a page is the bitwise mask 0xfffff000 |
| Words.OrWordIsOr | src/memory/paging/paging.c:154 | joining a page address and flags by addition or by the bitwise or is the same on the words used |
| Words.OrBits | src/memory/paging/paging.c:32 | that or sets a bit exactly when one of the words has it |
| Words.AndBits | src/memory/paging/paging.c:65 | and the mask keeps a bit exactly when both have it |

## Left out

- Processes.Process.Malloc: requires a safe request. Outside that, the heap hands out a run that is too short and its table no longer stands for any set of allocations (`HeapTable.SafeRequestIsExact`), so no invariant of processes survives.
- Heap.BlockHeap.MarkBlocksTaken: reports a write beyond the table instead of performing it; what such a write destroys is not modelled.
- Heap.BlockHeap.Create: the heap structure holds its table as an array of the right length; the table's own memory at a fixed address is not part of the heap's memory here.
- Traps.Kernel.Isr80hHandler: how a load ends, and the new task's address and entry point, are parameters; the address is one that no stale link names (`Tasks.Scheduler.TaskNew` says what happens otherwise); a load that follows a null pointer is not among the ends; other commands only resume, as far as records and the running task are concerned.
- TaskPages.CopyStringFromTask: of a string that runs into the borrowed page or the task's own page tables the text is not described; after a fault nothing is; a non-positive size is excluded.
- Streamer.DiskStream.Read: a sector beyond the end of the disk is a read error (how the drive reports it is hardware), and after one the position and the bytes already copied are not described; the read succeeds exactly if the sector holding the end position exists, even when no byte of it is wanted.
- Fat16.ReadInternal: the table lookup is a successor function. The real lookup multiplies where an offset should be added, and the chain-end markers are 12-bit values, so this is about the walk, not about the format; the walk is modelled with the code's own markers. The positions of the clusters that a request visits must be non-negative `int`s.
- Strtok.Tokenizer.Strtok: the static position is null or an index of the one buffer in use; a position left pointing into a dead stack buffer, which happens exactly when `Command.ParseCommand` runs out of memory, is not followed further.
- Command.CopyArguments: the success of process_malloc is a count of allocations that succeed; their memory is not linked to the process's slots.
- Command.InjectArguments: treats process_malloc the same way.
- Command.ParseCommand: the 512 bytes of an argument are the C string in them; the success of malloc is a count of allocations that succeed.
- Command.SystemRun: loading the program is a result code; passing the list's address to the kernel and the path built from the program name are not modelled.
- PathParser.Parse: after a write through a null pointer nothing is promised; the text of a part is the C string in its buffer. The unused second argument is dropped.
- Keyboard.Ring.Push: there is always a current process and task; without one push and pop do nothing.
- Loading.LoadForSlot: the five requests before paging_new must be safe, as far as they are reached. Once a null pointer has been followed nothing is promised; what the code then does can look like success, with the image at address 0. Opening the file and parsing its headers are inputs, with the allocations they make. What is stored in the records of process, file and task is not written to memory; the removal of an undone task from the list is `Traps.Kernel.Undo`.
- KernelRuns.EveryRunKeepsProcesses: loads that follow a null pointer are not among the operations; two processes whose images found no room would share address 0.
- Isolation.WritesStayHome: about writing only; the identity map leaves reading open to every ring. The walk is that of a user access through current entries; stale translations in the processor are not modelled.
- KernelRuns.TerminationConserves: conservation is claimed for a process's life and its teardown; the process record and the parsed path that fopen never frees are not part of what a process holds.
- Processes.Process.TaskFree: removing the task from the list is `Tasks.Scheduler.ListRemove`.
- Processes.Process.Terminate: unlinking the process from the table is `ProcessTable.Table.Unlink`; both together are `Traps.Kernel.TerminateProcess`.
- ProcessTable.Table.LoadSwitch: the result of the load itself is a parameter.
- Binary processes: process_load_binary never sets `filetype`, so mapping is modelled for ELF processes; teardown covers both branches.
- The memory of task and process records is accounted for in the process modules and is not linked to the records of `Tasks` and `Traps`.
- Restoring registers and entering user mode is assembly; claims are about the saved records.
- Boot code, port I/O, ATA transfer and the interrupt stubs: hardware. The disk is a byte sequence.
- Terminal, printf, shell, demo programs, the scancode table and caps lock: no invariant beyond single statements.
- Packing of GDT and IDT entries: straight-line bit operations.
- ELF header checks and address bounds: the parsed program headers are the input of the mapping property.
- File descriptors, filesystem dispatch, FAT16 header parsing, directory listing and file-name lookup: counting skips deleted entries while lookup does not, so no clean property holds.
- memset, memcpy and memcmp appear only as the effect they have where they are called.
