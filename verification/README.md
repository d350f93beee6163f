# Verified model of the FOS kernel

FOS is a teaching kernel for 32-bit x86. This project models its memory, paging and scheduling state machines in
Dafny 4.11 and proves what holds over every call and every run. `dafny verify dfyconfig.toml` checks all of it.

| file | models |
|---|---|
| Layout, Lists, PageTables | constants and integer types, kernel lists as sequences, two-level page tables as values |
| FramePool, FrameRuns | reference counts, free list and modified list against the page tables, step by step and over runs |
| Memory | the class that owns frames, tables and the kernel heap: kern/memory_manager.c and kern/kheap.c |
| WorkingSet, ModifiedClock, PageFault, CycleDetect | working set, victim search, page_fault_handler and the loop detector: kern/trap.c |
| PageFile | disk frames and disk tables, and the map they implement: kern/file_manager.c |
| Loader | segments into page file and memory: kern/user_environment.c |
| UserHeap, HeapSystem | next fit in lib/uheap.c, and malloc and free down to page file, working set and page table |
| IntrusiveList, Scheduler | the list macros of inc/queue.h; environments, round robin and its run-time checker |
| LruAging, StabSearch, NumberFormat | aging stamps, stab binary search, number printer against parser |
| Witnesses | runs of these operations into the states that the code does not recover from |

Pages, not addresses, index tables: page p is the address p * 4096. Unsigned 32-bit arithmetic is either proved not to
wrap, by the subset type `uint32`, or written out where it does (ROUNDUP, USER_PAGES_WS_MAX, the loader's remaining
length, addr++ in the stab search, strtol). A panic is an out-parameter or a precondition, a tick is one call, and the
disk is a sequence of pages. Lists are sequences in most modules; IntrusiveList proves the pointer macros to be those
sequence operations.
The page-table format is that of section 4.3 of the Intel 64 and IA-32 Architectures Software Developer's Manual,
Volume 3A.

The parameters the kernel takes from elsewhere: the number of frames, the end of the kernel image and its boot tables
(`Boot`), the first contents of the disk and of the zero page's frame (`Initialize`), the number of environments, the
modified-list length at which a flush starts, the bytes of a program file, and whether `kheap_virtual_address` finds a
disk table (`reached`).

Where the code is stronger or weaker than its comments, the model follows the code:

- The comment on `stab_binsearch` says an address below every stab leaves left > right. It does so only if the first
  stab opens the region; otherwise left keeps its value and right is the entry before that stab (`StabSearch.Answer`).
  A second stab within four bytes of an exact match misleads the search unless it was compared before, as addr++ moves
  a pointer (`StabSearch.AnswersExactly`).
- `initialize_paging` clears 1024 of the 4096 bytes of the zero page, so "zero" pages are zero only if the rest of
  that frame was at boot (`PageFile.ZeroPageIsZero`, `Loader.WrittenIsRight`).
- `unmap_frame` and `map_frame` do not look at the buffered bit. Unmapping a buffered page, as `free` of a block with an
  evicted page does, frees a frame that is still listed, and a second insertion makes the list run in a circle
  (`IntrusiveList.List.InsertHead`); a fault on a buffered page while the working set has room maps over it, and its
  frame is never freed. `Ok` is lost exactly then (`FramePool.UnmapExactly`, `FramePool.MapExactly`,
  `FrameRuns.BufferedPagesBreak`, `Witnesses.EvictThenFree`). What survives is `Tallied`, by which no frame is freed
  while an entry holds it, and all that is said of page file, working set and page table. `Tallied` lasts up to the next
  `allocate_frame`: with a frame twice on the list the second one to take it clears a count in use
  (`FramePool.AllocateKeepsAtLeast`). Once the lists are tangled their sequences no longer stand for the chains of
  pointers.
- The product in USER_PAGES_WS_MAX wraps, so USTACKBOTTOM lies lower than its parts suggest (`PageFault.StackBottom`).
- The loader writes a last file page even if the file ends at a page boundary; loaded before a neighbour that
  starts there this is harmless, loaded after it this destroys the neighbour's first page (`Loader.LoadsExactly`,
  `Loader.BackwardLoses`).
- A user-heap request can be refused although a large enough run is free, exactly when every such run straddles the
  cursor (`UserHeap.NullDespiteRoom`, `UserHeap.EmptyHeapRefuses`).
- With the cursor at the end of the kernel heap the search never notices that it has gone around: it ends only at a
  run, so on a full heap it goes on forever (`Memory.StopsExactly`, `Witnesses.HeapIsFull`), and a request larger than
  an empty heap gets a block that ends before it should.
- A kernel-heap block that would cross the end of the heap maps nothing, but `kmalloc` returns its address
  (`Witnesses.HeapEndIsLost`).
- `kheap_virtual_address` looks below the cursor only, so it inverts `kheap_physical_address` only there, and user page
  tables and disk tables above the cursor are not found; the same run ends with such a block.
- `allocateMem` ignores a full page file, and `pf_free_env` forgets the frames of pages above USER_TOP
  (`Witnesses.FrameIsForgotten`).
- `sched_exit_env` loses an environment that is still in NEW (`Witnesses.EnvironmentIsLost`), and it reads `curenv`
  without looking whether it is NULL, which is therefore a precondition.
- A preempted environment goes back to the ready queue with the status it ran with, RUNNABLE.

## Model

| member | source | states |
|---|---|---|
| FrameRuns.EveryRunAccounts | FOS_PROJECT_2022_Term2_Template/kern/memory_manager.c:330-393 | After any run of allocate, map, unmap, permission, buffer and restore steps from boot, every frame's references equals its boot reference plus the number of non-zero table entries that hold it; at zero and in nobody's hands it is on the free list exactly once; mapped it is on no list. |
| FrameRuns.StepKeepsOk | FOS_PROJECT_2022_Term2_Template/kern/memory_manager.c:422-475 | Each primitive step, under the guard the code relies on, leads from a state in which the counting, listing and flagging invariant holds to another one; the step relation itself says nothing of the invariant. |
| FrameRuns.BufferedPagesBreak | FOS_PROJECT_2022_Term2_Template/kern/memory_manager.c:584-675 | Four steps from boot lead to a buffered page whose unmapping, and over which mapping another frame, both break the invariant. |
| FramePool.AllocateKeepsOk | FOS_PROJECT_2022_Term2_Template/kern/memory_manager.c:422-447 | Taking the head of the free list keeps the invariant, and that frame has no reference and no holder. |
| FramePool.MapExactly | FOS_PROJECT_2022_Term2_Template/kern/memory_manager.c:584-622 | Counting a reference and filling an absent entry keeps the invariant if and only if the entry was 0 and the frame is not buffered; over a buffered entry the frame that waits there is left with a reference nothing accounts for. |
| FramePool.UnmapExactly | FOS_PROJECT_2022_Term2_Template/kern/memory_manager.c:662-675 | Clearing any entry and dropping its reference keeps the invariant if and only if the entry is not buffered or boot holds another reference to its frame; otherwise a listed frame goes on the free list once more. |
| FramePool.AllocateKeepsAtLeast | FOS_PROJECT_2022_Term2_Template/kern/memory_manager.c:422-447 | allocate_frame keeps every frame counted at least as often as it is held if and only if nothing holds the head of the list: on a list that has a frame twice it clears a count in use. |
| FramePool.VictimKeepsOk | FOS_PROJECT_2022_Term2_Template/kern/trap.c:563-581 | A page that is marked buffered and listed by its modified bit keeps the invariant. |
| FramePool.RestoreKeepsOk | FOS_PROJECT_2022_Term2_Template/kern/trap.c:583-589 | A buffered page that becomes present again and leaves its list keeps the invariant. |
| Memory.Memory.Boot | FOS_PROJECT_2022_Term2_Template/kern/memory_manager.c:330-393 | initialize_paging establishes the invariant: the free list is the frames above the kernel and those of base memory from 0x3000 up to 0xA0000, in the order the code inserts them. |
| Memory.Memory.AllocateFrame | FOS_PROJECT_2022_Term2_Template/kern/memory_manager.c:422-447 | The head of the free list goes to the caller; it has no references, and nothing else changes. |
| Memory.Memory.DecrementReferences | FOS_PROJECT_2022_Term2_Template/kern/memory_manager.c:471-475 | One reference less, and the frame is freed, at the head of the list, exactly when none is left. |
| Memory.Memory.GetPageTable | FOS_PROJECT_2022_Term2_Template/kern/memory_manager.c:486-535 | Finds exactly the table the directory entry names, if there is one and, for a user table, the kernel-heap page that maps it lies below the cursor; NULL otherwise. |
| Memory.Memory.GetFrameInfo | FOS_PROJECT_2022_Term2_Template/kern/memory_manager.c:631-647 | The entry of the page and its table, 0 when either is missing or the table is out of reach. |
| Memory.Memory.MapFrame | FOS_PROJECT_2022_Term2_Template/kern/memory_manager.c:584-622 | Same frame again: nothing changes. Another frame: the old one is unmapped and the new one counted. No table: one is created first. Every other page of every directory keeps its entry. The invariant holds if and only if the page and the frame were not buffered, and no frame is ever counted below its holders. |
| Memory.RemapCounts | FOS_PROJECT_2022_Term2_Template/kern/memory_manager.c:584-622 | The new frame gains a reference and the old one loses it; when that was its last the old frame is the next to be allocated. |
| Memory.Memory.UnmapFrame | FOS_PROJECT_2022_Term2_Template/kern/memory_manager.c:662-675 | The entry becomes 0 and its frame loses one reference, unless its table is out of reach; every other page keeps its entry; the invariant holds if and only if the frame was not freed while listed, and even then no frame is counted below its holders. |
| Memory.Memory.CreatePageTable | FOS_PROJECT_2022_Term2_Template/kern/memory_manager.c:538-562 | A fresh frame, mapped at a new kernel-heap page that is present, writeable and not the user's, becomes a table of zeros that the directory entry points to. |
| Memory.Memory.GetPagePermissions | FOS_PROJECT_2022_Term2_Template/kern/memory_manager.c:1256-1287 | The permissions of the page's entry, none without a table. |
| Memory.Memory.SetPagePermissions | FOS_PROJECT_2022_Term2_Template/kern/memory_manager.c:1167-1210 | Sets and clears permission bits of one entry and gives no frame another holder; the invariant survives when the page stays present. |
| Memory.Memory.BufferPage | FOS_PROJECT_2022_Term2_Template/kern/trap.c:563-581 | The victim's entry loses PRESENT and gains BUFFERED, no other bit moves, and its frame goes to the end of the modified list or of the free list by its modified bit. |
| Memory.Memory.RestorePage | FOS_PROJECT_2022_Term2_Template/kern/trap.c:583-589 | A buffered page gains PRESENT and loses BUFFERED, no other bit moves, and its frame leaves the list it waited on. |
| FramePool.ComesBack | FOS_PROJECT_2022_Term2_Template/kern/trap.c:563-589 | Buffering a page and restoring it gives back its bits, the frame flags and both lists as they were. |
| Witnesses.EvictThenReturn | FOS_PROJECT_2022_Term2_Template/kern/trap.c:517-600 | A page that a replacement evicts and the next fault brings back has the frame it had and exactly the bits the victim search left it; counts, flags and lists are as before the two. |
| Memory.Memory.MapForUpdate | FOS_PROJECT_2022_Term2_Template/kern/file_manager.c:275-287 | The temporary mapping at USER_LIMIT leaves reference counts, free list and page tables exactly as they were, also for a buffered frame. |
| Memory.Memory.SearchHeap | FOS_PROJECT_2022_Term2_Template/kern/kheap.c:19-36 | The walk stops at the first run of unmapped pages in circular order from the cursor, and says NULL only if there is none; with the cursor at the end of the heap it never says NULL. |
| Memory.StopsExactly | FOS_PROJECT_2022_Term2_Template/kern/kheap.c:23-36 | With the cursor at the end of the heap the search ends if and only if there is a run of unmapped pages long enough, across the end of the heap or not. |
| Witnesses.HeapIsFull | FOS_PROJECT_2022_Term2_Template/kern/kheap.c:23-36 | One kmalloc of the whole heap after boot leaves the cursor there, and no further request of any size ever returns. |
| Memory.Memory.Kmalloc | FOS_PROJECT_2022_Term2_Template/kern/kheap.c:19-85 | The first run of unmapped pages from the cursor gets fresh frames in free-list order, from its first page to its last, each present, writeable and out of the user's reach, unless it begins below the end of the heap and ends above it: then nothing is mapped, yet its address is returned. The cursor moves behind the block. |
| Memory.MappedForKernel | FOS_PROJECT_2022_Term2_Template/kern/kheap.c:38-43 | Every page that the mapping loop of kmalloc fills is PRESENT and WRITEABLE and not USER. |
| Memory.Memory.Kfree | FOS_PROJECT_2022_Term2_Template/kern/kheap.c:87-113 | The newest block recorded at the address is unmapped and every page outside it keeps its entry; an unknown address changes nothing. |
| Memory.Memory.KheapVirtualAddress | FOS_PROJECT_2022_Term2_Template/kern/kheap.c:115-133 | The heap page below the cursor that maps the frame, 0 if there is none. |
| Memory.Memory.KheapPhysicalAddress | FOS_PROJECT_2022_Term2_Template/kern/kheap.c:135-150 | The frame address of the entry, 0 without a table. |
| Memory.Memory.KheapRoundTrip | FOS_PROJECT_2022_Term2_Template/kern/kheap.c:115-150 | kheap_virtual_address gives a mapped heap address back exactly if it is page aligned and below the cursor. |
| Witnesses.HeapEndIsLost | FOS_PROJECT_2022_Term2_Template/kern/kheap.c:19-133 | After boot, three allocations and a free, kmalloc returns an address at which nothing is mapped, and kheap_virtual_address no longer finds a block that is. |
| Memory.HeapStaysInjective | FOS_PROJECT_2022_Term2_Template/kern/kheap.c:38-43 | No frame ever sits at two heap pages, because every mapping there takes a frame that no entry holds. |
| Memory.Memory.CreateUserDirectory | FOS_PROJECT_2022_Term2_Template/kern/user_environment.c:239-248 | A fresh frame, mapped at a new kernel-heap page, becomes a directory without user tables that shares the kernel's. |
| ModifiedClock.FindVictim | FOS_PROJECT_2022_Term2_Template/kern/trap.c:517-561 | The nested search stops at the one page whose (used, modified) pair is least, first in order from the hand; it takes exactly the used bits it passed in its second-pass sweeps, no modified bit, and counts its inspections. |
| ModifiedClock.BitsTaken | FOS_PROJECT_2022_Term2_Template/kern/trap.c:537-559 | The search takes no bit but the used one: none if the victim was neither used nor modified, those between hand and victim if it was only modified, all of them if it was used. |
| ModifiedClock.VictimIsUnique | FOS_PROJECT_2022_Term2_Template/kern/trap.c:517-561 | There is only one such page. |
| ModifiedClock.SearchIsBounded | FOS_PROJECT_2022_Term2_Template/kern/trap.c:517-561 | The inspections are at most 3n + 1. |
| ModifiedClock.SecondPass | FOS_PROJECT_2022_Term2_Template/kern/trap.c:537-559 | One round of the inner loop: it takes used bits up to the first page without one, which it finds if there is one. |
| PageFault.Placement | FOS_PROJECT_2022_Term2_Template/kern/trap.c:451-473 | A fresh frame is mapped and the first empty slot filled; a page the page file lacks is added if it lies in the stack area, else the kernel panics. The frame invariant survives if and only if the page was not buffered. |
| PageFault.StackBottom | FOS_PROJECT_2022_Term2_Template/inc/memlayout.h:158-160 | The 32-bit product in USER_PAGES_WS_MAX wraps, so the stack may grow down to 0xA0031000. |
| PageFault.ResidentJoins | FOS_PROJECT_2022_Term2_Template/kern/memory_manager.c:948-958 | A page that fills an empty slot joins a working set that stays distinct, page aligned and privately mapped. |
| PageFault.FaultWithRoom | FOS_PROJECT_2022_Term2_Template/kern/trap.c:486-514 | With room the fault adds exactly the faulting page, present, in the first empty slot; every other page keeps its entry; the exact condition of the panic. |
| PageFault.FaultWhenFull | FOS_PROJECT_2022_Term2_Template/kern/trap.c:516-605 | When full it replaces exactly the victim: that page alone trades PRESENT for BUFFERED, the faulting page takes its slot, from its buffer with its own bits or from the page file as PRESENT, WRITEABLE and USER, and the hand stops just after it. |
| PageFault.Evict | FOS_PROJECT_2022_Term2_Template/kern/trap.c:517-581 | Search and buffering together: the victim leaves the working set and its frame is listed by its modified bit. |
| PageFault.BringIn | FOS_PROJECT_2022_Term2_Template/kern/trap.c:583-600 | A buffered page is restored without reading, in its frame, with every bit but PRESENT and BUFFERED as it was; any other is read from the page file into a fresh frame; one that the page file lacks is added there, as whatever its disk frame held, if it lies in the stack, else the kernel panics. |
| PageFault.PageFaultHandler | FOS_PROJECT_2022_Term2_Template/kern/trap.c:476-608 | Every fault that does not panic keeps the working set distinct, page aligned and present with private frames, in either case, and changes the page file by at most one page of the stack. The frame invariant survives if and only if the set was full or the page was not buffered. |
| Witnesses.EvictThenFree | FOS_PROJECT_2022_Term2_Template/kern/trap.c:517-581 | Evicting a page and then freeing its block keeps the frame invariant if and only if boot holds a reference to the page's frame. |
| PageFault.ResidentLeaves | FOS_PROJECT_2022_Term2_Template/kern/trap.c:563-570 | The pages that stay in the working set stay present with private frames when the victim leaves. |
| CycleDetect.DetectModifiedLoop | FOS_PROJECT_2022_Term2_Template/kern/trap.c:337-364 | The walk ends on every finite heap of nodes and reports a loop exactly if the next chain from the list head never ends. |
| CycleDetect.SomeRoundMeets | FOS_PROJECT_2022_Term2_Template/kern/trap.c:343-362 | On a chain that never ends the fast pointer meets the slow one in some round. |
| CycleDetect.EndedIsAcyclic | FOS_PROJECT_2022_Term2_Template/kern/trap.c:351-353 | A fast pointer that reaches the end proves that there is no loop. |
| PageFile.PageFile.Initialize | FOS_PROJECT_2022_Term2_Template/kern/file_manager.c:87-100 | Every disk frame but 0 is free, the last one first; the zero page is what boot left of it. |
| PageFile.ZeroPageIsZero | FOS_PROJECT_2022_Term2_Template/kern/memory_manager.c:352-359 | The boot code clears 1024 bytes, so the zero page is zero exactly if the rest of its frame was. |
| PageFile.PageFile.AllocateDiskFrame | FOS_PROJECT_2022_Term2_Template/kern/file_manager.c:122-133 | The head of the free list, a frame that is not 0 and that no page uses, or E_NO_PAGE_FILE_SPACE when the list is empty. |
| PageFile.PageFile.AddEnvPage | FOS_PROJECT_2022_Term2_Template/kern/file_manager.c:228-257 | The page map gains exactly this page with these contents; a new page costs one free frame, and without one nothing is added. |
| PageFile.PageFile.AddEmptyEnvPage | FOS_PROJECT_2022_Term2_Template/kern/file_manager.c:204-226 | The same with the zero page, or, without zeroing, with what the disk frame last held. |
| PageFile.PageFile.UpdateEnvPage | FOS_PROJECT_2022_Term2_Template/kern/file_manager.c:259-297 | An existing page within reach gets the new contents, any other is an error; frames and tables are untouched. |
| PageFile.PageFile.ReadEnvPage | FOS_PROJECT_2022_Term2_Template/kern/file_manager.c:317-341 | Yields what the map holds for the page, or E_PAGE_NOT_EXIST_IN_PF if it holds nothing or the page's disk table is at or above the kernel-heap cursor. |
| PageFile.PageFile.RemoveEnvPage | FOS_PROJECT_2022_Term2_Template/kern/file_manager.c:343-360 | The map loses exactly this page and its frame is free again; nothing happens if its disk table is out of reach. |
| PageFile.PageFile.CalculateAllocatedPages | FOS_PROJECT_2022_Term2_Template/kern/file_manager.c:476-513 | Counts exactly the environment's pages below USER_TOP. |
| PageFile.PageFile.FreeEnv | FOS_PROJECT_2022_Term2_Template/kern/file_manager.c:362-436 | Returns exactly the frames of the environment's pages below USER_TOP; nothing leaks if and only if it has no page above. |
| PageFile.Conservation | FOS_PROJECT_2022_Term2_Template/kern/file_manager.c:87-143 | While nothing has leaked, free frames and allocated pages add up to PAGES_PER_FILE - 1. |
| PageFile.UseKeepsSound | FOS_PROJECT_2022_Term2_Template/kern/file_manager.c:236-241 | Giving a free frame to a page keeps every frame free once or used by one page of one environment. |
| PageFile.ReturnKeepsSound | FOS_PROJECT_2022_Term2_Template/kern/file_manager.c:355-357 | So does giving a page's frame back. |
| PageFile.LeakAbove | FOS_PROJECT_2022_Term2_Template/kern/file_manager.c:424-428 | Dropping a disk directory leaks exactly the frames it still names. |
| Witnesses.FrameIsForgotten | FOS_PROJECT_2022_Term2_Template/kern/file_manager.c:362-436 | A segment at or above USER_TOP is loaded into a fresh page file and its environment freed: its disk frame is neither free nor used. |
| Loader.WriteSegment | FOS_PROJECT_2022_Term2_Template/kern/user_environment.c:536-601 | The page file ends up with the file's bytes, zeros to the end of their last page, then copies of the zero page; nothing else changes; the loader panics exactly when free disk frames are fewer than new pages. |
| Loader.WrittenIsRight | FOS_PROJECT_2022_Term2_Template/kern/user_environment.c:536-601 | The segment comes out as file bytes and zeros (the p_filesz and p_memsz rule of chapter 5, "Program Header", of the System V ABI) exactly if the zero page is zero or the segment needs none. |
| Loader.RemainingIsExact | FOS_PROJECT_2022_Term2_Template/kern/user_environment.c:592-596 | The remaining area starts where the file's pages end, and even when the 32-bit subtraction wraps it rounds to exactly the pages that are missing: zero in that case. |
| Loader.WritesPastTheEnd | FOS_PROJECT_2022_Term2_Template/kern/user_environment.c:570-585 | One page past the segment is written exactly if its file ends at a page boundary and is all of it. |
| Loader.FullPages | FOS_PROJECT_2022_Term2_Template/kern/user_environment.c:563-568 | The loop over whole file pages. |
| Loader.LastPage | FOS_PROJECT_2022_Term2_Template/kern/user_environment.c:573-583 | The temporary page holds the last file bytes and then zeros. |
| Loader.ZeroTail | FOS_PROJECT_2022_Term2_Template/kern/user_environment.c:590-600 | The loop over the remaining pages. |
| Loader.AllocMapCopy | FOS_PROJECT_2022_Term2_Template/kern/user_environment.c:356-422 | The first pages, six at most at 0x200000 unless the program is tpp, get consecutive slots with stamp 0, and memory holds the segment's bytes and zeros there. |
| Loader.OneCountFits | FOS_PROJECT_2022_Term2_Template/kern/user_environment.c:360-372 | How many pages are resident: no more than slots are left or the segment reaches, and one that it reaches stays out only if the slots are used up, or if six are in, the segment starts at 0x200000 and the program is not tpp. |
| Loader.LoadSegment | FOS_PROJECT_2022_Term2_Template/kern/user_environment.c:518-601 | Page k in memory agrees with its page-file copy if and only if the file reaches it or the zero page is zero. |
| Loader.LoadSegments | FOS_PROJECT_2022_Term2_Template/kern/user_environment.c:509-601 | All segments in turn: the loader panics exactly when the disk frames they take in turn are too few; else the page file is their composition, the working set gets exactly their resident pages, in order, and of segments that share no page each resident page agrees with its page-file copy if and only if that page came out right and survived. |
| Loader.LoadStack | FOS_PROJECT_2022_Term2_Template/kern/user_environment.c:628-658 | The stack gets the next slot, at 0xEEBFD000 with stamp 0x80000000, and a page of zeros, which the page file takes if it has room; the copy agrees if and only if it does and the zero page is zero. |
| Loader.LoadProgram | FOS_PROJECT_2022_Term2_Template/kern/user_environment.c:509-658 | Segments and stack together: exactly when it panics, what the page file and the working set hold, and for every resident page, the stack included, exactly when its page-file copy agrees with it. |
| Loader.ResidentPage | FOS_PROJECT_2022_Term2_Template/kern/user_environment.c:356-422 | The slot of a resident page names its address and holds its bytes. |
| Loader.LoadsExactly | FOS_PROJECT_2022_Term2_Template/kern/user_environment.c:513-601 | For segments that share no page, in any order: a page is right if and only if it is zero in case a later segment overruns into it, and otherwise the file reaches it or the zero page is zero. |
| Loader.AscendingLoads | FOS_PROJECT_2022_Term2_Template/kern/user_environment.c:513-601 | In order of address no segment overruns into a loaded page, so every page is right if and only if the file reaches it or the zero page is zero. |
| Loader.BackwardLoses | FOS_PROJECT_2022_Term2_Template/kern/user_environment.c:570-585 | In the other order a full-page segment wipes the first page of its neighbour. |
| Scheduler.Scheduler.constructor | FOS_PROJECT_2022_Term2_Template/kern/user_environment.c:757-766 | All environments are free, envs[0] first. |
| Scheduler.Scheduler.EnvCreate | FOS_PROJECT_2022_Term2_Template/kern/user_environment.c:214-220 | The first free environment leaves the list with the id 4096 plus its place in envs, or NULL. |
| Scheduler.Scheduler.Load | FOS_PROJECT_2022_Term2_Template/kern/sched.c:454-461 | env_create and sched_new_env: the environment goes from the free list to the head of NEW, and every environment stays in exactly one place. |
| Scheduler.QueuesMoved | FOS_PROJECT_2022_Term2_Template/kern/sched.c:272-332 | A move takes an environment out of the one queue it is in and puts it at the head of the one it goes to; each queue holds the environments of its place, each once. |
| Scheduler.Scheduler.SchedInsertReady | FOS_PROJECT_2022_Term2_Template/kern/sched.c:272-279 | READY status and head of the ready queue. |
| Scheduler.Scheduler.SchedRemoveReady | FOS_PROJECT_2022_Term2_Template/kern/sched.c:282-297 | Takes a ready environment off its queue; does nothing to one that is not ready. |
| Scheduler.Scheduler.SchedInsertNew | FOS_PROJECT_2022_Term2_Template/kern/sched.c:299-306 | NEW status and head of NEW. |
| Scheduler.Scheduler.SchedRemoveNew | FOS_PROJECT_2022_Term2_Template/kern/sched.c:307-314 | Off NEW, status UNKNOWN. |
| Scheduler.Scheduler.SchedRemoveExit | FOS_PROJECT_2022_Term2_Template/kern/sched.c:325-332 | Off EXIT, status UNKNOWN. |
| Scheduler.Scheduler.Dequeue | FOS_PROJECT_2022_Term2_Template/kern/sched.c:54-62 | The tail of the queue, or NULL. |
| Scheduler.Scheduler.FindEnvInQueue | FOS_PROJECT_2022_Term2_Template/kern/sched.c:72-83 | The environment of the queue with the id, NULL if none has it. |
| Scheduler.Scheduler.FosScheduler | FOS_PROJECT_2022_Term2_Template/kern/sched.c:173-236 | The current environment goes back to the head and the tail runs; every environment stays in one place with a matching status, and all queue assertions of the checker hold. |
| Scheduler.TailRuns | FOS_PROJECT_2022_Term2_Template/kern/sched.c:173-203 | A decision leaves no current environment if and only if none was ready and none current; otherwise the tail of the ready queue runs and the current one goes to its head. |
| Scheduler.CheckerHolds | FOS_PROJECT_2022_Term2_Template/kern/utilities.c:16-101 | What the checker predicts before the decision is what round robin chooses, the chosen one is off the queue and the preempted one is on it. |
| Scheduler.Scheduler.Schenv | FOS_PROJECT_2022_Term2_Template/kern/utilities.c:16-45 | Under round robin the prediction is the environment that the decision runs, at level 0. |
| Scheduler.Scheduler.Chk1 | FOS_PROJECT_2022_Term2_Template/kern/utilities.c:55-67 | Records the current environment and the prediction, if checking is on. |
| Scheduler.Scheduler.Chk2 | FOS_PROJECT_2022_Term2_Template/kern/utilities.c:68-101 | True exactly if the prediction and queue assertions hold, or checking is off. |
| Scheduler.Scheduler.SchedRunEnv | FOS_PROJECT_2022_Term2_Template/kern/sched.c:463-482 | A new environment with the id becomes ready, and the scheduler starts if it was stopped; any other id changes nothing. |
| Scheduler.Scheduler.SchedRunAll | FOS_PROJECT_2022_Term2_Template/kern/sched.c:380-391 | NEW is left empty and READY is NEW reversed followed by what it held. |
| Scheduler.Scheduler.SchedExitEnv | FOS_PROJECT_2022_Term2_Template/kern/sched.c:484-541 | A ready environment goes to EXIT; so does the current one, and the next runs; a new one is lost, so that every environment stays in one place if and only if the id is not of a new one. |
| Witnesses.EnvironmentIsLost | FOS_PROJECT_2022_Term2_Template/kern/sched.c:484-541 | One program runs, a second one is loaded and ends before it ran: its environment is in no queue any more. |
| Scheduler.Scheduler.ToExit | FOS_PROJECT_2022_Term2_Template/kern/sched.c:316-324 | A ready or current environment that exits leaves the one place it was in and heads EXIT with EXIT status; every queue still holds exactly the environments of its place. |
| Scheduler.Scheduler.SchedExitAllReadyEnvs | FOS_PROJECT_2022_Term2_Template/kern/sched.c:543-558 | READY is left empty, and EXIT is READY reversed followed by what it held. |
| Scheduler.BoundedWaiting | FOS_PROJECT_2022_Term2_Template/kern/sched.c:173-203 | A ready environment with d others between it and the tail has run by the (d + 1)th decision, whatever arrivals and exits of others come between. |
| Scheduler.BoundIsTight | FOS_PROJECT_2022_Term2_Template/kern/sched.c:173-203 | Without exits each decision moves it exactly one place. |
| Scheduler.ExitsShortenTheWait | FOS_PROJECT_2022_Term2_Template/kern/sched.c:500-515 | An exit of another environment never lengthens the wait. |
| Scheduler.ArrivalsWaitBehind | FOS_PROJECT_2022_Term2_Template/kern/sched.c:46-52 | An arrival at the head never lengthens the wait. |
| IntrusiveList.List.constructor | FOS_PROJECT_2022_Term2_Template/inc/queue.h:195-199 | The empty list. |
| IntrusiveList.List.InsertHead | FOS_PROJECT_2022_Term2_Template/inc/queue.h:243-251 | Refines adding an element in front; with an element that is in the list already the walk from the head comes back to it. |
| IntrusiveList.List.InsertTail | FOS_PROJECT_2022_Term2_Template/inc/queue.h:257-265 | Refines adding an element at the end. |
| IntrusiveList.List.InsertAfter | FOS_PROJECT_2022_Term2_Template/inc/queue.h:206-216 | Refines inserting behind an element. |
| IntrusiveList.List.InsertBefore | FOS_PROJECT_2022_Term2_Template/inc/queue.h:223-237 | Refines inserting before an element. |
| IntrusiveList.List.Remove | FOS_PROJECT_2022_Term2_Template/inc/queue.h:271-283 | Refines cutting an element out. |
| IntrusiveList.List.MoveAll | FOS_PROJECT_2022_Term2_Template/inc/queue.h:183-190 | LIST_FOREACH whose body moves the current element visits each once, in order: the list is left empty and the other one holds it reversed in front. |
| IntrusiveList.Spliced | FOS_PROJECT_2022_Term2_Template/inc/queue.h:206-265 | Links that differ only around the new element make the longer sequence. |
| IntrusiveList.Unlinked | FOS_PROJECT_2022_Term2_Template/inc/queue.h:271-283 | Links that skip an element make the shorter sequence. |
| LruAging.UpdateTimeStamps | FOS_PROJECT_2022_Term2_Template/kern/sched.c:657-684 | A tick ages every slot in use by its page's used bit, takes exactly those used bits, and changes nothing else. |
| LruAging.TickLeaves | FOS_PROJECT_2022_Term2_Template/kern/sched.c:657-684 | The tick takes no bit but the used one, from no page but those in slots, and of a slot in use changes only the stamp, to a quarter of it plus 0x80000000 if the page was used. |
| LruAging.StampIsSum | FOS_PROJECT_2022_Term2_Template/kern/sched.c:668-680 | A stamp is the sum of the page's reference bits weighted 2^(31-2i), newest first, placement counting as a reference. |
| LruAging.EveryRunSums | FOS_PROJECT_2022_Term2_Template/kern/sched.c:657-684 | After any run of ticks, faults, loads and evictions the stamp of a slot in use is the weighted sum of the references to its page since it got there. |
| LruAging.EveryRunCompares | FOS_PROJECT_2022_Term2_Template/kern/sched.c:668-680 | So comparing two stamps is comparing the latest sixteen ticks, newest first, whichever way the pages came in. |
| LruAging.TickIsApplied | FOS_PROJECT_2022_Term2_Template/kern/sched.c:657-684 | What the tick does to the slots is the step of those runs. |
| LruAging.OrIsPlus | FOS_PROJECT_2022_Term2_Template/kern/sched.c:674-674 | Bit 31 is free after the shift, so setting it is adding it. |
| UserHeap.Heap.Search | FOS_PROJECT_2022_Term2_Template/lib/uheap.c:31-75 | The circular walk finds the first place from the cursor on where the request fits without straddling cursor or heap end, and none exactly if there is none; the page budget reaches 0 without underflow. |
| UserHeap.Heap.Place | FOS_PROJECT_2022_Term2_Template/lib/uheap.c:31-89 | malloc makes the first fit a block and starts the next search there, or at the start of the heap if the block ends the heap; or it says NULL and changes nothing. |
| UserHeap.Heap.Release | FOS_PROJECT_2022_Term2_Template/lib/uheap.c:146-168 | free removes exactly the block that starts at the address and finds its size. |
| UserHeap.MallocCovers | FOS_PROJECT_2022_Term2_Template/lib/uheap.c:77-89 | An address that malloc returns has ceil(n / 4096) free pages from there on in the heap; they and no others become covered. |
| UserHeap.FreeUncovers | FOS_PROJECT_2022_Term2_Template/lib/uheap.c:146-168 | free uncovers the pages of the block at the address and no others. |
| UserHeap.NextSearchStarts | FOS_PROJECT_2022_Term2_Template/lib/uheap.c:77-89 | Whatever is freed or refused in between: after a block that ends at USER_HEAP_MAX the next malloc returns the lowest address where it fits; after any other block it takes nothing below that block while something fits from there on, then the lowest below it, and else NULL. |
| UserHeap.BackToTheStart | FOS_PROJECT_2022_Term2_Template/lib/uheap.c:77-89 | Two mallocs of 0x10000000 bytes and their frees leave an empty heap whose next page comes from 0x80000000. |
| UserHeap.EveryRunWellFormed | FOS_PROJECT_2022_Term2_Template/lib/uheap.c:23-89 | After any run of mallocs and frees blocks lie in the heap, are disjoint, and none straddles the cursor. |
| UserHeap.BlocksNeverOverlap | FOS_PROJECT_2022_Term2_Template/lib/uheap.c:77-89 | The same, said of two live blocks' addresses. |
| UserHeap.NullDespiteRoom | FOS_PROJECT_2022_Term2_Template/lib/uheap.c:77-80 | NULL is returned if and only if every large enough free run straddles the cursor. |
| UserHeap.EmptyHeapRefuses | FOS_PROJECT_2022_Term2_Template/lib/uheap.c:77-89 | Two mallocs and two frees leave an empty heap that refuses a request for all of it. |
| HeapSystem.Malloc | FOS_PROJECT_2022_Term2_Template/lib/uheap.c:91-122 | Success adds exactly ceil(n / 4096) pages, as copies of the zero page, at a block that had none, as far as the page file has room; failure changes nothing. |
| HeapSystem.FaultKeepsBacked | FOS_PROJECT_2022_Term2_Template/kern/trap.c:458-463 | No fault that returns brings a page of the heap into the page file, so that only pages of live blocks are there. |
| HeapSystem.AllocateMem | FOS_PROJECT_2022_Term2_Template/kern/memory_manager.c:740-752 | Every page is added or zeroed; when frames run out the error is ignored and the page stays missing. |
| HeapSystem.FilledNew | FOS_PROJECT_2022_Term2_Template/kern/memory_manager.c:740-752 | On new pages that comes to the first min(k, free) pages. |
| HeapSystem.Free | FOS_PROJECT_2022_Term2_Template/lib/uheap.c:146-168 | No page of the block is left in page file, working set or page table; nothing outside the block changes, and only pages of live blocks are backed; the same condition for the frame invariant. |
| HeapSystem.FreeMem | FOS_PROJECT_2022_Term2_Template/kern/memory_manager.c:757-778 | The loop of the system call: every page of the range leaves all three, and the free disk frames grow by the pages that were there. The frame invariant survives if and only if none of the pages is buffered in a frame that only it refers to. |
| HeapSystem.FreePage | FOS_PROJECT_2022_Term2_Template/kern/memory_manager.c:767-778 | One turn of it, which keeps the working set resident in any case. |
| HeapSystem.MallocThenFree | FOS_PROJECT_2022_Term2_Template/lib/uheap.c:77-168 | malloc and then free restores the page map and the number of free disk frames. |
| HeapSystem.CountedPages | FOS_PROJECT_2022_Term2_Template/kern/file_manager.c:476-513 | pf_calculate_allocated_pages counts the pages of the map. |
| HeapSystem.CountAfterMalloc | FOS_PROJECT_2022_Term2_Template/kern/memory_manager.c:740-752 | malloc raises that count by exactly the pages that found room. |
| HeapSystem.PrivateFramesDiffer | FOS_PROJECT_2022_Term2_Template/kern/memory_manager.c:662-675 | Unmapping one page takes no frame from a page whose frame only it holds. |
| StabSearch.BinSearch | FOS_PROJECT_2022_Term2_Template/kern/kdebug.c:59-103 | Ends for every table. For increasing stabs that do not wrap it brackets the address, left being the last stab of the type at or below it and right the entry before the next one, if and only if no stab it has not ruled out when it meets an exact match lies in the four bytes above; the outcomes when no stab is at or below it, or none of the type exists. |
| StabSearch.AnswersExactly | FOS_PROJECT_2022_Term2_Template/kern/kdebug.c:59-103 | The same of the rounds as a function: the answer is right exactly then. |
| StabSearch.NearStabWins | FOS_PROJECT_2022_Term2_Template/kern/kdebug.c:84-90 | A stab in those four bytes that is still in the region is where the search ends, or a later one. |
| StabSearch.RoundShrinks | FOS_PROJECT_2022_Term2_Template/kern/kdebug.c:64-90 | Every round shrinks the range or moves past an exact match, so the search ends. |
| StabSearch.NearbyStabMisleads | FOS_PROJECT_2022_Term2_Template/kern/kdebug.c:84-90 | addr++ steps over four bytes: stabs at 100 and 102 answer a search for 100 with 102. |
| StabSearch.NearbyStabMayBeSkipped | FOS_PROJECT_2022_Term2_Template/kern/kdebug.c:74-84 | Whether a near stab misleads depends on the middles visited: with one more at 200 the answer is right. |
| NumberFormat.Output.PrintNum | FOS_PROJECT_2022_Term2_Template/lib/printfmt.c:36-51 | Emits the digits, most significant first, after the padding up to the width. |
| NumberFormat.PrintedLength | FOS_PROJECT_2022_Term2_Template/lib/printfmt.c:36-51 | The output is as long as the larger of width and digit count. |
| NumberFormat.DigitCount | FOS_PROJECT_2022_Term2_Template/lib/printfmt.c:41-51 | The digit count is the least that holds the number. |
| NumberFormat.StrToL | FOS_PROJECT_2022_Term2_Template/lib/string.c:180-225 | However the text is cut into blanks, a sign, the prefix the base asks for and the longest run of digits, the result is the sum of the digits by the powers of the radix, negated after a minus sign, modulo 2^32, and the end is where the digits end. |
| NumberFormat.EveryTextStands | FOS_PROJECT_2022_Term2_Template/lib/string.c:180-225 | Every text can be cut so, for every base. |
| NumberFormat.ParseReads | FOS_PROJECT_2022_Term2_Template/lib/string.c:180-225 | What strtol computes, as a function of the text, is the number that such a cut stands for. |
| NumberFormat.SignedRoundTrip | FOS_PROJECT_2022_Term2_Template/lib/string.c:180-225 | A sign in front of what printnum emits makes strtol return the number or minus the number modulo 2^32, read to the end; if blanks come between the two it reads 0 and stops behind the sign, and only then. |
| NumberFormat.PrefixedRoundTrip | FOS_PROJECT_2022_Term2_Template/lib/string.c:195-202 | With any sign: 0x and hexadecimal digits read back with base 0 and 16, 0 and octal digits and plain decimal digits with base 0. |
| NumberFormat.RoundTrip | FOS_PROJECT_2022_Term2_Template/lib/string.c:180-225 | So every number in long range comes back. |
| NumberFormat.RoundTripWraps | FOS_PROJECT_2022_Term2_Template/lib/string.c:180-225 | For bases 2 to 16, any width, blank or zero padding: strtol of what printnum emits is the number modulo 2^32, read to the end. |

## Left out

- Hardware and I/O: ports, disk driver, console, interrupt controller, timer counter, TLB, inline assembly, boot loader.
- The command prompt, the system-call dispatch and the user programs: callers of what is modelled.
- MLFQ scheduling: its quantums are shadowed and its queues reallocated on every call, so that nothing useful holds.
- The functions that only panic (env_free, moveMem, realloc, smalloc, sget, the buffering variants), and so every kill path.
- Best fit: both placement functions return NULL.
- LIST_CONCAT, whose size and source list come out wrong, and ltostr, which stops at inner zeros.
- Frame contents other than page tables, directories, page-file pages and loaded segments.
- The mappings boot makes of physical memory, of the kernel stack and of the page directory in itself (VPT, UVPT), and ShareWSAtUserSpace, which copies entries without counting references.
- Page tables on disk: directory entries are 0 or PRESENT, as no code in use writes others.
- Table working sets and the time stamps in them, which nothing reads.
- Memory.Memory.AllocateFrame: the list head must not be a buffered frame, because reclaiming one needs the va and environment fields of its frame, which nobody assigns; an empty list panics.
- Memory.Memory.MapFrame: a frame's references stay below 65535, since the 16-bit counter is not checked against wrapping, and a buffered frame is mapped only where the page table exists; a user table is within reach of the heap cursor, as the code writes through the NULL it gets otherwise.
- Memory.Memory.Kmalloc: the frames exist, or the code panics; requests are positive and do not make ROUNDUP wrap; with the cursor at the end of the heap there is a run to find, or the call does not return.
- Memory.Memory.SearchHeap: the same run, for the same reason.
- Memory.Memory.Kfree: the block holds no page table or directory, which the kernel frees only by the reclaiming left out below.
- Memory.Memory.Boot: the directory holds the tables of the kernel stack and of the heap only; the mappings of physical memory and of the directory in itself are left out.
- Memory.Memory.CreateUserDirectory: the VPT and UVPT entries and the shared working-set pages are left out.
- Memory.Memory.UnmapFrame: a heap page holds no table or directory, as for Kfree.
- Memory.Memory.GetPagePermissions: the table is within reach, as the code goes through the NULL it gets otherwise.
- Memory.Memory.SetPagePermissions: not for kernel-heap pages, whose entries no caller changes, nor to set bits in an entry that is 0; that the invariant survives is said of pages that stay present, BUFFERED and PRESENT changing places in BufferPage and RestorePage.
- PageFault.PageFaultHandler: no flush of the modified list, which relies on fields nobody assigns, so the list must not reach the flush length when the victim is modified; the page's table exists, as table_fault_handler creates it first, and is within reach of the heap cursor.
- HeapSystem.FreeMem: the search for an empty page table at the end of each turn is not modelled: it frees a table's frame while the kernel heap still maps it. The page tables and disk tables of the block are within reach of the heap cursor.
- PageFile.PageFile.AddEnvPage: a disk table that exists is within reach of the heap cursor, as the code writes through the NULL it gets otherwise; creating one takes no frame of Memory and moves no cursor here.
- PageFile.PageFile.AddEmptyEnvPage: the same.
- PageFile.PageFile.CalculateAllocatedPages: the same, for every disk table of the environment.
- PageFile.PageFile.FreeEnv: the same; the kernel-heap pages of the disk tables and of the directory are not given back in the model.
- PageFile.PageFile.UpdateEnvPage: the contents are a parameter, as frame contents are not modelled.
- PageFault.Load: the disk table of the page is within reach, so is that in HeapSystem.FreePage; ReadEnvPage and RemoveEnvPage say what happens if not.
- HeapSystem.Malloc: requests up to 0xFFFFF000 bytes; above that ROUNDUP yields 0.
- Loader.AllocMapCopy: frames and page-table entries of the resident pages are not modelled here, only their slots and contents; the clearing of modified bits after the last segment is left out too.
- Loader.LoadSegment: what is in memory is returned as pages, which stand for the frames mapped there.
- Loader.WriteSegment: segments start at a page boundary; for others its first-page copy can run past the file part.
- Scheduler.Scheduler.EnvCreate: one step for allocate_environment and complete_environment_initialization; the program's memory is the Loader's.
- Scheduler.Scheduler.Chk2: the assertion on the timer's counter is left out.
- Scheduler.Scheduler.SchedInsertExit: cleanup_buffers, which edits the modified-frame list only, is left out.
- StabSearch.BinSearch: the exact condition is for stabs below 0xFFFFFFFC; it depends on the middles the search visits, as whether a near stab is compared before the match does. That no stab lies in those four bytes is enough for any search.
- NumberFormat.Output.PrintNum: widths close to the least int, where counting down would overflow, and the minus padding of numbers are not modelled.
- NumberFormat.StrToL: signed overflow, which C leaves undefined, is taken as two's complement.
