# Pintos kernel: a verified model

Pintos (the KAIST 64-bit variant) is a teaching kernel in C over its own lists, bitmaps, page tables, allocators,
scheduler, semaphores and file system. This project models its algorithmic core in Dafny 4.11 and proves what that
code is for: properties of every input, every reachable state and every run. `dafny verify dfyconfig.toml` checks all
of it.

Code that updates things in place is modelled in place (classes, arrays, loops with invariants) and proved against a
specification function; what the source promises is then proved about that function. Protocols between threads are
state machines whose steps are the regions that run with interrupts off, over any number of threads.

| file | source | main result |
|---|---|---|
| `Ordering.dfy`, `Merging.dfy`, `List.dfy` | `lib/kernel/list.c` | the splicing merge sort is a terminating stable sort on the heap |
| `Bits.dfy`, `Bitmap.dfy`, `Vaddr.dfy`, `Palloc.dfy`, `Sets.dfy` | `lib/kernel/bitmap.c`, `threads/palloc.c` | packed words refine booleans; page runs handed out never overlap |
| `MallocState.dfy`, `Malloc.dfy` | `threads/malloc.c` | live blocks are disjoint, counted, and all pages return once all are freed |
| `PageTable.dfy`, `Mmu.dfy`, `PageTraversal.dfy` | `threads/mmu.c` | the four-level tree refines a flat map; exact rollback; visits and frees happen exactly once |
| `Mlfqs.dfy` | `threads/thread.c`, `devices/timer.c` | bounds on load_avg and recent_cpu over whole runs, and the laws they round; no 32-bit overflow up to 545 threads |
| `Sleep.dfy` | `threads/thread.c`, `devices/timer.c` | every sleeper wakes at exactly the right interrupt, in order |
| `Semaphore.dfy`, `SemaphoreOrder.dfy`, `Synch.dfy` | `threads/synch.c` | conservation, no lost wakeup, highest priority first, exactly when first come is first served, mutual exclusion |
| `ProcessWait.dfy` | `userprog/process.c` | the wait/exit handshake |
| `HashTable.dfy` | `lib/kernel/hash.c` | a resizing chained table refines a finite map |
| `Bytes.dfy`, `InodeIo.dfy`, `Directory.dfy` | `filesys/inode.c`, `filesys/directory.c` | sector-chunked I/O refines a flat file; when slots stand for a map of names, and exactly when short memory breaks that |
| `FreeMap.dfy` | `filesys/free-map.c` | the free map and the file it is saved in, on the same disk |
| `FsState.dfy`, `FileSystem.dfy`, `Failures.dfy` | `filesys/inode.c`, `filesys/filesys.c` | who owns which sector over every run, when a deleted file's sectors are released, and everything on one disk of bytes |
| `Powers.dfy`, `Arithmetic.dfy` | `lib/arithmetic.c` | 64-bit division from a 64-by-32 divide |
| `Stdio.dfy`, `Printing.dfy`, `Stdlib.dfy` | `lib/stdio.c`, `lib/stdlib.c` | what is printed in every base, flag, width and precision, and reading it back; heapsort; binary search |

Assumptions and parameters. Whether an allocation succeeds is a parameter wherever the source can fail there; for a
loop of reads it is how many of them find memory before the first that does not. The priorities of threads at the time
of a semaphore operation and the running thread at a timer tick are parameters too. The disk is an array of 512-byte
sectors. `divl` is the x86 instruction, given by its result and its trap condition. Fixed widths are written out where
they matter: 64-bit wrap-around and 32-bit truncation in `Arithmetic.dfy`, 32-bit stores in `Mlfqs.dfy`, the 64-bit
page count in `Malloc.dfy`.

Where the code and its comments disagree, the model follows the code:

- `sdiv64` does not truncate for INT64_MIN / -1, and the remainder functions return 32 bits; the exact conditions are
  `Arithmetic.Sdiv64Truncates`, and for each divisor `Arithmetic.Umod64AlwaysExact` and `Arithmetic.Smod64AlwaysExact`.
- `malloc` rounds a big request up to pages in wrapping arithmetic, so a request close to 2^64 bytes gets too few
  pages; `BlockAllocator.PageCountEnough` is the exact condition.
- A failed `filesys_create` gives back only the header sector; data sectors already taken stay marked.
  `FileSystem.FileSys.Create` states exactly when, `Failures.FailedCreateLeaks` shows one run.
- `dir_add` relies on reads being short only at the end of the directory, but a read without a bounce buffer is short
  anywhere. Then a name can be stored twice or an entry overwritten: `Directory.AddIsUpdate` states exactly when,
  `FsState.RunLoses` over whole runs, and `Failures` shows a run for each.
- `free_map_release` ignores whether the map could be saved, and an allocation undone because it could not leaves part
  of it in the file. `KernelFreeMap.ReleaseSaved` and `KernelFreeMap.ShortAllocation` state exactly when the file then
  holds the map, and so do the contracts of `FileSystem.FileSys`.
- `free_map_allocate` fails when no run of free sectors fits, not when all are available as its comment says.
- `dir_add` on a directory without a free slot writes a partial entry behind the last slot if the directory's size is no
  multiple of the entry size; no entry changes, and no directory made by `dir_create` has such a size.
- Waiters of one priority are served in turn only while nobody in front of them has less: `sema_down` stops at the first
  waiter of lower priority, and the list is sorted anew only by `sema_up`. `SemaphoreOrder` states both cases.
- printf with both the - and the 0 flag pads twice, so that the field is wider than asked for.
- The timer interrupt calls `thread_wake` at every tick and never consults `global_tick`.

## Model

| member | source | states |
|---|---|---|
| `Ordering.InsertAllSorts` | lib/kernel/list.c:418-431 | inserting elements one by one with list_insert_ordered yields a sorted, stable permutation, for every strict weak order |
| `Ordering.InsertOrderedSorted` | lib/kernel/list.c:415-431 | ordered insertion keeps a sorted list sorted and puts the new element after all its equals |
| `Ordering.StableSortUnique` | lib/kernel/list.c:377-413 | sortedness and stability determine the result: any two stable sorts of the same list are equal |
| `Merging.MergeRuns` | lib/kernel/list.c:357-375 | merging two adjacent sorted runs by moving one element at a time sorts them, stably |
| `Merging.PassCorrect` | lib/kernel/list.c:380-413 | one pass over all pairs of runs is a stable rearrangement and reports the number of runs it leaves |
| `Merging.PassHalves` | lib/kernel/list.c:380-413 | a pass halves the number of natural runs (rounding up), which is why the sort terminates |
| `KernelList.List.constructor` | lib/kernel/list.c:57-64 | an empty well-formed list with two sentinels |
| `KernelList.List.Insert` | lib/kernel/list.c:156-165 | the new node stands just before the given one; the list stays well-formed |
| `KernelList.List.Splice` | lib/kernel/list.c:170-190 | a range is moved in front of a node outside it; order inside and outside the range is kept, no node is lost |
| `KernelList.List.Remove` | lib/kernel/list.c:240-246 | exactly the given node leaves; its successor is returned |
| `KernelList.List.PopFront` | lib/kernel/list.c:250-255 | the first element is returned and the rest stays in order |
| `KernelList.List.Reverse` | lib/kernel/list.c:309-319 | the elements are in reverse order on a well-formed list |
| `KernelList.List.FindEndOfRun` | lib/kernel/list.c:338-350 | the end of the maximal nondecreasing run from the start node |
| `KernelList.List.InplaceMerge` | lib/kernel/list.c:357-375 | merging two adjacent runs by splices computes the specified merge and touches nothing else |
| `KernelList.List.MergePass` | lib/kernel/list.c:388-409 | one pass of the sort computes the specified pass and its run count |
| `KernelList.List.Sort` | lib/kernel/list.c:380-413 | terminates; the list is well-formed, sorted, a stable permutation, and equal to what ordered insertion would build |
| `KernelList.List.InsertInOrder` | lib/kernel/list.c:418-431 | the node is placed before the first element it is less than |
| `KernelList.SortIsInsertAll` | lib/kernel/list.c:380-431 | list_sort and repeated list_insert_ordered agree on every list |
| `Arithmetic.LeadingZerosNormalize` | lib/arithmetic.c:40-67 | shifting a nonzero 32-bit word by its leading-zero count brings its top bit to bit 31 |
| `Arithmetic.Nlz` | lib/arithmetic.c:40-67 | the step-by-step search returns the number of leading zeros |
| `Arithmetic.SmallDivisor` | lib/arithmetic.c:73-103 | schoolbook division in base 2^32 is exact for a 32-bit divisor and its divl quotient fits in 32 bits |
| `Arithmetic.Estimate` | lib/arithmetic.c:110-112 | the normalised estimate is the quotient or one more, and its divl does not trap |
| `Arithmetic.Correction` | lib/arithmetic.c:113 | the wrapped test picks out exactly the estimates that are one too large |
| `Arithmetic.UdivSmall` | lib/arithmetic.c:73-103 | the 32-bit branch returns floor (n / d) |
| `Arithmetic.UdivLarge` | lib/arithmetic.c:104-115 | the normalised branch returns floor (n / d) |
| `Arithmetic.Udiv64` | lib/arithmetic.c:71-116 | floor (n / d) for every 64-bit n and nonzero d |
| `Arithmetic.Sdiv64Truncates` | lib/arithmetic.c:127-133 | truncating division, if and only if the pair is not (INT64_MIN, -1) |
| `Arithmetic.Umod64Exact` | lib/arithmetic.c:120-123 | the remainder, if and only if it fits in 32 bits |
| `Arithmetic.Umod64AlwaysExact` | lib/arithmetic.c:120-123 | right for every dividend if and only if the divisor is at most 2^32; above that 2^32 mod d comes out as 0 |
| `Arithmetic.Smod64Exact` | lib/arithmetic.c:137-140 | the C remainder, if and only if it fits in a 32-bit int |
| `Arithmetic.Smod64AlwaysExact` | lib/arithmetic.c:137-140 | right for every dividend if and only if the divisor is at most 2^31 in size; above that 2^31 mod d comes out as -2^31 |
| `Mlfqs.LoadAvgBounded` | threads/thread.c:545-558 | with at most n runnable threads, load_avg stays in 0..n in 17.14 fixed point |
| `Mlfqs.RecentCpuBounded` | threads/thread.c:532-542 | a recalculation takes recent_cpu from its bound at the end of a second to that at its beginning |
| `Mlfqs.StepBounded` | threads/thread.c:218-230 | ticks and thread creation, with inherited recent_cpu, keep all bounds |
| `Mlfqs.RunBounded` | devices/timer.c:132-152 | in every run with at most n runnable threads and nice in -20..20, load_avg is in 0..n*2^14 and every recent_cpu in -20(2n+1)*2^14..(240n+120)*2^14 |
| `Mlfqs.CapFits` | threads/thread.c:532-558 | the bounds fit in a 32-bit int exactly up to n = 545 |
| `Mlfqs.RunFits` | threads/thread.c:521-598 | for n <= 545 the machine that truncates every store to 32 bits runs exactly like the unbounded one |
| `Mlfqs.LoadFollowsLaw` | threads/thread.c:545-558 | load_avg becomes 59/60 of itself plus 1/60 of the runnable threads: never more, and less by the stated rounding at most |
| `Mlfqs.CpuFollowsLaw` | threads/thread.c:532-542 | recent_cpu becomes 2*load_avg / (2*load_avg + 1) of itself plus nice, rounded towards zero, with an explicit bound on the rounding |
| `Mlfqs.CpuMonotone` | threads/thread.c:532-542 | more recent_cpu or a higher nice never gives less recent_cpu |
| `Mlfqs.RunFollowsLaws` | devices/timer.c:132-152 | every interrupt of every run of the 32-bit machine with n <= 545 charges exactly the running thread one unit and, at every hundredth tick and at no other, follows both laws, the load first; a new thread inherits nice and recent_cpu |
| `Mlfqs.Scheduler.RecentCpuUpdate` | threads/thread.c:571-583 | every thread on the list is recomputed with the new load_avg |
| `Mlfqs.Scheduler.TimerInterrupt` | devices/timer.c:132-152 | the statistics part of the handler is one step of the machine that `Mlfqs.RunFollowsLaws` describes |
| `KernelBitmap.Bitmap.constructor` | lib/kernel/bitmap.c:72-85 | all bits are clear |
| `KernelBitmap.Bitmap.Mark` | lib/kernel/bitmap.c:142-151 | exactly one bit of the boolean sequence becomes true |
| `KernelBitmap.Bitmap.Reset` | lib/kernel/bitmap.c:154-163 | exactly one bit becomes false |
| `KernelBitmap.Bitmap.Set` | lib/kernel/bitmap.c:131-139 | exactly one bit takes the given value |
| `KernelBitmap.Bitmap.Test` | lib/kernel/bitmap.c:180-185 | the bit of the boolean sequence |
| `KernelBitmap.Bitmap.SetMultiple` | lib/kernel/bitmap.c:198-208 | exactly one range takes the given value |
| `KernelBitmap.Bitmap.Contains` | lib/kernel/bitmap.c:229-241 | whether some bit of the range has the given value |
| `KernelBitmap.Bitmap.Scan` | lib/kernel/bitmap.c:270-283 | the lowest run that fits, or an error exactly when there is none |
| `KernelBitmap.Bitmap.ScanAndFlip` | lib/kernel/bitmap.c:292-298 | takes the lowest run that fits and changes nothing else |
| `KernelBitmap.Bitmap.Write` | lib/kernel/bitmap.c:324-328 | the words in the file unpack to exactly the bits of the bitmap |
| `KernelBitmap.Bitmap.Read` | lib/kernel/bitmap.c:311-320 | succeeds exactly if the whole file was read; the words read replace the first words of the bitmap, the others stay, and the bits behind the last one are cleared |
| `KernelBitmap.MaskedBit` | lib/kernel/bitmap.c:60-64 | the mask of the last word keeps exactly the bits below the bit count |
| `KernelBitmap.ElemCntLeast` | lib/kernel/bitmap.c:47-50 | a bitmap has as few words as hold its bits |
| `KernelBitmap.WriteThenRead` | lib/kernel/bitmap.c:311-328 | writing a bitmap and reading it back restores the same bits |
| `PageAllocator.Palloc.GetMultiple` | threads/palloc.c:262-285 | null exactly when no run is free in the chosen pool; otherwise the lowest free run, disjoint from every outstanding one; the other pool is untouched; every marked page stays accounted for by boot or by an outstanding run |
| `PageAllocator.Palloc.FreeMultiple` | threads/palloc.c:300-323 | releases exactly the pages of the run, in the pool they came from, and keeps every marked page accounted for |
| `PageAllocator.Palloc.FreeIsDisjoint` | threads/palloc.c:262-285 | free pages are no part of an outstanding run |
| `PageAllocator.Palloc.RunsAfterGet` | threads/palloc.c:262-285 | outstanding runs stay marked and pairwise disjoint when pages are taken |
| `PageAllocator.Palloc.AccountsAfterGet` | threads/palloc.c:262-285 | taking pages keeps every marked page accounted for, in both pools, by boot or by one outstanding run |
| `PageAllocator.Palloc.AccountsAfterFree` | threads/palloc.c:300-323 | so does giving them back |
| `MallocState.BlockToArenaInverts` | threads/malloc.c:243-268 | block_to_arena inverts arena_to_block and the alignment it asserts holds |
| `MallocState.ArenaIsFull` | threads/malloc.c:72-79 | an arena is one page with its header and as many blocks as fit |
| `MallocState.AddArenaKeeps` | threads/malloc.c:118-136 | adding an arena keeps the heap consistent (counts, free lists, live blocks, coverage) |
| `MallocState.PopKeeps` | threads/malloc.c:138-143 | handing out a free block keeps the heap consistent |
| `MallocState.PushKeeps` | threads/malloc.c:213-222 | putting a block back keeps the heap consistent |
| `MallocState.DropArenaKeeps` | threads/malloc.c:224-233 | giving back an arena without live blocks keeps the heap consistent |
| `MallocState.LiveBlocksApart` | threads/malloc.c:84-144 | live blocks never overlap |
| `MallocState.LiveClearOfHeaders` | threads/malloc.c:84-144 | no live block overlaps an arena header |
| `MallocState.AllFreedAllReturned` | threads/malloc.c:201-240 | once every block is freed no arena is left, and the pool's bitmap marks exactly what was marked at boot and what others hold |
| `BlockAllocator.PageCountEnough` | threads/malloc.c:100-102 | the pages taken for a big block hold request and header if and only if the rounded-up sum does not wrap |
| `BlockAllocator.PageCountWraps` | threads/malloc.c:100-102 | a request of SIZE_MAX bytes is given one page |
| `BlockAllocator.Malloc.constructor` | threads/malloc.c:68-80 | seven descriptors, no live block, a consistent heap |
| `BlockAllocator.Malloc.FindDescriptor` | threads/malloc.c:93-96 | the smallest descriptor that fits, or none above 1024 bytes |
| `BlockAllocator.Malloc.AllocateSmall` | threads/malloc.c:117-144 | a small request is served from a free list, after a new arena if it is empty |
| `BlockAllocator.Malloc.Allocate` | threads/malloc.c:84-144 | null exactly when size is 0 or needed pages cannot be had; otherwise a block that was not live becomes live with the requested size, others untouched, heap consistent |
| `BlockAllocator.Malloc.Free` | threads/malloc.c:201-240 | exactly the given block stops being live; other users' pages are untouched; after the last live block the kernel pool's bitmap marks only boot pages and other users' pages |
| `PageTable.GrownPte` | threads/mmu.c:11-89 | a new table maps nothing: no translation changes |
| `PageTable.ShrunkBack` | threads/mmu.c:11-89 | undoing a step that turned out useless restores tables, free pages and tree exactly |
| `PageTable.WithPteOk` | threads/mmu.c:232-244 | writing a leaf entry keeps the tree well-formed and changes exactly one translation |
| `PageTable.WordBits` | threads/mmu.c:232-244 | the words the kernel writes: an entry of a table is present, writable and for users; that of a page is present, for users, writable exactly if asked for, and maps the frame; no other flag is set |
| `Mmu.AddressSpace.Walk` | threads/mmu.c:11-89 | finds the entry for a page at every level; fails exactly when a table is missing and may not or cannot be created, and then everything is as before |
| `Mmu.AddressSpace.WalkNew` | threads/mmu.c:11-89 | a table added for a walk that then fails is freed and unlinked again |
| `Mmu.AddressSpace.WalkFromRoot` | threads/mmu.c:64-89 | the same from the root |
| `Mmu.AddressSpace.GetPage` | threads/mmu.c:213-222 | the translation under the flat map |
| `Mmu.AddressSpace.SetPage` | threads/mmu.c:232-244 | on success the entry is present, for users, writable exactly if `rw`, without other flags, and maps the frame, and no other entry changes; on failure, exactly when too few pages are free, nothing changes; tables off the way to the page, among them all under other root entries and all of other address spaces, are untouched |
| `Mmu.OtherEntries` | threads/mmu.c:232-244 | tables off the way to a page include every table under another entry of the root, such as the shared kernel ones |
| `Mmu.AddressSpace.ClearPage` | threads/mmu.c:250-263 | exactly one entry loses its present bit and keeps all others; tables and free pages stay |
| `Mmu.SetThenGet` | threads/mmu.c:213-244 | after pml4_set_page the page translates to the frame and every other address as before |
| `Mmu.ClearThenGet` | threads/mmu.c:213-263 | after pml4_clear_page no address of the page translates, and every other address as before |
| `Mmu.MappedAllows` | threads/mmu.c:11-89 | with the bits of all tables on the way taken together, user code can read a mapped page and write it exactly if it was mapped so |
| `PageTraversal.ForEach` | threads/mmu.c:103-156 | the visitor is called for the present entries in order, up to the first refusal |
| `PageTraversal.UntilRefused` | threads/mmu.c:103-156 | the calls made are the first ones in order, all if none is refused, otherwise up to and including the first refused one |
| `PageTraversal.CallsAscend` | threads/mmu.c:103-156 | the calls have strictly ascending addresses, so none is repeated |
| `PageTraversal.CallsExact` | threads/mmu.c:103-156 | there is a call for a page exactly when it is in range and its entry is present |
| `PageTraversal.CallWalksBack` | threads/mmu.c:103-118 | the address rebuilt from the indices walks back to the very entry |
| `PageTraversal.Memory.DestroyLeaf` | threads/mmu.c:158-166 | frees the present frames of a page table in order, then the table |
| `PageTraversal.Memory.DestroyBranch` | threads/mmu.c:168-186 | frees a whole subtree; the pages it reads are still allocated when read |
| `PageTraversal.Memory.DestroyRoot` | threads/mmu.c:189-200 | frees everything under entry 0 and then the root; all other tables are untouched |
| `PageTraversal.FreedOnce` | threads/mmu.c:158-186 | a destroyed subtree's table pages are freed once each, the frame of each present entry once, nothing else |
| `PageTraversal.FreedByRootOnce` | threads/mmu.c:189-200 | the same for pml4_destroy |
| `PageTraversal.NoDoubleFree` | threads/mmu.c:189-200 | no page is freed twice if and only if no two present entries share a frame and no frame is a freed table |
| `SemaphoreProtocol.UpWakesHighest` | threads/synch.c:107-124 | sema_up unblocks a waiter of maximal current priority, the foremost of that priority, and keeps all others |
| `SemaphoreProtocol.StepKeepsPlaced` | threads/synch.c:60-124 | a thread waits at most once and is at one point of sema_down only |
| `SemaphoreProtocol.StepKeepsCovered` | threads/synch.c:60-124 | while threads wait, the value is covered by woken threads that have still to look |
| `SemaphoreProtocol.RunKeeps` | threads/synch.c:60-124 | the invariant holds over every run, with priorities changing at any time |
| `SemaphoreProtocol.SemaphoreSafe` | threads/synch.c:60-124 | in every reachable state the value is initial + ups - downs, and waiters with a positive value mean a woken thread is on its way |
| `SemaphoreOrder.LookQueues` | threads/synch.c:67-74 | a thread that blocks stands behind those in front that have at least its priority, up to the first that has less; nobody else moves |
| `SemaphoreOrder.BlocksBehind` | threads/synch.c:67-74 | a blocking thread stands behind a waiter of at least its priority if and only if nobody in front of that waiter has less |
| `SemaphoreOrder.FrontGoesFirst` | threads/synch.c:107-124 | of two waiters with the same, unchanged priority the one in front is unblocked first, over every run |
| `SemaphoreOrder.FirstBlockedFirstUnblocked` | threads/synch.c:60-124 | of two threads with the same, unchanged priority the one that blocked first is unblocked first, if nobody in front of it had less priority when the other one blocked |
| `SemaphoreOrder.LaterBlockedFirstUnblocked` | threads/synch.c:60-124 | if somebody in front had less priority, the one that blocked later is unblocked first |
| `SemaphoreOrder.StaysSorted` | threads/synch.c:60-124 | as long as no priority changes the waiters are in order of priority, so that the condition holds |
| `SemaphoreOrder.Overtakes` | threads/synch.c:60-124 | a run in which a later thread overtakes one of the same priority, because a third one lost its priority |
| `SemaphoreProtocol.LockStepKeepsHolder` | threads/synch.c:192-276 | the holder field names exactly the thread between setting and clearing it |
| `SemaphoreProtocol.TryAcquireEnters` | threads/synch.c:229-241 | lock_try_acquire lets the caller in if and only if nobody is inside; otherwise nothing happens |
| `SemaphoreProtocol.AcquireEnters` | threads/synch.c:192-221 | a turn of the loop in lock_acquire lets the caller in if and only if nobody is inside; otherwise it waits |
| `SemaphoreProtocol.LockSafe` | threads/synch.c:176-276 | in every reachable state the value plus the threads between sema_down and sema_up is one; mutual exclusion; no lost wakeup |
| `Synch.Semaphore.constructor` | threads/synch.c:44-50 | the initial value, nobody waiting |
| `Synch.Semaphore.Look` | threads/synch.c:67-74 | one turn of sema_down's loop on the linked list: takes one from a positive value, or puts the thread behind those in front that have at least its priority |
| `Synch.Semaphore.TryDown` | threads/synch.c:83-101 | succeeds exactly when the value is positive, and is the protocol's step |
| `Synch.Semaphore.Up` | threads/synch.c:107-124 | sorting, popping and counting on the linked list is the protocol's step |
| `ProcessWait.PairKeeps` | userprog/process.c:263-342 | any step of any process keeps a child and its parent in agreement on both semaphores, the list and the status |
| `ProcessWait.RunKeeps` | userprog/process.c:263-342 | over every interleaving of any number of processes |
| `ProcessWait.WaitAnswers` | userprog/process.c:263-283 | a wait that found the child returns the status the child set last, or 0, after it upped sema_wait; every other answer for that child is -1 |
| `ProcessWait.WaitsForOwnChild` | userprog/process.c:263-283 | process_wait waits if and only if it is for a child of the caller that was not waited for before; otherwise it answers -1 at once |
| `ProcessWait.WaitReturns` | userprog/process.c:275-281 | a waiting parent can go on exactly when the child has upped sema_wait; in four steps it returns with the status the child set last, and the child can go on |
| `ProcessWait.ExitLeaves` | userprog/process.c:295-342 | an exiting process keeps its status and reaches its sema_down with sema_wait up, moving nobody else |
| `ProcessWait.ExitFreesChildren` | userprog/process.c:316-323 | an exiting process has no children any more; those whose sema_exit it ups can leave, and no other process changes |
| `ProcessWait.StatusIsLast` | userprog/process.c:276-277 | a process has the status it set last, or 0 |
| `ProcessWait.ReturnIsTimely` | userprog/process.c:276-280 | when process_wait returns, the child has upped sema_wait, is still before its sema_down, and is off the list |
| `ProcessWait.ChildOutlivesWait` | userprog/process.c:326-342 | a child is past process_exit only after its living parent read its status and unlinked it |
| `ProcessWait.NobodyHangs` | userprog/process.c:263-342 | the parent can go on once the child has upped, the child once the parent has answered |
| `ProcessWait.StatusFinal` | userprog/process.c:295-342 | the status of an exiting process never changes again |
| `Sleep.Clock.ThreadWake` | threads/thread.c:368-399 | the loop that stops at the first thread not due removes exactly the due ones, in order, and global_tick becomes the least of the rest |
| `Sleep.Clock.TimerInterrupt` | devices/timer.c:132-155 | one tick of the machine |
| `Sleep.InsertOrderedFifo` | threads/thread.c:356-358 | the list stays sorted by tick, first come first served among equals |
| `Sleep.SleepsExactly` | devices/timer.c:92-104 | a timer_sleep (n) that has to wait, at any point of any run: its caller sleeps until, and is woken at, the first tick after it fell asleep that is at least n after its first reading of the clock |
| `Sleep.NeedNotSleep` | devices/timer.c:92-104 | a timer_sleep (n) that sees the clock n ticks later or more does not sleep |
| `Sleep.TickedKeeps` | threads/thread.c:368-399 | a tick keeps the invariant |
| `Sleep.SleepSafe` | devices/timer.c:132-155 | in every run: sorted list, global_tick its least tick or INT64_MAX, nobody oversleeps, every waking is at the first later tick not before the local tick, order FIFO among equals, nobody is lost |
| `HashTable.TurnOffKeepsTop` | lib/kernel/hash.c:302-311 | x & (x - 1) keeps the top bit, and is zero exactly for a power of two |
| `HashTable.BestBucketCount` | lib/kernel/hash.c:337-345 | the largest power of two that is at most max (4, elem_cnt / 2) |
| `HashTable.SlotInRange` | lib/kernel/hash.c:280-284 | hash & (bucket_cnt - 1) is the hash modulo the bucket count |
| `HashTable.AtMostOneEqual` | lib/kernel/hash.c:280-299 | two equal elements of a table are the same element |
| `HashTable.Hash.constructor` | lib/kernel/hash.c:24-39 | four empty buckets |
| `HashTable.Hash.Locate` | lib/kernel/hash.c:280-299 | searching one bucket decides for the whole table |
| `HashTable.Hash.Find` | lib/kernel/hash.c:122-125 | an equal element of the table, or none exactly when there is none |
| `HashTable.Hash.Insert` | lib/kernel/hash.c:91-102 | adds the element exactly when no equal one is there, which is returned otherwise |
| `HashTable.Hash.Replace` | lib/kernel/hash.c:106-118 | the equal element, if any, is replaced and returned |
| `HashTable.Hash.Delete` | lib/kernel/hash.c:134-142 | the equal element, if any, is removed and returned |
| `HashTable.Hash.Rehash` | lib/kernel/hash.c:322-380 | the contents and the count stay the same whether or not memory is available; with memory the bucket count becomes the best one |
| `HashTable.Hash.MoveTo` | lib/kernel/hash.c:359-379 | moving every element into new buckets keeps placement, uniqueness, contents and count |
| `HashTable.Next` | lib/kernel/hash.c:202-216 | the next element, and none exactly at the end |
| `HashTable.Iterate` | lib/kernel/hash.c:166-216 | the iteration idiom lists the buckets one after another |
| `HashTable.IteratedOnce` | lib/kernel/hash.c:184-216 | that listing has every element of the table exactly once |
| `InodeIo.Stops` | filesys/inode.c:182-226 | the chunk loop stops with exactly the specified byte count, also when the bounce buffer cannot be had |
| `InodeIo.Disk.ReadAt` | filesys/inode.c:182-226 | min (size, max (0, length - offset)) bytes, equal to that slice of the flat file; without a bounce buffer only whole aligned sectors |
| `InodeIo.Disk.Zero` | filesys/inode.c:85-91 | exactly the given sectors become zero |
| `InodeIo.HeaderReadsBack` | filesys/inode.c:78-84 | the header sector that inode_create writes is read back by inode_open as the same inode |
| `InodeIo.SectorCountLeast` | filesys/inode.c:22-27 | a file has as few sectors as hold its bytes |
| `Bytes.LowByteFirst` | filesys/inode.c:15-20 | numbers lie on the disk with the lowest byte first |
| `InodeIo.Disk.WriteAt` | filesys/inode.c:233-288 | the same count; exactly those bytes of the disk change; nothing if writes are denied |
| `InodeIo.Disk.WriteChunk` | filesys/inode.c:258-278 | one chunk changes exactly its bytes; the branch that would zero the rest of the sector is unreachable |
| `InodeIo.WriteIsFlat` | filesys/inode.c:233-288 | a write replaces one slice of its own flat file |
| `InodeIo.WriteStaysInside` | filesys/inode.c:233-288 | no sector outside the file's extent changes |
| `InodeIo.OtherFileUnchanged` | filesys/inode.c:233-288 | a file with a disjoint extent reads as before |
| `Directory.FilledReadsBack` | filesys/directory.c:155-159 | a written entry reads back as in use, with the same name and sector, whatever the buffer held before |
| `Directory.TailIgnored` | filesys/directory.c:150-159 | bytes behind the last whole slot do not matter to what the slots say |
| `Directory.NewIsEmpty` | filesys/directory.c:24-27 | all slots of a zeroed directory are free |
| `Directory.LookupIsMap` | filesys/directory.c:79-98 | lookup answers as the map of names does if and only if its reads find memory up to the slot of the name |
| `Directory.AddIsUpdate` | filesys/directory.c:126-163 | a successful dir_add adds the pair to the map if and only if the name is new and the slot written is free, or that slot holds the name itself; the slots stand for a map at all if and only if no other slot holds the name; the name is new if and only if the reads of the lookup reach every slot that holds it |
| `Directory.AddWithMemory` | filesys/directory.c:120-163 | with memory for every read dir_add succeeds exactly when the name is allowed and new and a slot is free, and adds exactly the pair |
| `Directory.PutTwice` | filesys/directory.c:139-159 | a name stored in a second slot: the slots stand for no map |
| `Directory.PutLoses` | filesys/directory.c:143-159 | an entry overwritten: no slot holds its name any more |
| `Directory.EraseRemoves` | filesys/directory.c:187-189 | clearing in_use takes exactly one name out of the map |
| `Directory.Dir.Lookup` | filesys/directory.c:79-98 | the first slot that holds the name among those whose reads find memory, or none |
| `Directory.Dir.Find` | filesys/directory.c:104-118 | the sector in that slot, or none |
| `Directory.Dir.FreeSlot` | filesys/directory.c:143-153 | the first slot that is free or cannot be read, or the end |
| `Directory.Dir.Add` | filesys/directory.c:126-163 | succeeds exactly when the name is allowed, the reads of the lookup do not meet it, the search stops before the end and the entry can be written; then exactly the slot where the search stopped says the new pair; otherwise no slot changes, and no byte unless the search reached the end of a directory whose size is no multiple of the entry size; other sectors never change |
| `Directory.Dir.Erase` | filesys/directory.c:187-190 | exactly that slot becomes free, or, if the entry cannot be written, no byte changes |
| `Directory.Dir.Remove` | filesys/directory.c:168-199 | frees exactly the slot that lookup finds if its inode opens and the entry can be written; otherwise no byte changes |
| `Directory.Dir.ReadDir` | filesys/directory.c:204-216 | the next in-use name and a position behind it; if memory runs out it stops at that slot and the next call goes on there |
| `Directory.ListAll` | filesys/directory.c:204-216 | reading from position 0 until nothing comes lists, in order, the in-use names of the slots read |
| `Directory.ListingComplete` | filesys/directory.c:204-216 | such a listing is complete if and only if every slot behind the last one read is free |
| `Directory.NamesOnce` | filesys/directory.c:204-216 | no name comes twice in a listing |
| `Directory.NamesAll` | filesys/directory.c:204-216 | a complete listing has exactly the names of the map |
| `KernelFreeMap.FreeMap.constructor` | filesys/free-map.c:12-19 | exactly the two system sectors are marked |
| `KernelFreeMap.FreeMap.Save` | lib/kernel/bitmap.c:324-328 | the free map in its file on the disk: all of it, or without a bounce buffer its whole sectors; nothing else on the disk changes |
| `KernelFreeMap.FreeMap.Allocate` | filesys/free-map.c:25-37 | takes the lowest free run, exactly when there is one and the map could be saved, and then the file holds the map; otherwise the map in memory is as before; the bits in the file are given exactly in every case |
| `KernelFreeMap.FreeMap.Release` | filesys/free-map.c:40-45 | clears exactly a run that was all marked; the bits in the file are given exactly, also when the map could not be saved |
| `KernelFreeMap.FreeMap.Load` | filesys/free-map.c:53-54 | the map in memory becomes the one in the file, exactly when all of it can be read |
| `KernelFreeMap.ShortAllocation` | filesys/free-map.c:27-33 | an allocation undone for lack of memory leaves the file equal to the map if and only if the run lies behind the whole sectors of the file |
| `KernelFreeMap.ReleaseSaved` | filesys/free-map.c:40-45 | after a release the file holds the map if and only if the map could be saved or the run lies within the whole sectors of the file |
| `KernelFreeMap.ReleasesSaved` | filesys/inode.c:161-165 | the exact condition for the two releases of inode_close one after the other |
| `FsState.CreatedKeeps` | filesys/filesys.c:60-73 | a new file's sectors were free, so live inodes stay marked and pairwise disjoint, also if its entry overwrites another one |
| `FsState.OpenedKeeps` | filesys/inode.c:102-130 | opening keeps one in-memory inode for each open sector |
| `FsState.ReopenedKeeps` | filesys/inode.c:133-138 | open_cnt stays the number of outstanding opens |
| `FsState.UnlinkedKeeps` | filesys/directory.c:168-195 | removing the entry of an open file marks it removed and keeps its sectors |
| `FsState.ClosedAtKeeps` | filesys/inode.c:149-169 | closing keeps the invariant |
| `FsState.ClosedAtReleases` | filesys/inode.c:149-169 | a close releases the inode's sectors exactly when it is the last one and the file's name was removed |
| `FsState.EndsAtLastClose` | filesys/inode.c:149-177 | a live inode ends only at such a close, which clears exactly its sectors |
| `FsState.FormattedOk` | filesys/filesys.c:106-122 | marking the two system sectors and taking the sectors of the free map's file and of the root directory one after the other establishes the invariant |
| `FsState.FailureLeaks` | filesys/filesys.c:60-73 | a creation that fails after taking its sectors leaves exactly the data sectors marked, so the free map is as before if and only if there are none |
| `FsState.RunKeeps` | filesys/filesys.c:60-103 | over every run of create, open, remove and close, with memory running out at any point |
| `FsState.RunLoses` | filesys/filesys.c:60-103 | a run loses no file if and only if every creation in it wrote a free slot |
| `FsState.LostForever` | filesys/inode.c:149-169 | a file whose entry was overwritten stays live, without a name and with its sectors marked, in every run |
| `FsState.StepDistinct` | filesys/directory.c:126-163 | names stay unique at a step if and only if it does not enter a name that another slot holds |
| `FileSystem.InodeCreate` | filesys/inode.c:67-97 | takes the lowest free run for the data, writes the header and zeroes the data, exactly with memory, a free run and a map that can be saved; otherwise only the file of the map can change |
| `FileSystem.Format` | filesys/filesys.c:18-42 | filesys_init with formatting, exactly unless memory fails or the disk is too small, ends in a valid file system with both system files on the disk, all directory slots free, and the map saved |
| `FileSystem.Mount` | filesys/free-map.c:48-55 | on a disk that has a saved map, free_map_open reads exactly that map back |
| `FileSystem.MountAgain` | filesys/free-map.c:48-55 | a file system whose map is saved finds the same map when it is mounted again |
| `FileSystem.FileSys.InodeOpen` | filesys/inode.c:102-138 | exactly with memory or if the inode is open already, one more outstanding open, with the inode that the header sector holds |
| `FileSystem.FileSys.InodeClose` | filesys/inode.c:149-169 | one outstanding open less; the last close of a file whose name was removed releases exactly its sectors, any other close changes nothing on the disk; states exactly when a file that held the map before still holds it |
| `FileSystem.FileSys.DirOpenRoot` | filesys/directory.c:31-50 | opens the root directory exactly when its inode and the directory object can be had; otherwise every open is as before |
| `FileSystem.FileSys.Create` | filesys/filesys.c:60-73 | succeeds exactly when the root directory opens, both allocations succeed and the directory takes the name; then exactly the lowest free sectors are marked in addition, the new file reads as zeros, its entry is in the slot where the search stopped, a file named there before is lost, and the map is saved; on failure directory and live inodes are as before, and the map too if and only if not both allocations had succeeded or there was no data; every file but the two system files keeps header and data; states exactly when a file that held the map before still holds it |
| `FileSystem.FileSys.Open` | filesys/filesys.c:80-90 | exactly when the root directory opens, the lookup meets the name, its inode opens and there is memory for the file, one more open of the file in the first slot met; nothing changes otherwise |
| `FileSystem.FileSys.Remove` | filesys/filesys.c:96-103 | exactly when the directory opens, the lookup meets the name, its inode opens and the entry can be written, the first slot met becomes free, and the sectors are released at once exactly when nobody has the file open; otherwise nothing changes; every other file but the two system files keeps header and data; states exactly when a file that held the map before still holds it |
| `Failures.FailedCreateLeaks` | filesys/filesys.c:60-73 | on a disk of seven sectors, formatted, with an empty file "a": creating "a" with one byte fails, gives its header sector back and leaves data sector 6 marked |
| `Failures.ShortLookupDuplicates` | filesys/directory.c:139-159 | there, if no read of the lookup finds memory, "a" is stored twice and the directory stands for no map |
| `Failures.ShortScanLoses` | filesys/directory.c:143-159 | there, if no read of the search finds memory, creating "b" overwrites the entry of "a", whose file is lost |
| `Stdio.RevDigitsShort` | lib/stdio.c:469-477 | a number below 8^k takes at most 2k characters in any of the bases, commas included |
| `Stdio.FillBuffer` | lib/stdio.c:469-488 | digits, precision zeros and the octal zero stay inside the 64-byte buffer |
| `Stdio.FormatInteger` | lib/stdio.c:436-510 | the field that `Printing.FieldFollows` and `Printing.NumberFollows` describe, for every 64-bit value, base, flags, width and precision, without overrunning the buffer |
| `Printing.DigitsFollow` | lib/stdio.c:469-477 | in each base the digits, without their commas, read back as the value and have no leading zero; with grouping commas stand exactly between full groups, otherwise there are none |
| `Printing.NumberFollows` | lib/stdio.c:469-488 | the number is those digits after as many zeros as the precision asks for, and one at least for octal with # |
| `Printing.FieldFollows` | lib/stdio.c:490-509 | sign, prefix and number in a field: as long as the larger of width and contents; spaces in front, or behind with -, or zeros after sign and prefix with 0; with both flags zeros and spaces, and so longer |
| `Printing.FormatUnsigned` | lib/stdio.c:211-262 | %o, %u, %x and %X print the value in base 8, 10, 16 and 16, with digits of the right case; "0x" or "0X" exactly for a nonzero value with #; the field has its width and padding; what %u prints of an int without grouping, atoi reads back |
| `Printing.FormatSigned` | lib/stdio.c:169-209 | %d and %i print the magnitude in base 10; a minus exactly for a negative value, otherwise the sign the flags ask for; the field has its width and padding; what is printed of an int without grouping, atoi reads back |
| `Stdio.Atoi` | lib/stdlib.c:9-41 | what `Printing.AtoiReads` describes |
| `Printing.AtoiReads` | lib/stdlib.c:9-41 | any of the six white space characters, perhaps a sign, digits and anything that does not go on with them give the value of the digits, negated after a minus |
| `Stdio.DecimalReads` | lib/stdlib.c:31-36 | reading the decimal digits of n counts down to -n, in range whenever n is at most 2^31 |
| `Stdio.PrintThenParse` | lib/stdlib.c:9-41 | printing any int in decimal with any flags but grouping, any width and precision, then atoi, gives it back without overflow, INT_MIN included |
| `Stdlib.SiftDown` | lib/stdlib.c:96-123 | swapping the larger child up moves the only violation of the heap property down |
| `Stdlib.RootIsMax` | lib/stdlib.c:131-152 | the root of a heap is maximal |
| `Stdlib.Heapify` | lib/stdlib.c:96-123 | terminates and extends the heap property to one more position by permuting the first cnt elements |
| `Stdlib.BuildHeap` | lib/stdlib.c:142-144 | a heap of the same elements |
| `Stdlib.Sort` | lib/stdlib.c:131-152 | ascending for any total preorder, a permutation of the input |
| `Stdlib.BinarySearch` | lib/stdlib.c:184-207 | a match exactly when one exists |

## Left out

- KernelList.List.Splice: does not cover moving a range into another list.
- BlockAllocator.Malloc.Allocate: does not cover requests whose rounded-up page count wraps around 2^64; `BlockAllocator.PageCountEnough` shows that exactly those get too few pages.
- PageAllocator.Palloc.GetMultiple: does not model the contents of pages, so neither PAL_ZERO nor the panic of PAL_ASSERT.
- PageAllocator.Palloc.FreeMultiple: does not cover giving back part of a run, or several adjacent runs at once.
- Mlfqs.Scheduler.TimerInterrupt: leaves out the priority recomputation at every fourth tick, which no statistic reads; the formula is not clamped to 0..63.
- PageTraversal.ForEach: does not cover a visitor that changes the entries it is given.
- PageTraversal.Memory.DestroyLeaf: requires that the frames mapped by the destroyed table are not page tables.
- PageTraversal.Memory.DestroyBranch: requires that the frames mapped through the destroyed subtree are not page tables.
- PageTraversal.Memory.DestroyRoot: requires that the frames mapped under entry 0 are not page tables; the kernel's map of all memory, under the other entries, is not restricted.
- SemaphoreProtocol.SemaphoreSafe: counts in unbounded integers; the wrap-around of the 32-bit semaphore value after 2^32 unmatched ups is not modelled.
- ProcessWait.WaitAnswers: speaks of children whose parent has not exited with the child still on its list; the list walk of an exiting parent goes through the wrong list element in the source, so what it does to orphans is not modelled beyond raising sema_exit of any of them.
- Stdio.PrintThenParse: does not cover the grouping flag, whose commas atoi does not read.
- Priority donation and the order of the ready list: donation assigns priorities unconditionally and stops at depth 8, so neither an effective-priority law nor sortedness of the ready list holds.
- Condition variables: signalling compares the front waiters of lists that may be empty.
- list_unique, list_max, list_min, bitmap_count, realloc and calloc: short routines over the operations modelled here.
- vsnprintf, format strings and their parsing: only the conversions of single integers are modelled.
- inode_deny_write and inode_allow_write as counters: writing takes the outcome of the test as a parameter.
- Pool setup at boot, the FAT file system, the page cache, virtual memory, the fork handshake, device drivers and context switching.
- Linked nodes outside semaphores: the sleep list, hash buckets, free lists and the list of open inodes are sequences here; `KernelList` shows once that the linked list implements such sequences.
