# MatryoshkaOS: a verified model

MatryoshkaOS is a small 32-bit x86 kernel. This project models its stateful core in Dafny and proves
what each component promises over every run: the kernel heap, the physical frame allocator, two-level
paging, the preemptive scheduler with its stack-swapping context switch, the virtual file system with
its in-memory files, the network card's receive ring, the keyboard ring, the Internet checksum with the
echo reply, and the Multiboot2 tag parser.

The command for the whole project is `dafny verify dfyconfig.toml`.

| file | component |
|---|---|
| `Words.dfy` | bytes, words, little-endian encoding |
| `HeapBlocks.dfy`, `HeapLinks.dfy`, `KernelHeap.dfy`, `HeapRuns.dfy` | the heap: block lists as values; linked headers; the allocator over one megabyte of bytes; runs over a map from live pointers to bytes |
| `BitWords.dfy`, `FrameAllocator.dfy` | bits of a bitmap word; the bitmap of frames and its counter |
| `Paging.dfy`, `Bitwise.dfy`, `PagingBits.dfy`, `UserMemory.dfy` | page directory and tables over physical memory and the frame allocator; bitwise operators, and that the words of the model are the C expressions; the pages a user task is given |
| `Multiboot.dfy`, `Boot.dfy` | tag walk, memory total; the frame allocator and paging set up from the boot bytes |
| `Scheduler.dfy`, `ContextSwitch.dfy`, `KernelRuns.dfy`, `TaskKernel.dfy` | round robin with private register files; frames and stack switching that refine it; runs of the whole kernel; the kernel in place |
| `Paths.dfy`, `Ramfs.dfy`, `FileTree.dfy`, `FileRuns.dfy`, `DescriptorRuns.dfy`, `FileSystem.dfy` | path components; growable files; tree and creation; runs over tree, descriptors and contents; what clients rely on, call by call and over runs; the file system in place |
| `ReceiveRing.dfy`, `Keyboard.dfy` | two rings as interleaved protocols, and the drivers that implement them |
| `Internet.dfy` | checksum, echo reply |
| `Witnesses.dfy` | inputs on which the code does less than it seems to |

The C code that changes state in place is modelled by classes and arrays changed in place; each method
is proved against a specification function or an abstract machine, and the theory is proved about those.

## Main results

- **Heap.** Headers live in the same bytes as payloads. Between calls the linked list tiles the region
  and has no neighbouring free blocks. Such a list is determined by its live blocks
  (`CanonicalTilingIsUnique`), so `kfree` undoes `kmalloc` exactly, freeing everything in any order gives
  the initial heap, and first fit is complete: it fails only when there is no room at all. Every run of a
  client that keeps to live pointers is a run on a map from pointers to bytes (`HeapRuns.Run`), in which a
  byte once stored follows its allocation through every `krealloc` (`StoredByteSurvives`).
- **Paging over frames.** The frame allocator never hands out a frame in use, hence no two directory
  entries share a table, hence every run of calls acts, and succeeds or fails, as on one flat map of 2^20
  entries (`PageMap.Run`), and a page's own entry decides ring 3 access (`AccessIsFlat`).
- **Scheduling.** Interrupt entry, handler, scheduler answer and exit through another stack refine a
  machine in which every task owns its registers, over every run (`KernelRuns.RunRefines`,
  `TaskKernel.Kernel.Run`). A task terminates only by its own exit (`LivesUntilItQuits`) and then never
  runs again; a task that lost the CPU is READY, has it again by the 63rd reschedule
  (`PreemptedTaskGetsCpu`), and is resumed through the stack pointer it was suspended with. A handler that
  waits and yields returns with the registers its task was interrupted with (`WaitingHandlerReturns`).
- **Files.** Every run of create, open, close, read and write on nodes, buffers and descriptors in memory
  is a run on a tree, a table and a map from files to byte sequences (`FileSystem.Vfs.Run`). Over all such
  runs paths keep their meaning, untouched files keep their bytes, what was written is read back
  (`CatAfterWrite`), and writes through one descriptor append to each other (`WritesConcatenate`); without
  O_TRUNC every write is a splice. Creation and resolution agree; growth is amortised.
- **Rings.** For every interleaving: once, in order, undamaged, with exact full and empty conditions.
- **Checksum.** Storing the checksum makes any buffer verify, in either byte order.

## Where the code does less than it seems to

Each of these is proved with its exact condition, and `Witnesses.dfy` has calls that fail it.

- `kmalloc` rounds in 32 bits: the block covers the request exactly for sizes up to 2^32-8
  (`RoundingCoversRequest`, `WrappedRequest`).
- `heap_get_stats` counts the first header twice: used exceeds total, and free wraps, exactly when no
  free block is left (`UsedExceedsTotalWhenFull`, `FullHeap`).
- `used_frames` after `pmm_init` is exact if and only if no two available regions share a frame
  (`Allocator.Init`, `OverlapMiscounts`); `find_free_frame` ignores a last incomplete bitmap word
  (`AllocFrame`, `TailFramesAreLost`); `pmm_reserve_region` takes a frame beyond the region if and only if
  the frame after it exists and was free (`ReserveRegion`, `ReservesTheNextFrame`); `pmm_free_frames` computes offsets in 32 bits, so freeing a run undoes its
  allocation if and only if it has at most 2^20 frames (`AllocThenFree`, `LongRunIsNotFreed`).
- `vmm_init` sizes the identity map by the sum of the available lengths: it covers available memory if and
  only if the highest available frame lies below the tables that sum pays for (`IdentityCoversIff`). A hole
  (`HoleLeavesMemoryOut`) or more than 0xFFC00000 bytes (`MuchMemoryIsNotMapped`) leave memory out.
  `mapped_pages` also counts remaps (`Map` says by how much it drifts; `RemapCountsTwice`).
- `task_create_user` opens the page of the first byte of the user stack to ring 3. The stack is usable there if
  and only if it is page-aligned, the page of its top was open already, or that page is one of the two code
  pages (`OpenToUser`); on a fresh heap it is not, so the first push faults (`UserStackStaysClosed`).
- Creation clips names over 63 characters while resolution cuts them into pieces: the path of a new node
  resolves to it if and only if its last name has at most 63 characters (`TargetOfNew`,
  `LongNameIsNotFound`).
- `O_TRUNC` keeps the bytes, and descriptors may be left beyond the end: exactly when the open appends to a
  file that was not empty or another descriptor of the file is not at its start (`TruncKeepsOffsetsIff`). A
  write is a splice for every buffer if and only if the offset is at most the size
  (`SplicesForEveryBufferIff`); beyond it, truncated bytes come back (`StaleByteComesBack`).

## Model

| member | source | states |
|---|---|---|
| `HeapBlocks.CanonicalTilingIsUnique` | kernel/mm/heap.c:79-108 | two block lists that tile the same region, have no neighbouring free blocks and have the same live blocks are equal: the live blocks alone determine the list |
| `HeapBlocks.MergeIsCanonical` | kernel/mm/heap.c:96-108 | for every tiling, merging gives a tiling of the same bytes with no neighbouring free blocks, the same live blocks and the same live byte count |
| `HeapBlocks.FreeKeeps` | kernel/mm/heap.c:160-188 | freeing removes exactly that block from the live set, leaves a canonical tiling and lowers the live bytes by payload plus header |
| `HeapBlocks.AllocKeeps` | kernel/mm/heap.c:79-91 | taking n bytes from a free block keeps tiling and canonical form, adds exactly one live block, at the same address, with at most 24 spare bytes |
| `HeapBlocks.AllocThenFreeRestores` | kernel/mm/heap.c:113-188 | freeing the block just allocated gives back the very same list, whether or not the block was split |
| `HeapBlocks.BytesConserved` | kernel/mm/heap.c:26-50 | live and free bytes, headers included, always add up to the region; free bytes are 0 exactly when nothing is free |
| `HeapBlocks.FirstFitIsLowestPlacement` | kernel/mm/heap.c:55-74 | in a canonical list first fit finds a block exactly when header and payload could be placed anywhere at all between live blocks, and no placement lies lower |
| `HeapBlocks.FreeAllYieldsInitialBlock` | kernel/mm/heap.c:160-188 | freeing all live blocks, in any order, leaves the single initial block |
| `HeapLinks.AbsorbChain` | kernel/mm/heap.c:99-103 | rewriting one header to cover its free successor turns the linked list into the list shorter by one, tiling and magic numbers intact |
| `HeapLinks.SplitChain` | kernel/mm/heap.c:81-90 | writing a header inside a free block and relinking turns the list into the list longer by one, tiling and magic numbers intact |
| `HeapLinks.FlagChain` | kernel/mm/heap.c:132-133 | changing one free flag changes that block of the list and nothing else |
| `HeapLinks.MergeAbsorbs` | kernel/mm/heap.c:96-108 | one absorbing round of the merge loop preserves what the whole merge will yield |
| `HeapLinks.MergeMovesOn` | kernel/mm/heap.c:96-108 | moving past a block that cannot be merged preserves what the whole merge will yield |
| `HeapLinks.MergeEnds` | kernel/mm/heap.c:96-108 | at the end of the loop the list is the merge of the list it started from |
| `KernelHeap.RoundingCoversRequest` | kernel/mm/heap.c:119 | the rounded size covers the request exactly for requests up to 2^32-8; a larger one wraps to 0 |
| `KernelHeap.LivePayloadsAreApart` | kernel/mm/heap.c:113-138 | a byte of a live payload lies in no block header and in no other payload; payloads are 8-aligned and inside the region |
| `KernelHeap.AllocMeetsContract` | kernel/mm/heap.c:113-138 | a first-fit allocation is the lowest placement, 8-aligned, between n and n+31 bytes for requests that do not wrap, and keeps the invariant |
| `KernelHeap.NoFitMeansNoRoom` | kernel/mm/heap.c:124-127 | when no block fits there is no gap between live blocks that could hold the request |
| `KernelHeap.ClientWriteHolds` | kernel/mm/heap.c:136-137 | a client write inside a payload keeps the list and every other payload |
| `KernelHeap.UsedExceedsTotalWhenFull` | kernel/mm/heap.c:233-237 | heap_used plus free bytes is the total plus one header; used is at most total exactly while a free block exists |
| `KernelHeap.Heap.Store` | kernel/mm/heap.c:10-16 | a 32-bit field written into the heap bytes reads back, other bytes unchanged |
| `KernelHeap.Heap.LoadHeader` | kernel/mm/heap.c:10-16 | the four fields of a header |
| `KernelHeap.Heap.StoreHeader` | kernel/mm/heap.c:82-86 | the four fields written read back, other bytes unchanged |
| `KernelHeap.Heap.constructor` | kernel/mm/heap.c:26-50 | the initial state: one free block of the whole region, used equal to one header |
| `KernelHeap.Heap.FindFreeBlock` | kernel/mm/heap.c:55-74 | the first block that fits; in an intact list 0 exactly when none fits; a corrupt header ends the search |
| `KernelHeap.Heap.AbsorbNext` | kernel/mm/heap.c:99-103 | one merge: the list with two blocks replaced by their union, payloads untouched |
| `KernelHeap.Heap.MergeFreeBlocks` | kernel/mm/heap.c:96-108 | the list becomes its merge, no live payload changes, the loop terminates |
| `KernelHeap.Heap.MergeStep` | kernel/mm/heap.c:99-106 | the body of the loop keeps the loop invariant and makes progress |
| `KernelHeap.Heap.WriteSplit` | kernel/mm/heap.c:82-89 | both headers are as written and nothing outside the block changes |
| `KernelHeap.Heap.SplitBlock` | kernel/mm/heap.c:79-91 | the list is split exactly when the remainder is at least 16 bytes beyond a header |
| `KernelHeap.Heap.Kmalloc` | kernel/mm/heap.c:113-138 | fails exactly for 0 or when no room exists anywhere, changing nothing; otherwise one new live block at the lowest placement, of the rounded size unless that left too little room behind it, all other payloads byte for byte unchanged, invariant and counter kept |
| `KernelHeap.Heap.Kfree` | kernel/mm/heap.c:160-188 | null, bad magic and double free change nothing; otherwise exactly that block leaves the live set, the list is canonical again, other payloads unchanged |
| `KernelHeap.Heap.Kzalloc` | kernel/mm/heap.c:143-155 | as kmalloc, and the requested bytes are zero |
| `KernelHeap.Heap.CopyPayload` | kernel/mm/heap.c:218-222 | the old payload is copied whole, all other payloads unchanged |
| `KernelHeap.Heap.Krealloc` | kernel/mm/heap.c:193-228 | null allocates, 0 frees, a fitting size returns the pointer with nothing changed, a failure leaves everything as it was, a move keeps the old contents as prefix and every other payload |
| `KernelHeap.Heap.AllocThenFree` | kernel/mm/heap.c:113-188 | kmalloc followed by kfree of the result restores block list and heap_used, for every state and size |
| `KernelHeap.Heap.FreeEverything` | kernel/mm/heap.c:160-188 | kfree of all live pointers in any order restores the state heap_init made |
| `KernelHeap.Heap.GetStats` | kernel/mm/heap.c:233-237 | used plus free is total while a free block exists; with none, used is total plus a header and free wraps to 2^32-16 |
| `FrameAllocator.TakenAfterSet` | kernel/mm/pmm.c:25-29 | setting a bit of the bitmap takes that frame and no other |
| `FrameAllocator.TakenAfterClear` | kernel/mm/pmm.c:34-38 | clearing a bit frees that frame and no other |
| `FrameAllocator.RoundingKeepsDisjoint` | kernel/mm/pmm.c:131-132 | byte regions that do not overlap have frame ranges, both ends rounded down, that do not overlap |
| `FrameAllocator.CountIsExactIffDisjoint` | kernel/mm/pmm.c:127-140 | counting freed frames region by region is exact if and only if no two available regions share a frame |
| `FrameAllocator.DriftAfterInit` | kernel/mm/pmm.c:125-140 | the counter after clearing equals the number of set bits if and only if the frame ranges are disjoint |
| `FrameAllocator.FrameTotal` | kernel/mm/pmm.c:100-104 | frame count: the highest address rounded up to frames |
| `FrameAllocator.BitmapBytes` | kernel/mm/pmm.c:106-115 | bitmap size: whole words, enough for all frames and less than one word more |
| `FrameAllocator.Allocator.BitmapSet` | kernel/mm/pmm.c:25-29 | exactly that frame becomes taken |
| `FrameAllocator.Allocator.BitmapClear` | kernel/mm/pmm.c:34-38 | exactly that frame becomes free |
| `FrameAllocator.Allocator.BitmapTest` | kernel/mm/pmm.c:43-47 | whether the frame is taken |
| `FrameAllocator.Allocator.FindFreeFrame` | kernel/mm/pmm.c:52-65 | skipping full words finds the lowest free frame below 32*(total/32), and none exactly when all of those are taken |
| `FrameAllocator.Allocator.FreeFrame` | kernel/mm/pmm.c:199-212 | exactly that frame is freed; unknown and free frames change nothing; counter in step |
| `FrameAllocator.Allocator.ReserveFrame` | kernel/mm/pmm.c:253-264 | exactly that frame is taken if it exists; counter in step |
| `FrameAllocator.Allocator.ReserveRegion` | kernel/mm/pmm.c:269-280 | takes the frames the region touches and, the bound being inclusive, the next one, as far as there are frames; one beyond the region exactly when the next frame exists and was free; counter in step |
| `FrameAllocator.Allocator.TakeRun` | kernel/mm/pmm.c:182-185 | marks exactly the run found |
| `FrameAllocator.Allocator.AllocFrames` | kernel/mm/pmm.c:166-194 | the lowest run of count free frames, none exactly when count is 0 or no run exists; exactly the run is added |
| `FrameAllocator.Allocator.MeasureMap` | kernel/mm/pmm.c:86-98 | total memory is the sum of the available lengths modulo 2^64; no available region ends above highest_address, which is the end of an available region or 0, so reserved regions do not count |
| `FrameAllocator.Allocator.ClearAvailable` | kernel/mm/pmm.c:127-140 | exactly the frames of available regions become free; the counter drops by the per-region counts |
| `FrameAllocator.Allocator.BuildBitmap` | kernel/mm/pmm.c:100-140 | sizes, fills and clears the bitmap; the counter is exact if and only if the regions are frame-disjoint |
| `Paging.PageEntryBits` | kernel/mm/vmm.c:167 | an entry keeps the frame of the physical address and the low twelve flag bits, so presence, writability and user are those of the flags |
| `Paging.EntryBits` | kernel/mm/vmm.c:157-164 | a directory entry is present and writable; marking an entry user changes neither frame nor presence nor writability |
| `Paging.AccessIsFlat` | kernel/mm/vmm.c:162-167 | in every well-formed state ring 3 may use a page exactly when the page entry alone is present and user, and write it exactly when that entry is writable too |
| `Paging.WriteEntry` | kernel/mm/vmm.c:166-167 | writing one slot of a present table changes exactly one page of the flat map, because table frames are distinct |
| `Paging.MarkDirectory` | kernel/mm/vmm.c:162-164 | marking a directory entry user changes no page and keeps the invariant |
| `Paging.AddTable` | kernel/mm/vmm.c:152-159 | hanging in a frame that was not in use changes only the pages of that table and keeps table frames distinct |
| `Paging.AddEmptyTable` | kernel/mm/vmm.c:152-159 | hanging in a zeroed frame changes no page |
| `Paging.AddIdentityTable` | kernel/mm/vmm.c:97-114 | one filled table extends the identity map by 4 MiB |
| `Paging.CountAfter` | kernel/mm/vmm.c:168 | writing one entry changes the number of present entries by that entry |
| `Paging.IdentityCount` | kernel/mm/vmm.c:116 | the identity map of n tables has n*1024 present pages |
| `Paging.PageMap.EnsureTable` | kernel/mm/vmm.c:152-159 | succeeds exactly when the table exists or a frame is left; maps nothing; never reuses a frame in use |
| `Paging.PageMap.MakeTable` | kernel/mm/vmm.c:153-158 | a new table from an unused zeroed frame, exactly when one is left |
| `Paging.PresentHasTable` | kernel/mm/vmm.c:209-218 | a present page lies in a slot that has a table |
| `Paging.PageMap.Map` | kernel/mm/vmm.c:148-172 | exactly one page of the flat map changes, and ring 3 may use and write it exactly as the flags say; fails, changing no page, exactly when a table is missing and no frame is left, so never next to a present page; mapped_pages drifts up exactly on remaps and on entries mapped not-present |
| `Paging.PageMap.Unmap` | kernel/mm/vmm.c:174-191 | succeeds exactly on a mapped page and clears exactly that page; mapped_pages follows |
| `Paging.PageMap.SetUser` | kernel/mm/vmm.c:226-242 | succeeds exactly on a mapped page, which ring 3 may then read, and write if the entry is writable, at both levels; even on the failing path no other page entry changes |
| `Paging.PageMap.IsMapped` | kernel/mm/vmm.c:209-218 | whether the flat entry is present |
| `Paging.PageMap.GetPhysical` | kernel/mm/vmm.c:195-207 | frame of the flat entry with the offset of the address, 0 when unmapped |
| `Paging.PageMap.FillIdentity` | kernel/mm/vmm.c:107-110 | the 1024 entries of one table of the identity map: each present, writable, closed to ring 3, and in the frame of its own page |
| `Paging.PageMap.AddIdentity` | kernel/mm/vmm.c:97-114 | one more table of the identity map, or unchanged when no frame is free |
| `Paging.PageMap.Init` | kernel/mm/vmm.c:70-144 | every page below num_pde*4 MiB is mapped to itself, writable and closed to ring 3, and no other page is present; mapped_pages exact; succeeds exactly when there are num_pde frames to hand out, else as many tables as there were frames |
| `Paging.PageMap.Perform` | kernel/mm/vmm.c:148-242 | one call succeeds exactly when it does on the flat map, and is one step of it |
| `Paging.PageMap.Run` | kernel/mm/vmm.c:148-242 | every run of map, unmap and set_user acts on the two-level tables as on one flat map with its slots and remaining frames, which alone decides every answer; the frame counter stays in step, mapped_pages an upper bound |
| `Scheduler.SuccIsMod` | kernel/proc/task.c:44 | stepping an id modulo count |
| `Scheduler.NextIsNext` | kernel/proc/task.c:43-53 | the scan picks the first runnable task in cyclic order, or the current one when there is no other |
| `Scheduler.StepKeepsInv` | kernel/proc/task.c:85-242 | every step keeps: only the current task is RUNNING, and the current one is never READY |
| `Scheduler.StepKeepsOthers` | kernel/proc/task.c:221-242 | no step touches the registers of a task off the CPU; a terminated task is never switched to |
| `Scheduler.RescheduleApproaches` | kernel/proc/task.c:221-242 | every effective reschedule strictly lowers the cyclic distance modulo 64 to each READY task; no other step switches |
| `Scheduler.RunKeepsInv` | kernel/proc/task.c:85-242 | the invariant holds in every reachable state |
| `Scheduler.TerminatedStaysOff` | kernel/proc/task.c:207-242 | in no run does a terminated task get the CPU again |
| `Scheduler.SuspendedIsFrozen` | kernel/proc/task.c:221-242 | over any run in which a task does not get the CPU its registers and state do not change |
| `Scheduler.ResumesWithItsRegisters` | kernel/proc/task.c:221-242 | the event that brings a task back finds exactly the registers it was suspended with |
| `Scheduler.WaitIsBounded` | kernel/proc/task.c:43-53 | while a READY task waits, fewer reschedules happen than its distance |
| `Scheduler.ReadyTaskRunsWithin63` | kernel/proc/task.c:43-53 | a READY task is on the CPU by the 63rd reschedule, even while tasks are created and others exit |
| `ContextSwitch.PopsWhatWasPushed` | kernel/arch/x86_64/isr.asm:96-120 | for both frame shapes, popping what entry pushed gives back every register |
| `ContextSwitch.SavedResult` | kernel/arch/x86_64/idt.c:134-135 | a value stored in the frame by a system call comes back as EAX and nothing else changes |
| `ContextSwitch.SwitchedIs` | kernel/proc/task.c:230-236 | a switch stores the stack pointer of the task it leaves and changes the saved stack pointer of no other task; only the two tasks involved change state |
| `ContextSwitch.SwitchSafe` | kernel/proc/task.c:230-241 | switching to a runnable task keeps stacks apart, frames in place, ESP0 at the top of the new stack, and every task's registers |
| `ContextSwitch.ScheduleRefines` | kernel/proc/task.c:221-242 | leaving through the stack pointer the scheduler answers is the scheduling step of the machine with private register files |
| `ContextSwitch.InterruptRefines` | kernel/arch/x86_64/idt.c:131-143 | handler, scheduler and stack swap together are one abstract interrupt |
| `ContextSwitch.KernelFrameStarts` | kernel/proc/task.c:106-122 | the frame built for a kernel task starts it at entry with task_exit as return address |
| `ContextSwitch.UserFrameStarts` | kernel/proc/task.c:175-192 | the frame built for a user task starts it in ring 3 at entry on top of its user stack |
| `ContextSwitch.CreateRefines` | kernel/proc/task.c:85-134 | building a frame on a stack of its own is an abstract creation and disturbs no other task |
| `Paths.NextComponent` | kernel/fs/vfs.c:39-51 | the next component and the position after it, consistent with the component list of the whole path; none exactly at the end |
| `Paths.CopyName` | kernel/fs/vfs.c:44-47 | the characters up to a slash, the end, or 63 of them |
| `Paths.ComponentsJoin` | kernel/fs/vfs.c:39-51 | components of a/b are those of a followed by those of b, so repeated slashes do not matter |
| `Paths.ComponentsOfName` | kernel/fs/vfs.c:44-47 | a slash-free name is one component if shorter than 64; a longer one is cut and yields at least two |
| `Paths.LastSlashCutsLastComponent` | kernel/fs/vfs.c:94-118 | cutting at the last slash is dropping the last component |
| `FileTree.FindIs` | kernel/fs/ramfs.c:118-124 | a lookup finds a child of that name exactly when there is one |
| `FileTree.AddedIsOk` | kernel/fs/ramfs.c:140-153 | creation keeps sibling names distinct and the tree well-formed |
| `FileTree.WalkKept` | kernel/fs/ramfs.c:140-153 | every path that led to a node before a creation leads to the same node after it |
| `FileTree.WalkAppend` | kernel/fs/vfs.c:81-87 | walking a path in two parts |
| `FileTree.WalkToNew` | kernel/fs/ramfs.c:140-153 | parent path plus the new name leads to the new node, and nothing lies below it |
| `FileTree.TargetOfNew` | kernel/fs/vfs.c:94-118 | the path given to a creation resolves to the new node if and only if its last name has at most 63 characters |
| `FileTree.SpellsAdded` | kernel/fs/ramfs.c:148-150 | linking at the head of the child list spells out the tree with the node added |
| `FileSystem.LastSlashOf` | kernel/fs/vfs.c:97-100 | position of the last slash |
| `Ramfs.NoneBetween` | kernel/fs/ramfs.c:72-73 | capacities at least double, which bounds the bytes copied by growth |
| `Ramfs.File.constructor` | kernel/fs/ramfs.c:60-64 | an empty file without buffer |
| `Ramfs.File.Grown` | kernel/fs/ramfs.c:72-73 | the smallest doubling that suffices, below twice the need |
| `Ramfs.File.EnsureCapacity` | kernel/fs/ramfs.c:70-86 | growth changes no byte; capacity is 0 or 64*2^k; bytes ever copied stay at most the capacity; fails exactly when memory does |
| `Ramfs.File.Read` | kernel/fs/ramfs.c:90-102 | the contents from the offset, as far as they go |
| `Ramfs.File.Truncate` | kernel/fs/vfs.c:138-140 | size 0, every byte of the buffer unchanged |
| `ReceiveRing.CardWritesFreeSlot` | kernel/drivers/e1000.c:320-337 | the card never writes into a slot whose frame was not returned; fewer than 31 frames wait then |
| `ReceiveRing.StepKeepsInv` | kernel/drivers/e1000.c:320-337 | every step of card or driver, in any interleaving, keeps the ring invariant |
| `ReceiveRing.DoneMeansWaiting` | kernel/drivers/e1000.c:320-337 | between calls the current descriptor is done exactly when a frame waits, and the tail is (rx_cur-1) mod 32 |
| `ReceiveRing.RunKeepsInv` | kernel/drivers/e1000.c:160-176 | the invariant holds in every reachable state |
| `ReceiveRing.InitKeepsInv` | kernel/drivers/e1000.c:160-176 | the initial ring satisfies the invariant |
| `ReceiveRing.DeliveredInOrder` | kernel/drivers/e1000.c:320-337 | in every run from init_rx the frames the card put in are delivered once each, in order, undamaged and cut to the caller's buffer; at most 31 are unread |
| `ReceiveRing.CallExec` | kernel/drivers/e1000.c:320-337 | an undisturbed call is its four protocol steps |
| `ReceiveRing.Driver.constructor` | kernel/drivers/e1000.c:160-176 | the initial ring |
| `ReceiveRing.Driver.Receive` | kernel/drivers/e1000.c:320-337 | the first bytes of the oldest undelivered frame, as many as it has and fit; nothing, with nothing changed, exactly when none waits |
| `Keyboard.DropsExactlyWhenFull` | kernel/drivers/keyboard.c:54-60 | a character is dropped exactly when 255 are waiting, even between the reader's two steps |
| `Keyboard.StepKeepsInv` | kernel/drivers/keyboard.c:54-60 | every step of handler or reader keeps the invariant; no unread slot is overwritten |
| `Keyboard.RunKeepsInv` | kernel/drivers/keyboard.c:166-177 | the invariant holds in every reachable state |
| `Keyboard.ReturnedIsPrefix` | kernel/drivers/keyboard.c:166-177 | in every interleaving the characters returned are a prefix of those stored, and of those that came if none was dropped |
| `Keyboard.Driver.constructor` | kernel/drivers/keyboard.c:148-153 | the empty ring |
| `Keyboard.Driver.BufPut` | kernel/drivers/keyboard.c:54-60 | one handler step of the protocol: the character is stored unless 255 wait |
| `Keyboard.Driver.GetChar` | kernel/drivers/keyboard.c:166-177 | two reader steps of the protocol; the oldest character |
| `Internet.FoldIsRemainder` | kernel/net/net.c:27 | folding ends with 16 bits congruent to the sum modulo 0xFFFF, 0 only for 0 |
| `Internet.VerifiesIff` | kernel/net/net.c:22-29 | a buffer verifies if and only if its sum is a positive multiple of 0xFFFF |
| `Internet.SumWithField` | kernel/net/net.c:101-108 | storing a word in a zero, even-aligned field adds it to the sum |
| `Internet.ChecksumMakesItVerify` | kernel/net/net.c:101-108 | storing the checksum of the zeroed-field buffer makes the buffer verify, odd lengths included |
| `Internet.ByteOrder` | kernel/net/net.c:22-29 | native and network order sums agree up to a factor 256 modulo 0xFFFF |
| `Internet.VerifiesInAnyByteOrder` | kernel/net/net.c:22-29 | a buffer verifies here exactly when it verifies with the big-endian sum of RFC 1071 |
| `Internet.IpChecksum` | kernel/net/net.c:22-29 | the loops compute the checksum; the 32-bit sum does not overflow and folding terminates |
| `Internet.DataIsEchoed` | kernel/net/net.c:86-108 | field by field: the reply goes to the hardware and Internet addresses the request came from, from those of this host; time to live 64, type echo reply; frame type, all other header bytes with options, code, identifier, sequence number and data are those of the request |
| `Internet.CopyInto` | kernel/net/net.c:86 | exactly the copied range changes |
| `Internet.StampChecksum` | kernel/net/net.c:101-102 | the range verifies afterwards and only the field changed |
| `Internet.Rewrite` | kernel/net/net.c:86-105 | both pairs of addresses exchanged, time to live set, every other byte that of the request |
| `Internet.BuildReply` | kernel/net/net.c:84-110 | both checksums verify and every field is as the reply needs it |
| `Internet.HandleIp` | kernel/net/net.c:65-129 | replies exactly to version 4 packets for this host that carry an ICMP echo request and whose reply has at most 1518 bytes, with both checksums right and every field as the reply needs it |
| `Multiboot.HeadOfTag` | kernel/arch/x86_64/multiboot2.c:18-25 | type, size and payload read back from a serialised tag |
| `Multiboot.FindTag` | kernel/arch/x86_64/multiboot2.c:11-28 | on the encoding of any tag list the walk terminates at the first tag of the type, and at none exactly when there is none |
| `Multiboot.SumEntries` | kernel/arch/x86_64/multiboot2.c:44-49 | the sum of the available lengths modulo 2^64, for every entry size from 24 |
| `Multiboot.TotalOfMap` | kernel/arch/x86_64/multiboot2.c:40-52 | the same from a memory map tag, entry count recovered by division |
| `Multiboot.TotalMemory` | kernel/arch/x86_64/multiboot2.c:33-66 | with a memory map the total pmm_init computes, else the basic sizes plus 1 MiB, else 0 |
| `KernelHeap.Heap.Load` | kernel/mm/heap.c:10-16 | a 32-bit field: the number whose little-endian encoding is the four bytes there |
| `FrameAllocator.Allocator.AllocFrame` | kernel/mm/pmm.c:150-161 | the frame returned was not in use and is the lowest; exactly it is added; none exactly when all frames below 32*(total/32) are taken; the counter keeps its distance from the number of set bits; one frame fewer is left to hand out |
| `FrameAllocator.FreedIsSpan` | kernel/mm/pmm.c:217-221 | the offset being computed in 32 bits, a run is freed only as far as 2^20 frames |
| `FrameAllocator.Allocator.FreeFrames` | kernel/mm/pmm.c:217-221 | exactly the frames at the wrapped offsets are freed; counter in step |
| `FrameAllocator.Allocator.AllocThenFree` | kernel/mm/pmm.c:166-221 | while frame 0 is reserved, freeing the run just allocated restores the frames in use if and only if it has at most 2^20 frames; of a longer one the rest stays in use and counted |
| `FrameAllocator.TakesBeyondIff` | kernel/mm/pmm.c:269-280 | reserving a region newly takes a frame that starts at or after its end if and only if the frame after it exists, is reached by the loop and was free |
| `FrameAllocator.FramesBelowIff` | kernel/mm/pmm.c:127-140 | all available frames lie below a bound exactly when the highest one does |
| `FrameAllocator.Allocator.Init` | kernel/mm/pmm.c:70-145 | highest_address is the highest end of an available region; frames in use are all but the available ones plus the reserved low region; frame 0 is reserved; the counter is exact if and only if no two available regions share a frame, in particular when their bytes are disjoint; regions may wrap around 2^64 |
| `Paging.TablesSpanTotal` | kernel/mm/vmm.c:81-89 | the tables span the total if and only if it is at most 0xFFC00000 bytes; above that the 32-bit rounding wraps and one table is made, as for 0 |
| `Paging.IdentityCoversIff` | kernel/mm/vmm.c:81-117 | the identity map covers every available frame of a memory map if and only if the highest one lies below the tables, whose number comes from the sum of the lengths |
| `Paging.PageMap.constructor` | kernel/mm/vmm.c:75-76 | the zeroed directory: nothing mapped, counters zero |
| `PagingBits.FlagTests` | kernel/include/matryoshka/vmm.h:22-24 | the flag tests are the C masks |
| `PagingBits.OrUser` | kernel/mm/vmm.c:164 | marking an entry user is the C or |
| `PagingBits.PageEntryWord` | kernel/mm/vmm.c:167 | a page entry is the C expression of masks and or |
| `PagingBits.TableEntryWord` | kernel/mm/vmm.c:157-158 | a directory entry is the C expression of ors |
| `PagingBits.Masks` | kernel/include/matryoshka/vmm.h:33 | address and flag masks split a word at bit 12 |
| `PagingBits.IndexWords` | kernel/include/matryoshka/vmm.h:36-38 | the two indices and the offset are the C shifts and masks |
| `ContextSwitch.OthersKeep` | kernel/arch/x86_64/isr.asm:96-120 | writes that spare the other kernel stacks change no other task |
| `ContextSwitch.EnterSaves` | kernel/arch/x86_64/isr.asm:96-110 | entry saves the registers of the running task on its own stack and changes nothing abstractly |
| `ContextSwitch.HandlerKeeps` | kernel/arch/x86_64/idt.c:134-140 | a handler that uses the stack below the frame and stores anywhere off the other kernel stacks and off the frame changes only the saved EAX and the request flag of the abstract machine |
| `KernelRuns.InterruptActs` | kernel/arch/x86_64/idt.c:131-143 | from vector to iret: one abstract interrupt, a safe state, no other saved ESP or kernel stack changed, a switch resumes through the saved ESP |
| `KernelRuns.EndedIsSafe` | kernel/proc/task.c:211-212 | marking the current task terminated keeps the invariant |
| `KernelRuns.KernelTaskRefines` | kernel/proc/task.c:85-134 | task_create as a whole is an abstract creation that leaves all other tasks, stacks and saved ESPs |
| `KernelRuns.UserTaskRefines` | kernel/proc/task.c:136-205 | the same for task_create_user |
| `KernelRuns.ActRefines` | kernel/proc/task.c:85-242 | every action of the kernel is its event of the machine with private register files and leaves other tasks alone |
| `KernelRuns.RunRefines` | kernel/proc/task.c:85-242 | every interleaving of interrupts, task code, creations and exits on the stack-swapping machine is a run of the machine with private register files |
| `KernelRuns.OffCpuMeansSame` | kernel/proc/task.c:221-242 | a task is off the CPU throughout a run of the kernel exactly when it is in the abstract run |
| `KernelRuns.SavedEspIsFrozen` | kernel/proc/task.c:230-241 | over any run that keeps a task off the CPU its saved ESP and its kernel stack do not change |
| `KernelRuns.ResumedWithSavedEsp` | kernel/proc/task.c:230-241 | after any such run the task is resumed through exactly the ESP it was suspended with, and with the registers saved there then |
| `KernelRuns.TerminatedStaysOffCpu` | kernel/proc/task.c:207-242 | in no run of the kernel does a terminated task get the CPU again |
| `KernelRuns.ReadyTaskGetsCpu` | kernel/proc/task.c:43-53 | in every run of the kernel a READY task gets the CPU by the 63rd action that ends with a request pending |
| `KernelRuns.AlwaysSafe` | kernel/proc/task.c:237-239 | in every reachable state TSS.ESP0 is the top of the kernel stack of a current user task, and only the current task is RUNNING |
| `TaskKernel.Kernel.FindNextReady` | kernel/proc/task.c:43-53 | the loop answers the first runnable task in cyclic order |
| `TaskKernel.Kernel.ScheduleIfNeeded` | kernel/proc/task.c:221-242 | without a request, or with no other task that has not terminated, nothing but the flag changes; otherwise the task that was RUNNING is READY and keeps the given ESP, the next one is RUNNING, its saved ESP is answered and its kernel stack is in ESP0; no other task changes |
| `TaskKernel.Kernel.Push` | kernel/proc/task.c:106-122 | values pushed one by one below the stack pointer, rest of memory unchanged |
| `TaskKernel.Kernel.Enter` | kernel/arch/x86_64/isr.asm:96-110 | the registers are saved where Leave finds them, on the right stack, no other kernel stack touched |
| `TaskKernel.Kernel.Leave` | kernel/arch/x86_64/isr.asm:112-120 | loads the registers from the frame at the given stack pointer |
| `TaskKernel.Kernel.IsrHandler` | kernel/arch/x86_64/idt.c:131-143 | halts exactly on an unhandled exception; otherwise handler memory, request flag and scheduling decision exactly |
| `TaskKernel.Kernel.TakeInterrupt` | kernel/arch/x86_64/isr.asm:96-120 | an interrupt from vector to iret is one step of the machine with private register files; other kernel stacks and saved ESPs are unchanged; no task terminates, the CPU changes hands only at a request, and the task that lost it is READY |
| `TaskKernel.Kernel.constructor` | kernel/proc/task.c:62-83 | the boot thread as task 0, RUNNING, with no request pending |
| `TaskKernel.Kernel.Register` | kernel/proc/task.c:106-133 | the frame on the new stack, the table entry, the stack added to those in use |
| `TaskKernel.Kernel.CreateKernelTask` | kernel/proc/task.c:85-134 | fails exactly when the table is full or memory is; otherwise a READY task that starts at entry in ring 0 on its own stack; other tasks, stacks and saved ESPs unchanged |
| `TaskKernel.Kernel.CreateUserTask` | kernel/proc/task.c:136-205 | the same for a ring 3 task with its two stacks, which starts at entry on top of its user stack |
| `TaskKernel.Kernel.TaskExit` | kernel/proc/task.c:211-215 | the task has terminated, then rescheduled through INT 0x81: the abstract exit; suspended tasks keep stacks, saved ESPs and states |
| `TaskKernel.Kernel.Perform` | kernel/proc/task.c:85-242 | each action in place is the action on the state, with the states of all tasks as they must become |
| `TaskKernel.Kernel.Run` | kernel/proc/task.c:85-242 | every run in place is a run of the machine with private register files; a task off the CPU throughout keeps its saved ESP and the registers saved there; a task has terminated exactly if it had before or exited |
| `Paths.RepeatedSlashes` | kernel/fs/vfs.c:41 | repeated, leading and trailing slashes do not matter |
| `Ramfs.SplicesIffGapIsZero` | kernel/fs/ramfs.c:104-116 | overwriting the buffer is a write to a zero-extended sequence if and only if the skipped bytes are zero |
| `Ramfs.SplicesForEveryBufferIff` | kernel/fs/ramfs.c:104-116 | of offset and size alone: it is so whatever lies beyond the end if and only if the offset is at most the size |
| `Ramfs.OverwriteIsSplice` | kernel/fs/ramfs.c:112-113 | a write at or before the end is a splice |
| `Ramfs.File.Write` | kernel/fs/ramfs.c:104-116 | exactly the range changes and the size grows to cover it; splice of the contents if and only if the gap is zero, which holds at offsets up to the size and in runs without truncation; fails exactly when memory does |
| `FileRuns.StepKeepsSound` | kernel/fs/vfs.c:122-192 | every call keeps descriptors on nodes of the tree |
| `FileRuns.StepKeepsOffsets` | kernel/fs/vfs.c:152-171 | a call that does not truncate leaves no descriptor beyond the end of its file |
| `FileRuns.TruncKeepsOffsetsIff` | kernel/fs/vfs.c:130-140 | a truncating open leaves a descriptor beyond the end if and only if it appends to a file that was not empty or another descriptor of the file is not at its start |
| `FileRuns.WithoutTruncWritesSplice` | kernel/fs/vfs.c:162-171 | in every run without O_TRUNC every offset is at most its file size and every write is a splice of the contents |
| `FileRuns.UntouchedFileKeeps` | kernel/fs/vfs.c:122-192 | over any run whose calls neither write nor truncate a file its contents stay the same |
| `FileRuns.ReadsBackWhatWasWritten` | kernel/fs/vfs.c:152-171 | what was written is read back through any descriptor after any calls that do not touch the file, closing and opening included |
| `FileRuns.PathsKeepTheirMeaning` | kernel/fs/vfs.c:175-192 | over every run a path that led to a node leads to that node still |
| `FileRuns.StepKeepsLimit` | kernel/fs/vfs.c:152-171 | only writes move an offset or a size beyond the largest there was, by at most their length |
| `FileSystem.Vfs.constructor` | kernel/fs/ramfs.c:157-165 | a root directory, no file, no descriptor in use, everything fresh |
| `FileSystem.Vfs.Lookup` | kernel/fs/ramfs.c:118-124 | the child of that name, null for none or for a file |
| `FileSystem.Vfs.Resolve` | kernel/fs/vfs.c:73-88 | the node the component list leads to |
| `FileSystem.Vfs.Readdir` | kernel/fs/vfs.c:194-200 | entry index of the child list, for directories and indices within it only |
| `FileSystem.Vfs.ResolveParent` | kernel/fs/vfs.c:94-118 | the node of the path before the last slash and the clipped name after it; null for relative paths, empty names, parents of 256 characters or more |
| `FileSystem.Vfs.AllocNode` | kernel/fs/ramfs.c:44-68 | a fresh node; a fresh empty payload for plain files if memory allows, none for directories |
| `FileSystem.Vfs.Create` | kernel/fs/ramfs.c:140-153 | fails exactly for a non-directory, an existing name or no memory; otherwise the tree with the node added and an empty file for it |
| `FileSystem.Vfs.Link` | kernel/fs/ramfs.c:148-150 | list links, tree and files stay in agreement |
| `FileSystem.Vfs.CreateAt` | kernel/fs/vfs.c:175-192 | succeeds exactly when the place is free and memory is there, with a node of the kind asked for; the path then resolves to the new node unless its name was clipped; every path resolved before still resolves alike; no file changes |
| `FileSystem.Vfs.AllocFd` | kernel/fs/vfs.c:26-31 | the lowest free descriptor, none exactly when all are used |
| `FileSystem.Vfs.Locate` | kernel/fs/vfs.c:123-128 | the resolved node, or the created one when asked to |
| `FileSystem.Vfs.Attach` | kernel/fs/vfs.c:130-142 | lowest free descriptor, offset 0 or end of file, contents emptied on truncation, bytes in the buffer untouched, no other file changed |
| `FileSystem.Vfs.Open` | kernel/fs/vfs.c:122-143 | tree, table and contents after an open, exactly; no buffer replaced; everything stays valid |
| `FileSystem.Vfs.Close` | kernel/fs/vfs.c:145-150 | frees exactly an open descriptor |
| `FileSystem.Vfs.Read` | kernel/fs/vfs.c:152-160 | the next bytes of the contents, offset moved past them; nothing for a closed descriptor or a directory |
| `FileSystem.Vfs.Write` | kernel/fs/vfs.c:162-171 | succeeds exactly with a file and room or memory; the offset moves past what was written; exactly the range at the offset changes, in that file only; a splice at offsets up to the size and on clean files |
| `FileSystem.Vfs.ReadAll` | kernel/shell.c:285-288 | reading in any positive chunks ends and returns exactly the rest of the file |
| `FileSystem.Vfs.Perform` | kernel/fs/vfs.c:122-192 | each call in place does what it does to tree, table and contents |
| `FileSystem.Vfs.Run` | kernel/fs/vfs.c:122-192 | every run of create, open, close, read and write in place is a run on a tree, a descriptor table and a map from files to byte sequences |
| `Boot.ReadEntries` | kernel/mm/pmm.c:86-98 | the entries pmm_init walks, for every entry size from 24 |
| `Boot.PmmInit` | kernel/mm/pmm.c:70-145 | pmm_init on the boot bytes: nothing without a memory map, else the initial state for its entries |
| `Boot.BootMemory` | kernel/mm/pmm.c:86-98 | on the same boot bytes multiboot_get_total_memory and pmm_init arrive at the sum of the available lengths; the state pmm_init leaves; vmm_init maps every page below its tables to itself, writable, and covers available memory if and only if its highest frame lies below the tables |
| `Boot.MapMemory` | kernel/mm/vmm.c:70-144 | vmm_init after pmm_init succeeds exactly when there are frames for all tables and keeps the state of the frame allocator but for those |
| `Witnesses.FullHeap` | kernel/mm/heap.c:233-237 | a request that takes the whole heap: used exceeds total and free wraps |
| `Witnesses.WrappedRequest` | kernel/mm/heap.c:119 | a request of 2^32-1 bytes is granted with at most 24 |
| `Witnesses.TailFramesAreLost` | kernel/mm/pmm.c:52-65 | 0x408 frames with the first 0x400 taken: pmm_alloc_frame fails, pmm_alloc_frames(1) succeeds |
| `Witnesses.ReservesTheNextFrame` | kernel/mm/pmm.c:269-280 | reserving one page takes the next one too |
| `Witnesses.OverlapMiscounts` | kernel/mm/pmm.c:127-140 | two overlapping regions: the counter is wrong |
| `Witnesses.LongRunIsNotFreed` | kernel/mm/pmm.c:217-221 | a run of 2^20+1 frames, allocated and freed: one frame stays in use |
| `Witnesses.HoleLeavesMemoryOut` | kernel/mm/vmm.c:81-89 | two regions below 4 MiB in sum with a hole: one table, the top is not mapped |
| `Witnesses.MuchMemoryIsNotMapped` | kernel/mm/vmm.c:81-89 | 0xFFC01000 bytes: one table |
| `Witnesses.RemapCountsTwice` | kernel/mm/vmm.c:168 | mapping a page of the identity map again: mapped_pages is one too high |
| `Witnesses.LongNameIsNotFound` | kernel/fs/vfs.c:94-118 | a name of 64 characters: the path of the new node does not lead to it |
| `Witnesses.StaleByteComesBack` | kernel/fs/vfs.c:138-140 | O_TRUNC with O_APPEND and a write: the byte truncated away is read back |
| `KernelRuns.EntryActs` | kernel/arch/x86_64/isr.asm:96-109 | entering a handler saves the registers in the frame and is a step of the task itself; other tasks untouched |
| `KernelRuns.ExitActs` | kernel/arch/x86_64/isr.asm:110-120 | returning from a handler through its frame is a step to the saved registers and then an abstract interrupt |
| `KernelRuns.RunSpares` | kernel/syscall/syscall.c:47-58 | over any run, words of a kernel stack that its own task stays below and other tasks cannot reach do not change |
| `KernelRuns.WaitingHandlerReturns` | kernel/syscall/syscall.c:47-58 | a handler that waits: however often it yields or is interrupted, and whatever other tasks do, when it returns the task has the registers it was interrupted with, but for the result in EAX |
| `TaskKernel.Kernel.EnterHandler` | kernel/arch/x86_64/isr.asm:96-109 | the start of an interrupt as a step of its own: registers saved in the frame, kernel segments loaded, kernel code goes on below the frame |
| `TaskKernel.Kernel.LeaveHandler` | kernel/arch/x86_64/isr.asm:110-120 | its end: result, scheduler decision, way out through the frame |
| `HeapRuns.StepKeepsApart` | kernel/mm/heap.c:113-228 | every call keeps allocations aligned, in the region, and apart from one another and from all headers |
| `HeapRuns.AlwaysApart` | kernel/mm/heap.c:113-228 | so they are in every state of every run |
| `HeapRuns.UntouchedKeeps` | kernel/mm/heap.c:113-228 | over any run whose calls do not free, reallocate or store through a pointer its bytes stay the same |
| `HeapRuns.RoomIsGap` | kernel/mm/heap.c:55-74 | room between allocations, seen through pointers and sizes, is a gap between live blocks |
| `HeapRuns.DoMalloc` | kernel/mm/heap.c:113-138 | kmalloc on the bytes is an allocation in the map from live pointers to bytes: null exactly for 0 or no room anywhere, else the lowest place |
| `HeapRuns.DoZalloc` | kernel/mm/heap.c:143-155 | the same for kzalloc, with zeros |
| `HeapRuns.DoFree` | kernel/mm/heap.c:160-188 | kfree of a live pointer takes exactly it out of the map; null changes nothing |
| `HeapRuns.DoRealloc` | kernel/mm/heap.c:193-228 | krealloc on the map: allocate, free, keep, fail with nothing changed, or move with the old bytes as prefix |
| `HeapRuns.DoStore` | kernel/mm/heap.c:136-137 | a store through a live pointer changes exactly that byte of the map |
| `HeapRuns.Perform` | kernel/mm/heap.c:113-228 | each call in place does what it does to the map |
| `HeapRuns.Run` | kernel/mm/heap.c:113-228 | every run of kmalloc, kzalloc, kfree, krealloc and stores, for every client that keeps to live pointers whatever it is answered, is a run on the map from live pointers to bytes |
| `HeapRuns.InitialMap` | kernel/mm/heap.c:26-50 | the heap heap_init makes is the empty map |
| `Words.DecodeEncode` | kernel/mm/heap.c:10-16 | little-endian decoding inverts encoding |
| `Scheduler.OnlyExitTerminates` | kernel/proc/task.c:211-242 | after any event a task has terminated exactly if it had before or it is the one that exits |
| `Scheduler.CpuIsHandedOver` | kernel/proc/task.c:221-242 | the CPU changes hands only at a request and always when another task is READY; the task it leaves is READY unless it has terminated, the one it goes to was READY and is RUNNING; a request does not outlive the event that serves it |
| `Scheduler.RegistersAfter` | kernel/arch/x86_64/idt.c:131-143 | an interrupt changes no register of any task but EAX of the current one, and that only for a result; a creation adds one READY task and changes nothing else |
| `Scheduler.PreemptedTaskComesBack` | kernel/proc/task.c:221-242 | a RUNNING task from which any event but its exit took the CPU has it again by the 63rd reschedule after that, in every run |
| `Scheduler.LivesUntilItExits` | kernel/proc/task.c:211-242 | after any run a task has terminated exactly if it had before or exited in it |
| `KernelRuns.ActPasses` | kernel/proc/task.c:85-242 | every action of the kernel: only an exit terminates a task; the CPU changes hands only at a request, from a task that becomes READY unless it terminated, to one that was READY; other tasks keep their states |
| `KernelRuns.LivesUntilItQuits` | kernel/proc/task.c:211-242 | in every run of the kernel a task has terminated exactly if it had before or called task_exit |
| `KernelRuns.RequestsAreReschedulings` | kernel/proc/task.c:217-225 | actions that end with a request pending are the reschedules of the abstract run |
| `KernelRuns.PreemptedTaskGetsCpu` | kernel/proc/task.c:221-242 | in every run of the kernel a RUNNING task from which an interrupt took the CPU has it again by the 63rd reschedule |
| `KernelRuns.QuitterStaysOffCpu` | kernel/proc/task.c:211-215 | task_exit leaves the task terminated, and once another task runs it never has the CPU again |
| `KernelRuns.InterruptedTaskKeepsRegisters` | kernel/arch/x86_64/idt.c:131-143 | the interrupted task, on the CPU or in its frame, has the registers it had, but for a result in EAX |
| `KernelRuns.NewTaskStarts` | kernel/proc/task.c:85-205 | a new task is READY at its entry point: a kernel task in ring 0 on its stack with task_exit on top, a user task in ring 3 on top of its user stack; interrupts on, general registers 0 |
| `ContextSwitch.FrameLayout` | kernel/include/matryoshka/idt.h:51-59 | the frame entry pushes has the fields of interrupt_frame_t in order, the last two only from ring 3 |
| `TaskKernel.ScheduledHandsOver` | kernel/proc/task.c:221-242 | the scheduler function meets the table described for ScheduleIfNeeded |
| `DescriptorRuns.ReadEffect` | kernel/fs/vfs.c:152-160 | a read returns as many bytes as asked for and there are, from the offset on, and moves that offset alone |
| `DescriptorRuns.WriteEffect` | kernel/fs/vfs.c:162-171 | a write moves that offset past the whole buffer, changes no other file, and at offsets up to the size puts the buffer over what was there |
| `DescriptorRuns.CloseEffect` | kernel/fs/vfs.c:145-150 | a close frees that descriptor alone |
| `DescriptorRuns.CreateEffect` | kernel/fs/vfs.c:175-192 | a creation makes an empty node of the kind asked for at the head of a directory, exactly when there is room and memory, and else changes nothing |
| `DescriptorRuns.OpenEffect` | kernel/fs/vfs.c:122-143 | a missing path without O_CREAT changes nothing, with it a file is created exactly when there is room; an existing path adds no node; lowest free descriptor, at the start or the former end; truncation empties that file alone |
| `DescriptorRuns.StepKeepsDescriptor` | kernel/fs/vfs.c:122-171 | no call changes a descriptor in use but one through it |
| `DescriptorRuns.OffsetCounts` | kernel/fs/vfs.c:152-171 | over every run in which a descriptor is not closed its offset is what it was plus all bytes read and written through it |
| `DescriptorRuns.WritesConcatenate` | kernel/fs/vfs.c:162-171 | over every run in which nobody else touches the file, all writes through a descriptor leave it as one write of their concatenation would, and the descriptor behind it |
| `DescriptorRuns.TwoWritesAppend` | kernel/shell.c:347-348 | two successful writes through one descriptor leave the splice of their concatenation and the descriptor behind both |
| `DescriptorRuns.ReadAfterWrite` | kernel/fs/vfs.c:152-171 | a read through the descriptor just written through starts behind what was written |
| `DescriptorRuns.TwoReadsContinue` | kernel/fs/vfs.c:152-160 | two reads through one descriptor return consecutive bytes |
| `DescriptorRuns.WriteCommandWrites` | kernel/shell.c:339-349 | after the calls of the write command the file holds text and newline, whatever it held before; no other file or descriptor changed |
| `DescriptorRuns.OpenedIsFound` | kernel/fs/vfs.c:122-143 | after an open the path leads to the node opened, unless it was created with a clipped name |
| `DescriptorRuns.CreatedIsFound` | kernel/fs/vfs.c:175-192 | after a creation the path leads to the new node, unless its name was clipped |
| `DescriptorRuns.CatAfterWrite` | kernel/shell.c:273-289 | what the write command wrote a later open and read of the same path return, after any calls that do not write or truncate the file |
| `Paging.IdentityMapsToItself` | kernel/mm/vmm.c:97-114 | every page of the identity map is present, writable, closed to ring 3 and in the frame of its own number; no other page is present |
| `Paging.OtherPagesKeep` | kernel/mm/vmm.c:148-242 | over every run a page that no call is for keeps its entry |
| `Paging.MappingStays` | kernel/mm/vmm.c:148-172 | a page that was mapped translates to the frame and has the rights it was mapped with until a call is for it again |
| `PagingBits.IdentityEntryWord` | kernel/mm/vmm.c:109 | an entry of the identity map is the C expression of ors |
| `UserMemory.OpenToUser` | kernel/proc/task.c:149-158 | exactly the present ones of three pages are opened to ring 3; a user stack in mapped, writable pages is usable in ring 3 if and only if it is page-aligned, the page of its top was open already, or that page is one of the two code pages |
| `UserMemory.StackOpenIff` | kernel/proc/task.c:149-158 | the same as a statement about the tables; all of the stack is usable exactly when the page of its top is |
| `FrameAllocator.HighestIsTop` | kernel/mm/pmm.c:86-98 | no available region ends above the value, which is the end of an available region or 0 |
| `FrameAllocator.TotalIsSum` | kernel/mm/pmm.c:86-98 | the total is additive and counts the length of an available region, 0 for any other |
| `FrameAllocator.AvailableIff` | kernel/mm/pmm.c:127-140 | a frame is freed exactly if it lies in some available region, both ends rounded down |
| `FrameAllocator.Scanned` | kernel/mm/pmm.c:52-65 | the frames searched: the largest multiple of 32 up to the total |
| `FrameAllocator.FreeRunUnused` | kernel/mm/pmm.c:166-194 | a run of clear bits is a run of frames that exist and are not in use |
| `Internet.ReplyIsNoRequest` | kernel/net/net.c:77 | a reply is an echo request for nobody |
| `Internet.PeerIsSilent` | kernel/net/net.c:65-129 | a host that is sent the reply answers nothing |
| `ReceiveRing.CardStopsWhenFull` | kernel/drivers/e1000.c:160-176 | head meets tail exactly when 31 frames wait |
| `ReceiveRing.HistoriesAreTrue` | kernel/drivers/e1000.c:320-337 | over every run the histories are the frames put in and the buffer sizes given, in order |
| `Keyboard.StoredOrDropped` | kernel/drivers/keyboard.c:54-60 | over every run each character is stored or counted as dropped, and if none is dropped they are stored in order |
| `HeapBlocks.NoRoomWasted` | kernel/mm/heap.c:79-91 | an allocation has the size asked for if a block of 16 bytes fits behind it, and otherwise leaves no byte of room behind it |
| `HeapRuns.CallEffect` | kernel/mm/heap.c:113-228 | every call leaves allocations alone that it is not given; answers null or at least the bytes asked for; zeros for kzalloc; krealloc keeps the common prefix; what is freed is gone |
| `HeapRuns.StoredByteSurvives` | kernel/mm/heap.c:193-228 | over every run a byte once stored follows its allocation through every krealloc until it is stored over, freed or cut off |
| `Paths.ComponentsSpellPath` | kernel/fs/vfs.c:39-51 | the components joined are the path without its slashes, and each is a slash-free name of 1 to 63 characters |
| `Multiboot.Aligned` | kernel/arch/x86_64/multiboot2.c:23-25 | the least multiple of 8 that is not smaller |
| `Witnesses.ReservedTopDoesNotCount` | kernel/mm/pmm.c:90-96 | 128 MiB and a reserved region below 4 GiB: 0x8000 frames |
| `Witnesses.UserStackStaysClosed` | kernel/proc/task.c:149-158 | the first user task on a fresh heap and an identity map of 8 MiB: the page of its stack top stays closed to ring 3 |

## Left out

- Screen, serial, interrupt controller, timer, PCI and port drivers, the shell, logging: no property beyond the single step.
- System call dispatch and ARP: a table lookup and field copying.
- Scancode translation and modifier keys: a table lookup in front of the ring.
- The card's transmit path, reset, EEPROM and device registers other than head and tail.
- CR0, CR3, TLB invalidation, the page fault handler: tables and TLB are taken to agree, and physical memory to be reachable at its own address.
- Disjointness of the heap region from the frames the frame allocator hands out: the code does not reserve the region, so it does not hold.
- Interleaving inside an interface call: `task_create`, heap and file system calls are atomic steps; the two rings alone are interleaved step by step.
- Allocation outcomes in other components: where task, file and node creation call `kmalloc`, its answer is a parameter.
- KernelHeap.Heap.Kzalloc: for sizes up to 2^32-8; above that the rounded block is smaller than what the zeroing loop writes.
- KernelHeap.Heap.Krealloc: for sizes up to 2^32-8, for the same reason, and on live pointers only.
- KernelHeap.Heap.Kfree: a pointer whose header looks live must be live, and a header in front of a pointer must lie in the region; the code has no way to tell a forged header.
- FrameAllocator.Allocator.Init: statics start at zero; the counter is an unbounded integer, so that with overlapping regions it may be negative where the code would wrap.
- Paging.PageMap.constructor: physical memory has at most 2^20 frames, so that a table frame's address fits 32 bits; nobody else frees table frames. The counters are unbounded, and identity_end is not kept.
- TaskKernel.Kernel.CreateUserTask: the calls of vmm_set_user and kfree are not part of this class; they are modelled in UserMemory and KernelHeap.
- UserMemory.OpenToUser: the user stack does not reach beyond the 32-bit address space, which kmalloc guarantees.
- TaskKernel.Kernel.TakeInterrupt: a handler that runs to its end without yielding, in one step; one that waits or yields is EnterHandler, kernel code, LeaveHandler. Handlers are represented by what they may do to the frame, the request flag and memory, and by the stack words they use. That they stay off the frame and off other kernel stacks, and that the stack has room, are preconditions, as the code does not check them.
- TaskKernel.Kernel.IsrHandler: the same, within TakeInterrupt.
- TaskKernel.Kernel.Run: an unhandled exception halts the machine and so ends a run; every action must be possible where it happens.
- TaskKernel.Kernel.RunTask: what a task does between interrupts is the environment's part of a run, not code of the kernel.
- FileSystem.Vfs.constructor: the default directories and the welcome file of ramfs_init are further calls of the modelled operations; vfs_open's access flags are not checked by the code and not kept.
- FileSystem.Vfs.Run: the largest offset or size at the start plus all bytes written is below 2^31.
- FileSystem.Vfs.Perform: the same bound on a write.
- FileSystem.Vfs.Write: offset plus size is below 2^31, as for Ramfs.File.Write.
- Ramfs.File.Write: offset plus size is below 2^31, from where on the returned int is negative and the doubling loop of the code need not end.
- Ramfs.File.Grown: capacities up to 2^31.
- Ramfs.File.EnsureCapacity: capacities up to 2^31.
- ReceiveRing.Driver.Receive: the driver is initialised; frames have at most 2048 bytes, the size of a buffer.
- Keyboard.Driver.GetChar: starts when the wait for a character is over.
- Internet.PeerIsSilent: as Internet.HandleIp.
- Internet.HandleIp: an echo request must carry consistent lengths (header of at least 20 bytes, whole packet received), since the code does not check them.
- Internet.IpChecksum: buffers up to 128 KiB, within which the 32-bit sum cannot overflow.
- Multiboot.FindTag: on encodings of tag lists, with an END tag at the end; a null pointer and truncated boot information are not modelled.
- Multiboot.TotalMemory: entry sizes are at least 24, as section 3.6.8 of the Multiboot2 specification has them.
- Boot.BootMemory: paging is set up only for machines of at most 2^20 frames, see Paging.PageMap.constructor.
