# BrownieOS: verified models of the kernel's state machines

This project models the parts of the BrownieOS kernel that carry state across calls and
proves what every call, and every run of calls, keeps. `dafny verify dfyconfig.toml`
checks everything.

| files | part of the system |
|---|---|
| `Machine`, `OrderedArray` | 32-bit wrapping arithmetic, word memory; the sorted index arrays of `common.c` |
| `HeapModel`, `HeapBlocks`, `HeapOps`, `HeapTheorems`, `HeapRuns`, `HeapSafety`, `HeapFrees`, `KernelHeap` | the kernel heap of `kmm.c`: boundary tags inside the managed memory, two index arrays, first fit, split, merge |
| `Frames` | the physical frame bitmap of `paging.c` |
| `Paging`, `KernelWindow`, `AddressSpaces`, `SpaceRuns`, `Pager` | page directories and tables, `proc_map_pages`, `kmap`/`kunmap`, the address space side of `create_proc`, isolation |
| `UserCopy` | user pointer checks and `copy_user_string` of `syscall.c` |
| `Scheduler`, `Timer`, `KernelScheduler`, `KernelStacks` | context switches, round robin, the timer, kernel stacks |
| `VirtualMachines` | user programs under CR3 and the page tables: what each process sees of registers and memory |
| `Digits`, `Format` | number rendering and `vsnprintf` of `printf.c` |
| `Terminal` | the scrolling terminal of `tty.c` |

Each imperative part appears twice: as a class or method that changes state in place the
way the C code does, and as a function of the whole state that the method is proved to
compute. The theorems are about the functions, so they speak about whole runs. Integers are
unbounded in Dafny; every `uint32_t` expression of the heap and paging code is written with
explicit wrap-around (`Add32`, `Sub32`).

## Where the code does less than its comments say

The code is modelled as it is. Where a promise fails, the exact condition under which it
holds is proved.

- `alloc_from_block` subtracts before it compares, so every block below 96 bytes is split.
  A well-formed heap stays well formed exactly when the split has room for its tags and
  index slots (`HeapRuns.AllocKeepsHeapIff`, `HeapSafety.AllocSafeIff`); two requests from a
  fresh heap are enough to break it (`HeapSafety.SmallRemainderBreaks`).
- Requests above 0xFFFFFFF0 round to 0 and are served with a smaller block
  (`HeapRuns.AllocIsBigEnoughIff`; at work in `HeapSafety.HugeRequestIsServed`).
- `alloc_pages` with PMM_FLAGS_HIGHMEM is documented to search high memory only. Its scan
  address wraps, so it falls back to low memory (`Frames.HighAllocIsHighIff`; at work in
  `Frames.HighmemGetsLowFrame`), and it never returns when no run exists
  (`Frames.ScanNeverEnds`).
- `reserve` rounds start and length separately and can miss the last frame of a region
  (`Frames.ReserveCoversIff`; at work in `Frames.ReserveMissesFrame`); an empty region in
  the first page reserves all of memory (`Frames.ReserveEmpty`).
- `create_proc` cannot see that its directory allocation failed
  (`AddressSpaces.DirectoryIsOwnIff`, `AddressSpaces.CreateKeepsInvIff`; at work in
  `AddressSpaces.DirectoryOverKernel`), nor that its kernel stack allocation did
  (`KernelStacks.KernelStacksDisjointIff`; at work in `KernelStacks.FailedStacksCoincide`).
- `kmap` of a low address maps nothing, but `kunmap` of its result takes the identity
  mapping away (`KernelWindow.KMapKUnmapIff`, `KernelWindow.IdentityKeptIff`; at work in
  `SpaceRuns.LowMapUnmapLosesPage`).
- Timer slices are all full length exactly when the slice divides 2^64
  (`Timer.SlicesAlwaysApartIff`).
- `itoa` reverses the sign along with the digits, so a negative decimal ends in '-'
  (`Digits.IntTextDenotes`).
- `vsnprintf` returns the stored length, not the length that would have been needed as in
  section 7.19.6.12 of ISO C99, and gives up at a trailing percent sign
  (`Format.Vsnprintf`, `Format.CompleteIffEvenPercents`; at work in
  `Format.LonePercentBreaksOff`).

## Model

| member | source | states |
|---|---|---|
| Machine.WrapsModulo | kernel/kernel/mm/kmm.c:64-64 | the wrapping operators used throughout are addition and subtraction modulo 2^32 |
| OrderedArrays.InsertedIsSorted | kernel/kernel/core/common.c:30-42 | insertion into a sorted array keeps it sorted, adds exactly the value, lands behind its equals, and removal at the reported index undoes it |
| OrderedArrays.OrderedArray.constructor | kernel/kernel/core/common.c:20-28 | the array starts empty over cleared storage |
| OrderedArrays.OrderedArray.Insert | kernel/kernel/core/common.c:30-42 | shifting in place computes ordered insertion below capacity; a full array drops the value and reports 0 |
| OrderedArrays.OrderedArray.Remove | kernel/kernel/core/common.c:44-51 | shifting in place removes exactly position i and clears the vacated cell; an index past the end loses the last element instead |
| OrderedArrays.OrderedArray.Find | kernel/kernel/core/common.c:57-66 | the first index of a value, or 0xFFFFFFFF exactly when it is absent |
| HeapModel.Rounded | kernel/kernel/mm/kmm.c:197-199 | the request rounded up to a multiple of 16, at most 15 more, up to 0xFFFFFFF0, and 0 above |
| HeapModel.ChecksIffIntact | kernel/kernel/mm/kmm.c:29-48 | the checks pass exactly when header and footer end in their magic words and name each other, word by word |
| HeapModel.Scan | kernel/kernel/mm/kmm.c:201-217 | the first index whose block is free, large enough and intact; no earlier one is |
| HeapBlocks.TilesSpan | kernel/kernel/mm/kmm.c:80-88 | sizes plus 32 bytes of tags per block add up to the whole region |
| HeapBlocks.TilesCover | kernel/kernel/mm/kmm.c:80-88 | every address of the region lies in exactly one block |
| HeapBlocks.RewrittenRepresents | kernel/kernel/mm/kmm.c:62-178 | rewriting the tags of a stretch of blocks, with matching index arrays, replaces exactly that stretch in the block list |
| HeapOps.CarveRewrites | kernel/kernel/mm/kmm.c:62-98 | taking bytes from a block with room for the split rewrites only that block, into one or two blocks that tile it |
| HeapOps.LeftRewrites | kernel/kernel/mm/kmm.c:100-138 | unify_left joins a block with its left neighbour exactly when that exists and is free, otherwise it changes nothing |
| HeapOps.RightRewrites | kernel/kernel/mm/kmm.c:140-178 | unify_right, the same on the right |
| HeapTheorems.AllocIsFirstFit | kernel/kernel/mm/kmm.c:187-219 | alloc returns the payload of the lowest free block that holds the rounded request, and NULL exactly for a zero request or when there is none, then changing nothing |
| HeapTheorems.AllocCarves | kernel/kernel/mm/kmm.c:187-219 | a soundly split allocation keeps the heap well formed, carves the block found and writes nowhere outside it |
| HeapTheorems.UnifyFrees | kernel/kernel/mm/kmm.c:180-185 | unify joins a block with its free neighbours, marks the result free and writes nowhere else |
| HeapTheorems.FreeFrees | kernel/kernel/mm/kmm.c:256-267 | free of any listed block keeps the heap well formed with the joined block list and writes only the block and its free neighbours |
| HeapRuns.SplitTestExact | kernel/kernel/mm/kmm.c:63-64 | the wrapped test splits exactly blocks below 96 bytes or leaving more than 96; it overruns only blocks below 96 |
| HeapRuns.SplitFitsExact | kernel/kernel/mm/kmm.c:63-64 | the room a split needs in plain numbers: 32 bytes beyond the request and a slot below 4096 |
| HeapRuns.AllocKeepsHeapIff | kernel/kernel/mm/kmm.c:62-98 | alloc keeps a well-formed heap well formed if and only if its split, if taken, has room for tags and index slots; otherwise no block list describes the result |
| HeapRuns.AllocIsBigEnoughIff | kernel/kernel/mm/kmm.c:197-215 | the block handed out is at least as large as the request if and only if the request is at most 0xFFFFFFF0 |
| HeapRuns.AllocatedCoalesced | kernel/kernel/mm/kmm.c:62-98 | an allocation creates no two adjacent free blocks |
| HeapRuns.FreedCoalesced | kernel/kernel/mm/kmm.c:180-185 | one merge on each side leaves no two adjacent free blocks |
| HeapRuns.AllocFreeRoundTrip | kernel/kernel/mm/kmm.c:187-267 | a soundly split alloc followed by free of its result restores the block list and both index arrays |
| HeapSafety.StepKeepsHeap | kernel/kernel/mm/kmm.c:187-267 | every soundly split request, every free of any pointer the checks can deal with, and every payload write keeps tiling, tags, index arrays, alignment and the absence of adjacent free blocks |
| HeapSafety.AllocSafeIff | kernel/kernel/mm/kmm.c:187-219 | for requests that condition is exact |
| HeapSafety.FreeRefuses | kernel/kernel/mm/kmm.c:256-267 | free of a pointer that is no block's payload changes nothing |
| HeapSafety.DoubleFreeIsIdle | kernel/kernel/mm/kmm.c:180-185 | free of a block that is free already changes nothing |
| HeapSafety.DamageIsRefused | kernel/kernel/mm/kmm.c:187-267 | on any state: without the heap magic nothing is served or freed, a pointer with damaged tags is not freed, a listed block with damaged tags is passed over |
| HeapFrees.FreeReleases | kernel/kernel/mm/kmm.c:180-185 | after free the block and its free neighbours are one free block |
| HeapFrees.UnifyClears | kernel/kernel/mm/kmm.c:112-175 | every header swallowed by a merge loses its magic |
| HeapFrees.FreeAgainIsIdle | kernel/kernel/mm/kmm.c:256-267 | freeing again the block just freed, or any block merged with it, changes nothing |
| HeapSafety.StepSparesPayload | kernel/kernel/mm/kmm.c:67-175 | no operation moves or changes a byte of a live payload other than one freeing or writing it |
| HeapSafety.StepKeepsLive | kernel/kernel/mm/kmm.c:187-267 | a live block stays where it is until it is itself freed |
| HeapSafety.LiveDisjoint | kernel/kernel/mm/kmm.c:62-185 | distinct blocks never overlap |
| HeapSafety.RunSparesPayload | kernel/kernel/mm/kmm.c:187-267 | a payload keeps place and contents through any run that does not free or write it |
| HeapSafety.InitialGood | kernel/kernel/mm/kmm.c:277-305 | kheap_init makes one free block over the region, well formed |
| HeapSafety.EveryRunIsSound | kernel/kernel/mm/kmm.c:62-305 | every legal run from kheap_init has a tiled 4 MiB region, strictly sorted index arrays in step, consistent tags, 16-byte aligned payloads and no adjacent free blocks |
| HeapSafety.SmallRemainderBreaks | kernel/kernel/mm/kmm.c:63-94 | two requests from a fresh heap after which no block list describes it |
| HeapSafety.HugeRequestIsServed | kernel/kernel/mm/kmm.c:197-215 | from a fresh heap a request of 0xFFFFFFFF bytes is served with a block of none |
| KernelHeap.KHeap.constructor | kernel/kernel/mm/kmm.c:277-305 | the in-place initialisation yields the initial heap state |
| KernelHeap.KHeap.AllocFromBlock | kernel/kernel/mm/kmm.c:62-98 | the in-place tag writes and insertions compute the model's carve on any state |
| KernelHeap.KHeap.UnifyLeft | kernel/kernel/mm/kmm.c:100-138 | in-place left merge computes the model's |
| KernelHeap.KHeap.UnifyRight | kernel/kernel/mm/kmm.c:140-178 | in-place right merge computes the model's |
| KernelHeap.KHeap.Alloc | kernel/kernel/mm/kmm.c:187-219 | the scanning loop, corrupted blocks skipped, computes the model's allocation on any state |
| KernelHeap.KHeap.Free | kernel/kernel/mm/kmm.c:256-267 | free computes the model's, and changes nothing when the tags fail the checks |
| Frames.RangeUses | kernel/kernel/mm/paging.c:41-62 | setting or clearing a range changes exactly the bits of that range |
| Frames.FreeRestoresBitmap | kernel/kernel/mm/paging.c:84-101 | freeing a run just taken restores the bitmap byte for byte |
| Frames.LowestRun | kernel/kernel/mm/paging.c:79-93 | the lowest free run of n frames in a range, or the end of the range when there is none |
| Frames.LowAllocIsLowestRun | kernel/kernel/mm/paging.c:65-94 | a DEFAULT request gets the lowest free run below 896 MiB, and 0 exactly when there is none, changing nothing |
| Frames.HighAllocIsHighIff | kernel/kernel/mm/paging.c:65-94 | a HIGHMEM request is served above the boundary if and only if a run exists there, then by the lowest; otherwise by a free run below |
| Frames.ScanNeverEnds | kernel/kernel/mm/paging.c:79-92 | without any free run the run counter of a HIGHMEM scan, which the loop of FrameMap.Alloc is shown to keep, never reaches the request, after any number of frames |
| Frames.HighmemGetsLowFrame | kernel/kernel/mm/paging.c:71-93 | with only frame 1 free a HIGHMEM request is handed frame 1 |
| Frames.AllocTakesFreeFrames | kernel/kernel/mm/paging.c:65-101 | frames handed out were free, exactly they become used, and giving them back restores the bitmap |
| Frames.ReserveCoversIff | kernel/kernel/mm/paging.c:114-124 | reserve marks every frame a region touches if and only if the offset of its start plus its length does not exceed the rounded length, or that wraps to 0 |
| Frames.ReserveMarks | kernel/kernel/mm/paging.c:114-124 | exactly the frames used before and as many as the length fills, from the frame of the first byte on, are used after reserve |
| Frames.ReserveWraps | kernel/kernel/mm/paging.c:114-124 | a length whose rounding wraps reserves all of memory |
| Frames.ReserveMissesFrame | kernel/kernel/mm/paging.c:114-124 | two bytes across the first page boundary leave the second frame free |
| Frames.ReserveEmpty | kernel/kernel/mm/paging.c:114-124 | an empty region marks nothing, but in the first page all of memory |
| Frames.ClearWrappedUses | kernel/kernel/mm/paging.c:96-101 | free_pages clears exactly the frames of its range, taken modulo the number of frames |
| Frames.FrameMap.Alloc | kernel/kernel/mm/paging.c:65-94 | the one-pass scan with a run counter terminates and computes the lowest-run search |
| Frames.FrameMap.FreePages | kernel/kernel/mm/paging.c:96-101 | the loop clears the frames of the range, wrapping round for every frame number and count |
| Frames.FrameMap.Reserve | kernel/kernel/mm/paging.c:114-124 | the 64-bit loop leaves exactly those frames used |
| Paging.IndicesRebuild | kernel/include/mm/paging.h:31-34 | directory index, table index and offset rebuild the address |
| Paging.VaddrIndices | kernel/include/mm/paging.h:31-34 | and are recovered from the address they build |
| Paging.ShadowIsHardware | kernel/include/mm/paging.h:79-83 | the shadow pointer of a present entry leads to the table the hardware uses |
| Paging.MapPageMaps | kernel/kernel/proc/proc.c:55-93 | one iteration maps the page for user mode, with write permission exactly as asked, moves no other page, touches one entry and its table, and fails only for want of a frame |
| Paging.MapPagesMaps | kernel/kernel/proc/proc.c:48-97 | a successful range maps every page to its frame and no other page changes, failed or not |
| Paging.MappedRangeTranslates | kernel/kernel/proc/proc.c:48-97 | the two-level user-mode walk of every byte of the range yields the matching physical byte, writable exactly as asked; every other address translates as before |
| Pager.KernelPager.ProcMapPages | kernel/kernel/proc/proc.c:48-97 | the loop with in-place entry and table writes computes the model's mapping; a missing directory or no pages gives -1 |
| Pager.KernelPager.CloneKernel | kernel/kernel/mm/paging.c:132-168 | cloning the kernel directory copies its kernel half and leaves the user half empty |
| Pager.KernelPager.SetupKernelDirectory | kernel/kernel/mm/paging.c:209-228 | the nested loops build the identity-mapped kernel directory and its tables |
| AddressSpaces.BootIdentity | kernel/kernel/mm/paging.c:209-228 | after boot the kernel half translates to all low memory at a fixed offset, writable for the kernel and closed to user mode at both levels |
| AddressSpaces.Isolation | kernel/kernel/proc/proc.c:99-185 | a frame user-reachable from one process is not reachable from another and holds no page table or directory |
| AddressSpaces.MapOneKeepsInv | kernel/kernel/proc/proc.c:55-93 | mapping a page that belongs to a process keeps the ownership invariant of all processes |
| AddressSpaces.MapRangeIsMapPages | kernel/kernel/proc/proc.c:48-97 | the ownership bookkeeping follows proc_map_pages exactly |
| AddressSpaces.DirectoryIsOwnIff | kernel/kernel/proc/proc.c:133-139 | a new directory lies in frames of its own if and only if two adjacent low frames were free; otherwise over frame 0 |
| AddressSpaces.CreateKeepsInvIff | kernel/kernel/proc/proc.c:133-164 | directory, clone and stack of a new process keep the invariant if and only if two adjacent low frames were free for the directory, whether or not the stack gets mapped |
| AddressSpaces.DirectoryOverKernel | kernel/kernel/proc/proc.c:133-139 | with all low frames used the new directory is laid over the kernel's frame 0 |
| SpaceRuns.CreateMapsStack | kernel/kernel/proc/proc.c:133-164 | success of create_proc means that the pages from that of the lowest stack byte up to 3 GiB lead, writable for user mode, to consecutive frames that were free, and that no lower address translates; it fails only when no low frame is left for a page table |
| SpaceRuns.TakeHolds | kernel/kernel/mm/paging.c:65-94 | in a run an allocation hands out free frames, exactly they become used, and a failed one changes nothing |
| SpaceRuns.MapHeldTranslates | kernel/kernel/proc/proc.c:48-97 | in a run a mapping leads every byte of its range to its own byte of the frames, writable as asked, and moves no other address; it fails only for want of a low frame |
| SpaceRuns.StepSparesSpace | kernel/kernel/core/kernel.c:133-207 | no step changes where an address of a process leads or whether it may be written, except a mapping into that process |
| AddressSpaces.StepKeepsInv | kernel/kernel/core/kernel.c:133-207 | allocation, process creation, mapping of held frames, kmap and kunmap all keep the invariant |
| AddressSpaces.EveryRunIsIsolated | kernel/kernel/core/kernel.c:129-214 | in every run from boot a frame user-reachable from one process is not reachable from another and is neither a page table, nor a page directory, nor among the kernel's own frames |
| AddressSpaces.EveryRunIsCoherent | kernel/kernel/mm/paging.c:135-168 | in every run from boot the hardware and software views agree in the kernel's directory and in every process's, all share the kernel half and no two share a frame |
| KernelWindow.KMapTakesLowestSlot | kernel/kernel/mm/vmm.c:8-27 | kmap of high memory fails exactly when all slots are live, otherwise takes the lowest free slot and changes no other |
| KernelWindow.KUnmapFreesSlot | kernel/kernel/mm/vmm.c:29-40 | kunmap of a live result gives up exactly its slot |
| KernelWindow.KMapKUnmapIff | kernel/kernel/mm/vmm.c:8-40 | mapping and unmapping at once restores every table if and only if the address is above 896 MiB or its identity mapping was gone already |
| SpaceRuns.LowMapUnmapLosesPage | kernel/kernel/mm/vmm.c:11-38 | after boot, kmap and kunmap of any low address leave the kernel without that page |
| KernelWindow.RunKeepsWindow | kernel/kernel/mm/vmm.c:8-40 | after any sequence of kmap and kunmap calls with any arguments, in every directory sharing the kernel half, live results lie on distinct pages and each translates to its own physical byte, writable for the kernel and closed to user mode |
| KernelWindow.IdentityKeptIff | kernel/kernel/mm/vmm.c:8-40 | after any such sequence a low byte is still at its fixed offset if and only if no kunmap was given its page |
| SpaceRuns.BootWindow | kernel/kernel/mm/paging.c:209-228 | at boot all slots are free |
| SpaceRuns.EveryRunKeepsWindow | kernel/kernel/mm/vmm.c:8-40 | in every run from boot, process creation and mapping included, each live kmap result translates to its own physical byte in the kernel's directory and in every process's, writable for the kernel and closed to user mode |
| SpaceRuns.EveryRunKeepsIdentityIff | kernel/kernel/mm/paging.c:209-228 | in every run from boot a low byte stays at its fixed offset, writable for the kernel and closed to user mode, in every directory, if and only if no kunmap was given its page |
| Pager.KernelPager.KMap | kernel/kernel/mm/vmm.c:8-27 | the nested search loops compute the model's kmap |
| Pager.KernelPager.KUnmap | kernel/kernel/mm/vmm.c:29-40 | clearing the entry in place computes the model's kunmap |
| UserCopy.AccessibleIffWalkable | kernel/kernel/core/syscall.c:14-42 | in a coherent directory the check passes exactly when a user-mode access below 3 GiB would |
| UserCopy.UserStringReads | kernel/kernel/core/syscall.c:44-74 | a successful copy holds the bytes the process sees in order, all below 3 GiB without wrapping, and stopped at a NUL or the limit |
| UserCopy.MappedRangeCopies | kernel/kernel/core/syscall.c:58-70 | a range that user mode can read is never refused |
| UserCopy.MapThenCopy | kernel/kernel/core/syscall.c:44-74 | in particular a range just mapped by proc_map_pages |
| UserCopy.UserStringIff | kernel/kernel/core/syscall.c:49-70 | the string is read if and only if it ends, at a NUL, at the user's length or one short of the buffer, before any inaccessible byte |
| UserCopy.CopyUserString | kernel/kernel/core/syscall.c:44-74 | the call succeeds exactly then, storing the bytes the process sees up to that end and a NUL and touching nothing else; a null argument or missing process is refused, a process without a directory can only copy nothing |
| Scheduler.ContextRoundTrip | kernel/kernel/proc/proc.c:205-245 | loading then saving a context gives it back; loading what was saved changes nothing |
| Scheduler.SwitchMovesRegisters | kernel/kernel/proc/scheduler.c:46-58 | register by register, the frame is loaded from the context of the process entered and saved to that of the process left; nothing else of any process changes |
| Scheduler.PreemptsOnlyUser | kernel/kernel/proc/scheduler.c:61-71 | kernel mode is never preempted, only running ring 3 processes are entered, and with none such the interrupted process goes on |
| Scheduler.CreatedIsReady | kernel/kernel/proc/proc.c:143-182 | a new process can be scheduled and its cached CR3 is its directory |
| Scheduler.FirstSwitch | kernel/kernel/proc/proc.c:166-179 | the first switch to a new process starts it at its entry point in ring 3 on its own stacks and in its own address space |
| VirtualMachines.FirstStackIsWritable | kernel/kernel/proc/proc.c:147-172 | the stack pointer of a new process is at the top of memory it can write |
| Scheduler.NextFrom | kernel/kernel/proc/scheduler.c:29-37 | the first other ready slot from a start, none being skipped |
| Scheduler.SwitchNextKeepsVirtual | kernel/kernel/proc/scheduler.c:46-71 | a switch changes the virtual registers of no process |
| Scheduler.StepIsAlone | kernel/kernel/proc/scheduler.c:46-71 | on every event the current process makes its own step and the registers of every other stay |
| VirtualMachines.StepSparesOther | kernel/kernel/proc/scheduler.c:46-71 | a step or system call of another process, or a preemption, changes neither the registers nor a visible byte of a process |
| VirtualMachines.EachProcessRunsAlone | kernel/kernel/proc/scheduler.c:46-71 | under any interleaving, with physical memory shared and every access walked through the directory in CR3, each process ends with the registers and the view of memory of the run in which it executes its own events alone |
| VirtualMachines.ReadAfterWrite | kernel/kernel/proc/proc.c:48-97 | a byte written where user mode may write is read back wherever the process sees it; any other write is lost |
| VirtualMachines.UserStepActs | kernel/kernel/proc/scheduler.c:46-58 | under the CR3 of a process a step runs on what that process sees and its store is what it reads afterwards |
| VirtualMachines.RunSparesTables | kernel/kernel/proc/proc.c:48-97 | no run of user programs changes a byte of the kernel's frames, of a page table or of a page directory |
| Scheduler.EnterFollows | kernel/kernel/proc/proc.c:187-203 | after proc_enter CR3 and ESP0 are those of the process entered |
| Scheduler.EnterLoads | kernel/kernel/proc/proc.c:187-203 | the iret frame has the eip, cs, stack pointer and ss of the context, and the kernel's eflags with the interrupt flag set; no other record changes |
| Scheduler.FirstEntry | kernel/kernel/proc/proc.c:187-203 | a new process is entered at its entry point on its own stacks |
| Scheduler.RunFollows | kernel/kernel/proc/scheduler.c:46-58 | and in every run from there CR3 is the current process's cached CR3 and ESP0 its kernel stack top |
| Scheduler.SwitchAdvances | kernel/kernel/proc/scheduler.c:19-42 | a user-mode call moves to the next runnable process in cyclic slot order and keeps all runnable |
| Scheduler.RoundRobin | kernel/kernel/proc/scheduler.c:61-71 | after any run the current process is as many places further round as there were scheduler calls |
| Scheduler.EnteredAround | kernel/kernel/proc/scheduler.c:19-42 | scheduler call number d of a run makes current the process d + 1 places further round, whatever lies between the calls |
| Scheduler.EveryoneOncePerRound | kernel/kernel/proc/scheduler.c:19-42 | over any stretch of a run with n scheduler calls, n being the number of runnable processes, each of them is made current by exactly one call, and the stretch ends where it began |
| Timer.SliceEndsApart | kernel/kernel/drivers/pit.c:13-22 | two slice ends in one cycle of the tick counter are at least twice the frequency in ticks apart |
| Timer.SliceEndsAre | kernel/kernel/drivers/pit.c:16-17 | slices end at the multiples of twice the frequency of the 64-bit counter |
| Timer.SlicesAlwaysApartIff | kernel/kernel/drivers/pit.c:13-22 | all slice ends are at least a slice apart if and only if the slice divides 2^64 |
| Timer.ClockRoundRobin | kernel/kernel/drivers/pit.c:13-22 | driven by the timer alone, the current process has moved as many places as slices have ended |
| KernelScheduler.RoundRobinScheduler.PickNext | kernel/kernel/proc/scheduler.c:19-42 | the two-pass scan over shared records computes the model's choice, also for a process that is not listed |
| KernelScheduler.RoundRobinScheduler.SwitchProcess | kernel/kernel/proc/scheduler.c:46-58 | in-place save, load, CR3 and ESP0 updates compute the model's switch |
| KernelScheduler.RoundRobinScheduler.SwitchNext | kernel/kernel/proc/scheduler.c:61-71 | the whole preemption computes the model's |
| KernelScheduler.RoundRobinScheduler.Tick | kernel/kernel/drivers/pit.c:13-22 | the handler counts modulo 2^64 and preempts exactly at user-mode slice ends |
| KernelStacks.AllocGivesLive | kernel/kernel/proc/proc.c:175-179 | a served request yields a new live block of at least the size asked for at the address returned |
| KernelStacks.KernelStacksDisjointIff | kernel/kernel/proc/proc.c:114-179 | in every run from kheap_init the kernel stacks of two processes are disjoint if and only if not both allocations returned NULL |
| KernelStacks.FailedStacksCoincide | kernel/kernel/proc/proc.c:175-179 | a run that gives two processes the same kernel stack |
| Digits.DigitsRoundTrip | libc/stdio/printf.c:36-59 | the digits read back as the number, without leading zero, sign or NUL, in every base from 2 to 36 |
| Digits.DigitsFit | libc/stdio/printf.c:36-59 | a number below 2^k has at most k digits |
| Digits.IntTextDenotes | libc/stdio/printf.c:7-34 | the signed text denotes the absolute value, with a sign only in base 10, at the end |
| Digits.IntTextFits | libc/stdio/printf.c:115-167 | 32-bit results fit 33 bytes with their NUL and 64-bit results 65, in every base |
| Digits.CharsLookup | libc/stdio/printf.c:10-20 | the mirrored table yields the digit for truncated remainders of either sign |
| Digits.Convert | libc/stdio/printf.c:7-34 | the digit loop and the in-place reversal store exactly the text and a NUL and nothing more |
| Digits.ReverseInPlace | libc/stdio/printf.c:26-32 | the swap loop reverses the prefix and leaves the rest |
| Format.ConversionDenotes | libc/stdio/printf.c:404-436 | %d, %i and %x produce text from which the value is read back |
| Format.StringRendered | libc/stdio/printf.c:390-403 | %s contributes its string |
| Format.CharacterRendered | libc/stdio/printf.c:379-389 | %c contributes the character of its code modulo 256 |
| Format.NumberRendered | libc/stdio/printf.c:404-436 | %d, %i and %x contribute the text of their number |
| Format.PlainRendered | libc/stdio/printf.c:367-378 | %% and an unknown conversion contribute a percent sign, any other character itself |
| Format.CompleteIffEvenPercents | libc/stdio/printf.c:362-451 | a rendering that an int can count is complete if and only if the format does not end in an odd number of percent signs |
| Format.LonePercentBreaksOff | libc/stdio/printf.c:437-440 | the format of a lone percent sign breaks off at once |
| Format.Vsnprintf | libc/stdio/printf.c:360-454 | the buffer holds the first n-1 characters of the unbounded rendering and a NUL and their number is returned; -1 exactly when the rendering breaks off first; nothing beyond n bytes is written |
| Terminal.EntryDecodes | kernel/kernel/drivers/tty.c:30-32 | character and colour are recovered from a cell |
| Terminal.InitialShows | kernel/kernel/drivers/tty.c:43-54 | a fresh screen is all spaces in light green on black with the cursor at the top left |
| Terminal.PutCharShows | kernel/kernel/drivers/tty.c:81-99 | a character keeps the cursor inside and the screen in step with the unbounded terminal |
| Terminal.ScreenShowsEndOfText | kernel/kernel/drivers/tty.c:43-104 | whatever is written after initialisation, in whatever colours, the buffer shows the last 25 lines, blank padded, of an unbounded terminal that wraps at column 80 |
| Terminal.Tty.constructor | kernel/kernel/drivers/tty.c:43-54 | the nested loops clear the screen and home the cursor |
| Terminal.Tty.Scroll | kernel/kernel/drivers/tty.c:65-79 | copying in place moves every line up and clears the last |
| Terminal.Tty.Put | kernel/kernel/drivers/tty.c:81-99 | the in-place update computes the model's |
| Terminal.ApplyInSequence | kernel/kernel/drivers/tty.c:101-108 | writing in pieces leaves the same screen as writing at once |
| Terminal.Tty.SetColor | kernel/kernel/drivers/tty.c:56-58 | only the colour of what follows changes |
| Terminal.Tty.Write | kernel/kernel/drivers/tty.c:101-104 | the loop feeds every character in order |

## Left out

- Memory accesses at addresses that are not multiples of four: the heap model has one cell per word address. All tags of a well-formed heap are 16-byte aligned.
- HeapSafety.EveryRunIsSound: requests must split soundly, which `HeapSafety.AllocSafeIff` shows to be exact, and writes go to live payloads; a pointer to `free` is excluded only if forged tags pass every check for a header that is not listed.
- KernelHeap.KHeap.Free: a pointer whose forged tags pass every check but whose header is not listed is excluded, because the C code then indexes outside its array.
- OrderedArrays.OrderedArray.Remove: the array is not empty and the index lies in its storage, because the C code otherwise wraps its loop bound or writes outside the array.
- Frames.FrameMap.Alloc: a HIGHMEM request is for at least one frame with frame 0 reserved, as `paging_init` does, and needs some free run, because the C loop does not return otherwise; a DEFAULT request has no condition.
- Pager.KernelPager.ProcMapPages: the range does not wrap round the address space, and the directory is coherent, as every directory of a run is.
- Pager.KernelPager.CloneKernel: only cloning of a directory without user entries, as `create_proc` does; the deep copy of user pages is not modelled.
- AddressSpaces.CreateKeepsInvIff: the stack size does not exceed the stack top, and the HIGHMEM request for the stack returns (see `Frames.ScanNeverEnds`).
- VirtualMachines.EachProcessRunsAlone: the mappings do not change during the run, and each process has an address space of its own; a step that faults writes nothing.
- KernelStacks.KernelStacksDisjointIff: allocations split soundly and no kernel stack is freed, as nothing in the kernel does.
- UserCopy.CopyUserString: the byte read is that of the two-level walk of the process's own directory, which is the one loaded in CR3 during its system call.
- Scheduler.RunFollows: the kernel process's context, which the C code leaves uninitialised, is taken not to be a ring 3 context.
- Scheduler.RoundRobin: user code keeps its privilege level, and the set of runnable processes does not change during the run.
- Format.Vsnprintf: n is from 1 to INT_MAX, since the C loop bound wraps for 0, and the arguments match the format, since anything else is undefined in C.
- The page-size bit of directory entries, the TLB, and the accessed and dirty updates of the MMU: translation is a direct walk of the tables.
- First-entry general registers: they are arbitrary in `Scheduler.Enter`.
- Reuse of PROC_UNUSED slots, cleanup after a failed `create_proc`, `proc_init` and `kernel_proc_init` beyond slot 0: nothing sets that state, or only easy members would be added.
- Boot and assembly stubs, port I/O, PIC, APIC, HPET and PIT programming, GDT, IDT and TSS descriptors, ACPI and MADT parsing, the Multiboot memory map, logging and demo code.
- `vprintf`, `ltoa` and `ultoa`, which repeat `vsnprintf`, `itoa` and `utoa`; `memcpy`, `memset`, `strlen` and the other string helpers.
