# Simple-OS memory management and scheduling, modelled in Dafny

This project models the memory-management core of the Simple-OS teaching
kernel, together with its ready queue and scheduler, and proves properties
of the model. It covers:

- the contiguous frame pool (`ContFramePool`): one state per frame (Free,
  Allocated, Head of a run) and a free-frame counter. It provides first-fit
  `get_frames`, head-driven `release_frame`, `mark_inaccessible`,
  `needed_info_frames`, and the static `release_frames`, which searches the
  list of all pools (`FrameRegistry`);
- x86 32-bit two-level paging (`Entries`), as in section 4.3 of the Intel 64
  and IA-32 Architectures Software Developer's Manual, Volume 3A. Directory
  and table entries are decoded into a frame number and the present and
  writable bits. A linear address splits into a 10-bit directory index, a
  10-bit table index and a 12-bit offset;
- the first page table (`PageTable`). It identity-maps the first 4 MB and
  installs every other page on its first fault, taking table frames from
  the kernel pool and page frames from the process pool;
- the second page table (`PageTableVM`). It adds the registry of VM pools,
  which decides which faults are served, and adds `free_page`;
- the VM pool (`VMPool`, `VMWindow`). It does bump allocation of
  page-multiple regions inside an address window, keeps `availableSize`
  accounts, releases regions page by page, and provides the window test
  `is_legitimate`;
- the linked FIFO `ReadyQueue`, and the `Scheduler`'s `resume`, `add`,
  `yield` and `terminate`, including the blocking disk's queue, which
  `yield` serves first.

Everything is a pure function over immutable datatypes. A frame pool is a
`seq` of states. A page table is a directory plus a map from table frames to
their entries. The registries that the source threads through `next`
pointers are sequences. The fault address, the disk's readiness and the
contents of memory the source leaves uninitialised are all arguments.

Where the code does not do what its own comments say (for the frame pool,
the header comment at mp3/cont_frame_pool.C:62-74), the model keeps both
versions. An `...AsWritten` member follows the code, and a lemma
exhibits the difference. The corrected member is what the rest of the model
uses (see "## Findings").

## Model

| member | source | states |
|---|---|---|
| ContFramePool.CodeFacts | mp3/cont_frame_pool.C:222-224 | XOR with 0xC0 turns the Free byte 0xFF into the Head byte 0x3F, and XOR with 0x80 turns it into the Allocated byte 0x7F. The marking test `& 0xC0` admits exactly the non-Head states. The release guard, parsed as `b ^ (0xFF == 0x80)`, is true of every state |
| ContFramePool.MarkByteAsWritten | mp3/cont_frame_pool.C:252-257 | the one-frame mark halts exactly on a byte whose two high bits are clear, and otherwise leaves the byte XOR 0xC0 |
| ContFramePool.MarkAllocatedByteAsWritten | mp3/cont_frame_pool.C:254-257 | marking an Allocated frame passes the assertion and leaves 0xBF, which is none of the three state codes |
| ContFramePool.New | mp3/cont_frame_pool.C:128-163 | requires nFrames % 8 == 0. Every frame is Free, except frame 0, which is Allocated (not Head) when no info frame is given. The count is then nFrames - 1, otherwise nFrames. The pool invariant holds: the count equals the number of Free frames, and every Allocated frame follows a taken one |
| ContFramePool.NeededInfoFramesAsWritten | mp3/cont_frame_pool.C:293-296 | as written, the result is ceil(8n / 4096): the least r with r * 4096 >= 8n |
| ContFramePool.NeededInfoFrames | mp3/cont_frame_pool.C:72-74 | as the header comment at lines 72-74 says, with one byte per frame: the least r with r * 4096 >= n, that is one info frame per 4096 frames |
| ContFramePool.NeededInfoFramesMonotone | mp3/cont_frame_pool.C:72-74 | needed_info_frames is monotone in n |
| ContFramePool.NeededInfoFramesAsWrittenOverReserves | mp3/cont_frame_pool.C:295 | the as-written count is never below the intended one, and for 4096 frames it is 8 where 1 suffices |
| ContFramePool.SkipTaken | mp3/cont_frame_pool.C:193-196 | the lookup loop passes only taken frames and stops at the first Free frame at or after i, or at the pool end |
| ContFramePool.FirstTaken | mp3/cont_frame_pool.C:200-218 | the inner loop either finds a taken frame in [j, e) or shows that every frame there is Free |
| ContFramePool.Scan | mp3/cont_frame_pool.C:193-218 | returns the first s >= i at which n Free frames fit, or none if no position up to the pool end fits |
| ContFramePool.Claim | mp3/cont_frame_pool.C:219-229 | claiming the run of n frames at s makes frame s Head and s+1..s+n-1 Allocated, and leaves every other frame as it was |
| ContFramePool.GetFrames | mp3/cont_frame_pool.C:183-232 | fails when n exceeds the count or nFrames, or when no run of n Free frames fits; a failure changes nothing. Otherwise it returns base + s for the first fit s. Frame s becomes Head and s+1..s+n-1 become Allocated. The count drops by exactly n, and no other frame changes |
| ContFramePool.GetFramesPreservesValid | mp3/cont_frame_pool.C:183-232 | get_frames keeps the pool invariant |
| ContFramePool.ClaimCount | mp3/cont_frame_pool.C:219-229 | marking a run of n Free frames lowers the number of Free frames by exactly n |
| ContFramePool.ClaimRunsFormed | mp3/cont_frame_pool.C:219-229 | after a run is marked, every Allocated frame still follows a Head or Allocated frame |
| ContFramePool.RunEnd | mp3/cont_frame_pool.C:284-290 | the documented release loop covers exactly the Allocated frames after the head, up to the first Free or Head frame or the pool end |
| ContFramePool.ReleaseFrame | mp3/cont_frame_pool.C:273-291 | a frame that is not Head: nothing changes. A Head frame: it and the Allocated frames after it become Free, up to the first Free or Head frame. The count rises by one per frame freed, and nothing else changes |
| ContFramePool.ReleaseFramePreservesValid | mp3/cont_frame_pool.C:273-291 | release_frame keeps the pool invariant |
| ContFramePool.ReleaseCount | mp3/cont_frame_pool.C:280-290 | releasing a run raises the number of Free frames by the run's length |
| ContFramePool.ReleaseRunsFormed | mp3/cont_frame_pool.C:280-290 | after a run is released, every Allocated frame still follows a taken frame |
| ContFramePool.GetThenRelease | mp3/cont_frame_pool.C:219-290 | on a valid pool, get_frames(n) followed by release of the returned frame restores the frame states and the count exactly |
| ContFramePool.ReleaseFrameAsWritten | mp3/cont_frame_pool.C:273-291 | as written, a frame that is not Head changes nothing. Releasing a Head frame frees every frame from it to the pool end, whatever its state, and adds nFrames - i to the count; the frames before it, the base and the info-frame fields are unchanged |
| ContFramePool.ReleaseFrameAsWrittenOverruns | mp3/cont_frame_pool.C:284 | take two adjacent one-frame runs. As written, releasing the first frees both and counts two frames; the documented rule frees only the first |
| ContFramePool.AcceptsFrameAsWritten | mp3/cont_frame_pool.C:246-249 | the as-written range test accepts exactly the frames of the pool and the frame base + nFrames |
| ContFramePool.AcceptsFrameAsWrittenOffByOne | mp3/cont_frame_pool.C:246-249 | the range test accepts frame base + nFrames, which is not in the pool |
| ContFramePool.MarkOneAsWritten | mp3/cont_frame_pool.C:245-258 | a frame outside the pool leaves the states alone. Inside it, marking gets through exactly when the frame is Free, and that frame alone becomes Head |
| ContFramePool.MarkLoopAsWritten | mp3/cont_frame_pool.C:239-241 | the loop gets through exactly when every target inside the pool is Free. Then every such target is Head, targets outside the pool are skipped, and nothing else changes |
| ContFramePool.MarkInaccessibleAsWritten | mp3/cont_frame_pool.C:236-243 | as written, the loop's result with the counter lowered by n, whatever the loop skipped |
| ContFramePool.MarkInaccessibleAsWrittenPastPool | mp3/cont_frame_pool.C:239-242 | a reservation wholly past the pool changes no frame, yet lowers the counter by n, so a valid pool becomes invalid when n > 0 |
| ContFramePool.MarkInaccessibleAsWrittenSkewsCount | mp3/cont_frame_pool.C:242-249 | take 8 Free frames at base 0 and mark_inaccessible(9, 1). Frame 9 fails the range test, but the counter drops to 7 while 8 frames are Free |
| ContFramePool.MarkAsWrittenReleasesOnlyFirst | mp3/cont_frame_pool.C:236-258 | as written, every target becomes Head. So after reserving n >= 2 frames, releasing the first one leaves the second a Head |
| ContFramePool.MarkInaccessible | mp3/cont_frame_pool.C:236-258 | OutOfRange exactly when [first, first + n) is not inside the pool. NotFree exactly when some target is not Free. Otherwise, as the header comment at lines 67-70 says, frame first becomes Head and the rest Allocated, the count drops by n, and nothing else changes |
| ContFramePool.MarkIsClaim | mp3/cont_frame_pool.C:67-70 | a successful reservation of n >= 1 frames is the get_frames claim of that run, which fits there |
| ContFramePool.MarkInaccessiblePreservesValid | mp3/cont_frame_pool.C:236-258 | mark_inaccessible keeps the pool invariant |
| ContFramePool.MarkThenRelease | mp3/cont_frame_pool.C:62-70 | on a valid pool, releasing the first frame of a reservation of n >= 1 frames restores the pool exactly |
| ContFramePool.MarkInaccessibleRejectsTaken | mp3/cont_frame_pool.C:254 | reserving the same frames a second time is refused |
| FrameRegistry.NewPool | mp3/cont_frame_pool.C:166-178 | a new pool joins the list at its tail; the earlier pools are unchanged |
| FrameRegistry.ReleaseFrames | mp3/cont_frame_pool.C:262-271 | every pool whose range [base, base + nFrames - 1] holds the frame releases it; every other pool is unchanged |
| FrameRegistry.ReleaseUnownedFrame | mp3/cont_frame_pool.C:262-271 | a frame no pool holds changes nothing |
| FrameRegistry.ReleaseFramesPreservesValid | mp3/cont_frame_pool.C:262-271 | the static release keeps every pool's invariant |
| FrameRegistry.GetThenReleaseFrames | mp3/cont_frame_pool.C:262-271 | with disjoint pools, get_frames on one pool followed by the static release_frames of the returned frame restores the whole list |
| Entries.DecodeEncode | mp4/page_table.C:94-98 | an entry word decodes back to its frame and flag bits. The not-present word is 2, and an installed entry is frame * 4096 + 3 |
| Entries.DirIndex | mp4/page_table.C:84 | `addr >> 22` is below 1024 |
| Entries.TableIndex | mp4/page_table.C:85 | `(addr & 0x3FF000) >> 12` is below 1024 |
| Entries.SplitRecompose | mp4/page_table.C:84-85 | directory index, table index and offset put back together give the 32-bit address |
| Entries.SameSlotsSamePage | mp4/page_table.C:84-85 | two addresses share both indices if and only if they lie in the same page |
| Entries.PageOfSplit | mp4/page_table.C:84-85 | the page number is directory index * 1024 + table index |
| PageTable.TakeFrame | mp3/page_table.C:87 | get_frames(1) on one pool of the list returns its first Free frame, marks it Head and lowers its count by one; no other pool changes. On failure it gives frame 0 and changes nothing |
| PageTable.TakeFrameKeepsRegistry | mp3/page_table.C:87 | taking a frame keeps every pool valid and the pools disjoint |
| PageTable.TakeFrameSucceeds | mp3/page_table.C:87 | get_frames(1) succeeds whenever the pool has a Free frame |
| PageTable.InitPaging | mp3/page_table.C:15-24 | init_paging as intended: it records both pools and the shared size, and no table is loaded yet |
| PageTable.InitPagingAsWritten | mp3/page_table.C:15-24 | as written, init_paging gives the intended result except that the shared size is 0 |
| PageTable.InitPagingAsWrittenDropsSize | mp3/page_table.C:22 | as written, any nonzero shared size is lost: the static size stays 0 |
| PageTable.IdentityTable | mp3/page_table.C:36-39 | entry i of the first table maps page i, present and writable |
| PageTable.New | mp3/page_table.C:26-50 | the constructor takes two kernel frames, the first for the directory and the second for the table. dir[0] refers to the table (present, writable) and dir[1..1023] are not present. Every address below 4 MB maps to its own page, and no address above does |
| PageTable.Initial | mp3/page_table.C:42-48 | the directory built from a directory frame and a table frame is well formed and maps exactly the identity on the first 4 MB |
| PageTable.LowSplit | mp3/page_table.C:78-79 | below 4 MB the directory index is 0 and the table index is the page number; above it the directory index is at least 1 |
| PageTable.Load | mp3/page_table.C:53-60 | load makes the table the current one and changes nothing else |
| PageTable.InstallTable | mp3/page_table.C:84-94 | an absent directory entry gets exactly one kernel-pool frame, installed present and writable, whose 1024 entries are all not present. Other directory entries and tables are unchanged. A present entry changes nothing |
| PageTable.InstallPage | mp3/page_table.C:96-104 | an absent table entry gets exactly one process-pool frame, installed present and writable; no other entry changes. A present entry changes nothing |
| PageTable.HandleFault | mp3/page_table.C:72-107 | every fault is served: afterwards the address is mapped. A fault on a mapped address changes nothing, and only the directory entry of the address's slot can change |
| PageTable.HandleFaultIdempotent | mp3/page_table.C:84-104 | a second fault on the same address changes nothing |
| PageTable.HandleFaultTakes | mp3/page_table.C:84-104 | a fault takes one kernel frame if the directory entry is absent, and one process frame if the page is unmapped; none otherwise |
| PageTable.HandleFaultKeepsOtherPages | mp3/page_table.C:84-104 | a fault on one page leaves the mapping of every other page as it was, provided the new table frame is not already a table |
| PageTable.InstallTableKeepsPages | mp3/page_table.C:84-94 | installing a table leaves every page's mapping as it was |
| PageTable.InstallPageKeepsOtherPages | mp3/page_table.C:96-104 | installing one page leaves every other page's mapping as it was |
| PageTableVM.InitPaging | mp4/page_table.C:15-23 | init_paging as intended records both pools and the shared size; no table is loaded and no VM pool is registered |
| PageTableVM.InitPagingAsWritten | mp4/page_table.C:15-23 | as written, the intended result except that the static shared size stays 0, as in mp3 |
| PageTableVM.InitPagingAsWrittenDropsSize | mp4/page_table.C:21 | as written, any nonzero shared size is lost |
| PageTableVM.New | mp4/page_table.C:25-49 | the self-reference written to dir[1023] at line 28 is overwritten by the loop, so the table equals the first page table's constructor result, and dir[1023] is not present |
| PageTableVM.Load | mp4/page_table.C:52-57 | load makes the table the current one and leaves the pools and VM registry as they were |
| PageTableVM.RegisterPool | mp4/page_table.C:115-127 | as intended, the window joins the registry at its tail, and the paging state is unchanged |
| PageTableVM.RegisterPoolLegitimacy | mp4/page_table.C:115-127 | after registration an address is served if and only if it was served before or lies in the new pool's window |
| PageTableVM.FindLast | mp4/page_table.C:121-124 | the tail search, when it ends, ends at a pool with no successor |
| PageTableVM.RegisterPoolAsWritten | mp4/page_table.C:115-127 | as written, when the tail search ends, the list has a head and the new pool is some pool's successor |
| PageTableVM.RegisterPoolAsWrittenCycles | mp4/page_table.C:118-125 | as written, the first registration links the pool to itself |
| PageTableVM.FindLastOnCycle | mp4/page_table.C:122-124 | the tail search on that self-link never ends |
| PageTableVM.SecondRegistrationHangs | mp4/page_table.C:118-125 | as written, a second registration never returns |
| PageTableVM.ScanLinksAsWritten | mp4/page_table.C:70-77 | the scan over the list as linked: from NULL it stops with the flag clear, and whenever it stops, it stops on a pool exactly when it has set the flag |
| PageTableVM.HandleFaultOnLinksAsWritten | mp4/page_table.C:66-113 | handle_fault as written, over the list as linked: it finishes exactly when the scan stops, and then it handles the fault as the first page table does |
| PageTableVM.ScanOnSelfLink | mp4/page_table.C:71-77 | on a pool that is its own successor and rejects the address, the scan never stops |
| PageTableVM.HandleFaultOnSelfLinkHangs | mp4/page_table.C:70-81 | after the first registration the list is self-linked, and a fault at an address that pool's window rejects is never handled, however many steps are allowed |
| PageTableVM.ScanAsWritten | mp4/page_table.C:70-77 | on a NULL-terminated list, the scan finds a pool if and only if some registered pool's as-written is_legitimate accepts the address |
| PageTableVM.AbortUnreachable | mp4/page_table.C:79-81 | on a NULL-terminated list, the scan stops on a pool only when that pool accepted the address, so the abort never fires |
| PageTableVM.HandleFaultAsWritten | mp4/page_table.C:66-113 | handle_fault as written, on a NULL-terminated list, fails only when the abort fires; otherwise it handles the fault as the first page table does |
| PageTableVM.HandleFaultAsWrittenServesAll | mp4/page_table.C:79-81 | on a NULL-terminated list, the as-written handler serves every fault |
| PageTableVM.HandleFault | mp4/page_table.C:66-113 | AccessViolation exactly when no registered window contains the address; otherwise the first page table's fault handling, after which the address is mapped, and a mapped address changes nothing |
| PageTableVM.HandleFaultAsWrittenDiffers | mp4/page_table.C:70-81 | on a NULL-terminated list, an address outside every window is refused by the corrected handler and served by the as-written one |
| PageTableVM.PageEntry | mp4/page_table.C:132-137 | a page's table entry exists exactly when its directory entry is present |
| PageTableVM.FreePage | mp4/page_table.C:129-143 | free_page releases the entry's frame through the static release_frames and clears the present bit. Afterwards the page is unmapped, the directory is unchanged, and a page without a table changes nothing |
| PageTableVM.FreePageAsWritten | mp4/page_table.C:137-140 | as written, the same frames are released, but `\|= 2` only sets the writable bit |
| PageTableVM.FreePageAsWrittenKeepsMapping | mp4/page_table.C:140 | as written, a freed page stays mapped to the frame just given back |
| PageTableVM.FreePageKeepsOtherPages | mp4/page_table.C:129-143 | freeing one page leaves every other page's mapping as it was |
| PageTableVM.FaultThenFree | mp4/page_table.C:102-139 | a fault that installs a page, followed by free_page of that page, restores the frame pools and leaves the page unmapped |
| VMWindow.LegitimacyBoundary | mp4/vm_pool.C:125-132 | is_legitimate as written accepts exactly the window [base, base + size) plus the address base + size |
| VMWindow.AnyLegitimate | mp4/page_table.C:70-77 | an address is served if and only if some registered window contains it |
| VMPool.Sub32 | mp4/vm_pool.C:68 | subtraction on the 32-bit unsigned long: below 2^32, and exact when it does not underflow |
| VMPool.New | mp4/vm_pool.C:47-72 | with the fields set as intended, the window is registered, region 0 is the window's first page, and available is size - 4096. For a page-multiple size the accounts balance and the region lies in the window |
| VMPool.NewAsWritten | mp4/vm_pool.C:54-68 | as written, the stale window is registered and kept, availableSize becomes the stale value minus 4096 with 32-bit wrap, region 0 is set as intended, and a stale window other than the argument's makes the registry differ from the intended one |
| VMPool.NewAsWrittenZeroed | mp4/vm_pool.C:54-68 | with the shadowed fields left at 0, availableSize wraps to 0xFFFFF000 and the accounts no longer balance |
| VMPool.RoundUp | mp4/vm_pool.C:80-82 | the size rounded up to whole pages: a page multiple, and the least one at or above s |
| VMPool.RoundUpFits | mp4/vm_pool.C:76-84 | when s <= availableSize, which is a page multiple, the rounded size also fits, so the subtraction cannot underflow |
| VMPool.Allocate | mp4/vm_pool.C:74-89 | a request above availableSize returns 0 and changes nothing. Otherwise a region of the rounded size starts where the last region ends, availableSize drops by the rounded size, the new base is returned, and the accounts stay balanced |
| VMPool.AllocateKeepsValid | mp4/vm_pool.C:80-84 | allocation keeps the regions ascending and page-multiple, and keeps sizes plus available equal to the window size |
| VMPool.AppendKeepsOrder | mp4/vm_pool.C:81-82 | a region appended at the end of the last one keeps the table ascending, and adds its size to the total |
| VMPool.FindRegion | mp4/vm_pool.C:95-99 | the search gives the last region starting at the address, and none exactly when no region starts there |
| VMPool.FindRegionAsWritten | mp4/vm_pool.C:95-99 | as written, on an empty table the search ends at once with the not-found value |
| VMPool.FindRegionAsWrittenHangs | mp4/vm_pool.C:95-99 | as written, the search loop never advances i, so it never ends on a non-empty table |
| VMPool.NotFoundIndexOutOfRange | mp4/vm_pool.C:94-105 | the as-written search ends only on an empty table, and then with the not-found index (-1 as unsigned), which is outside the table |
| VMPool.ReleaseTailAsWritten | mp4/vm_pool.C:101-120 | as written, release after the search goes on with any index: the count always drops by one and the pages of slot idx are freed. A found index leaves the intended table and the as-written credit; an index past the table shifts nothing and credits whatever slot idx holds |
| VMPool.FoundTailAsWritten | mp4/vm_pool.C:105-119 | with the index of the region found, the as-written tail frees the same pages and leaves the same regions and count as the intended release |
| VMPool.NotFoundTailAsWritten | mp4/vm_pool.C:101-120 | with the not-found index, the intended release refuses and changes nothing, while the as-written tail lowers the region count, so the last region drops out, and changes availableSize by the size in slot 0xFFFFFFFF |
| VMPool.FreePages | mp4/vm_pool.C:106-110 | freeing pages one after another keeps the paging state valid and leaves the VM registry and both pool indices as they were |
| VMPool.FreePagesUnmaps | mp4/vm_pool.C:106-110 | freeing n pages from an address unmaps each of them, and maps nothing that was unmapped |
| VMPool.FreePagesSplit | mp4/vm_pool.C:106-110 | the pages are freed in ascending order: freeing m + n pages is freeing m, then the n that follow |
| VMPool.Remove | mp4/vm_pool.C:112-116 | the shift keeps the regions before i, moves those after it down by one, and lowers the total by region i's size |
| VMPool.RemoveKeepsOrder | mp4/vm_pool.C:112-116 | removing a region keeps the table ascending and page-multiple |
| VMPool.Forget | mp4/vm_pool.C:112-120 | the region leaves the table and availableSize rises by its own size; the accounts stay balanced |
| VMPool.ForgetKeepsValid | mp4/vm_pool.C:112-120 | removing a region and crediting its size keeps the pool invariant |
| VMPool.Release | mp4/vm_pool.C:91-123 | RegionNotFound exactly when no region starts at the address, and nothing changes. Otherwise every page of the last such region is freed, the region is removed, and its size is credited |
| VMPool.ReleaseUnmaps | mp4/vm_pool.C:105-110 | every page of the released region is unmapped afterwards |
| VMPool.Shifted | mp4/vm_pool.C:112-116 | the as-written shift leaves the table without region i in its first count - 1 slots, and the stale slot past the end in the last one |
| VMPool.ReleaseCreditAsWritten | mp4/vm_pool.C:112-120 | as written, the credit is the size of the region after the released one, or of the stale slot |
| VMPool.ReleaseCreditAsWrittenBreaksAccounting | mp4/vm_pool.C:120 | take three regions of different sizes. Releasing the middle one credits the third one's size, and the accounts stop balancing |
| VMPool.AllocateEscapesWindow | mp4/vm_pool.C:81 | take a full pool. After its middle region is released, the next allocation starts at the window's end: allocation from the last region does not keep regions inside the window |
| ReadyQueue.Empty | mp5/queue.H:14-17 | a new queue is well formed and holds no thread |
| ReadyQueue.Single | mp5/queue.H:18-21 | the one-argument queue holds exactly that thread, or nothing for NULL |
| ReadyQueue.Enqueue | mp5/queue.H:23-35 | enqueue keeps the node invariant (an empty node has no successor) and appends the thread at the tail |
| ReadyQueue.Dequeue | mp5/queue.H:37-57 | an empty queue gives NULL and is left as it is. Otherwise the first thread is returned and the rest keep their order |
| ReadyQueue.EnqueueDequeue | mp5/queue.H:23-57 | a thread enqueued on an empty queue is the one dequeued, and the queue is empty again |
| ReadyQueue.EnqueueKeepsFront | mp5/queue.H:23-57 | enqueueing on a non-empty queue does not change which thread dequeue returns, and adds the thread at the end of what remains |
| Scheduler.New | mp6/scheduler.C:48-54 | the scheduler starts with queueSize 0, an empty ready queue and no disk |
| Scheduler.Resume | mp6/scheduler.C:78-88 | resume appends the thread and raises queueSize by one, keeping queueSize equal to the queue's length |
| Scheduler.Add | mp6/scheduler.C:90-99 | add does what resume does |
| Scheduler.AddDisk | mp6/scheduler.C:122-124 | add_disk attaches the disk and leaves the ready queue and queueSize alone; with a well-formed disk queue and count, the scheduler invariant is kept |
| Scheduler.Yield | mp6/scheduler.C:56-76 | with a ready disk and a non-empty disk queue, the disk queue's first thread is dispatched, its count drops by one, and the ready queue is untouched. Otherwise yield fails its assertion exactly when queueSize <= 0, and else dispatches the ready queue's first thread and lowers queueSize by one |
| Scheduler.YieldIsFifo | mp6/scheduler.C:66-83 | a resume does not change which thread the next yield dispatches |
| Scheduler.TerminateLoop | mp6/scheduler.C:105-115 | each iteration keeps queueSize equal to the ready queue's length, and the count never grows |
| Scheduler.LoopOnQueue | mp6/scheduler.C:105-115 | the loop on the linked queue does to its threads what the rotation loop on the thread sequence does |
| Scheduler.LoopFollows | mp6/scheduler.C:105-115 | the rotation loop ends with the unvisited threads followed by the visited threads of other ids, in order |
| Scheduler.TerminateResult | mp6/scheduler.C:105-115 | the ready queue after terminate is that rotation, stopped where the shrinking count meets the iteration counter |
| Scheduler.Terminate | mp6/scheduler.C:101-120 | terminate keeps the scheduler invariant and leaves the disk alone |
| Scheduler.TerminateKeepsOthers | mp6/scheduler.C:105-115 | every thread of another id is queued as often afterwards as before |
| Scheduler.TerminateAbsent | mp6/scheduler.C:105-115 | terminate of an id not in the queue rotates it fully: contents, order and queueSize are unchanged |
| Scheduler.UniqueStop | mp6/scheduler.C:106-109 | with exactly one match, the loop makes n - 1 iterations, unless the match is last, which is reached only in iteration n |
| Scheduler.Removed | mp6/scheduler.C:105-115 | the queue left by terminate with one match has one thread fewer and is, as a multiset, the queue less that thread |
| Scheduler.TerminateUnique | mp6/scheduler.C:105-115 | with exactly one matching thread, terminate removes it, brings the last thread to the front unless it is the match, and lowers queueSize by one |
| Scheduler.TerminateDuplicate | mp6/scheduler.C:106-109 | with two queued threads of the same id, terminate removes only one of them |

## Left out

- Console output, the interrupt toggling in the scheduler, `Thread::dispatch_to` and `enable_paging` are not modelled. The registers CR0, CR2 and CR3 are replaced by the current-table field and the fault-address argument.
- Physical addresses used as pointers are not modelled. A table is reached through the modelled directory, not through frame * PAGE_SIZE. `free_page` finds its entry through the directory rather than the recursive self-map address at mp4/page_table.C:136, which the constructor overwrites.
- The `next` and `vmPool_next` lists are sequences, except in the as-written register_pool and fault scan, where `PageTableVM.Links` keeps the `vmPool_next` links as a map. The ready queue's node deletion (`delete nxt`) is left out: there is no heap.
- ContFramePool.SkipTaken: the lookup loop at mp3/cont_frame_pool.C:194 has no upper bound and, in a pool with no Free frame from i on, reads past the bitmap. The model stops it at the pool end.
- ContFramePool.New: the invariant is stated only for a pool with an info frame or with at least one frame. With no info frame and no frames, the source writes bitmap[0] past an empty bitmap and its unsigned counter wraps.
- ContFramePool.MarkInaccessible: an out-of-range or taken target is reported as an error and changes nothing. The source prints and skips an out-of-range frame, halts on a Head frame (mp3/cont_frame_pool.C:254) and turns an Allocated frame into 0xBF; ContFramePool.MarkInaccessibleAsWritten follows it.
- ContFramePool.MarkOneAsWritten: a Head frame (the halt) and an Allocated frame (the byte 0xBF, which is no state) both give None, so the as-written members say nothing about the bitmap after either. The byte written past the bitmap for frame base + nFrames is not modelled: the states are left as they were.
- PageTable.TakeFrame: a failed get_frames gives frame 0, which the source then installs and writes through. The model installs frame 0 too, but does not model writes to physical memory. So PageTable.HandleFaultKeepsOtherPages requires the new table frame not to be a table already.
- PageTableVM.FreePage: a page whose directory entry is absent changes nothing. The source would take a fault on its self-map lookup.
- PageTableVM.ScanAsWritten: it and PageTableVM.AbortUnreachable, PageTableVM.HandleFaultAsWritten, PageTableVM.HandleFaultAsWrittenServesAll and PageTableVM.HandleFaultAsWrittenDiffers hold only for a NULL-terminated list. The list the as-written register_pool builds is self-linked from the first registration on, and there a rejected address hangs the scan (PageTableVM.HandleFaultOnSelfLinkHangs).
- PageTableVM.ScanLinksAsWritten: bounded by fuel like the tail search; a scan out of fuel stands for one that never stops.
- PageTableVM.FindLast: the tail search is bounded by a fuel argument. A search that runs out of fuel stands for one that never ends; nothing is claimed about lists longer than the fuel.
- VMPool.FindRegionAsWritten: likewise bounded by fuel, to show the loop at mp4/vm_pool.C:95-99 never ends.
- VMPool.Allocate: requires a non-empty region table. With none, the source reads memRegion[-1].
- VMPool.Allocate: the region table lives in the pool's first page (mp4/vm_pool.C:62-65), and allocate writes the next slot with no capacity check (mp4/vm_pool.C:81-82). After about 512 regions of two 32-bit words it runs past that page. The model appends without bound.
- VMWindow.LegitimacyBoundary: `baseAddress + size` at mp4/vm_pool.C:127 is an unbounded sum here, so its 32-bit wrap for a window that reaches 2^32 is not modelled; neither is the wrap of the new region base computed at mp4/vm_pool.C:81.
- VMPool.ReleaseTailAsWritten: it takes the search result as an argument, because the as-written search (mp4/vm_pool.C:95-99) ends only on an empty table. The type of `countRegions` is declared in a header that is not part of this model, so the count is an int and drops to -1 on an empty table. The credit is an unbounded sum, and the slot at 0xFFFFFFFF is an argument (`junk`) standing for whatever memory lies there.
- Integer widths: addresses are taken below 2^32 where the index split needs it, and the constructor's `availableSize - PAGE_SIZE` wraps as a 32-bit unsigned value. The other counters are unbounded integers.
- FrameRegistry.ReleaseFrames: ownership is ContFramePool.InPool, without wrap-around. The source's test `_first_frame_no <= baseFrameNo + nFrames - 1` (mp3/cont_frame_pool.C:265) is unsigned, so a pool of 0 frames at base 0 would claim every frame; the model's empty pool claims none.
- VMPool.New: the write of region 0's base and size through the pointer `baseAddress` (mp4/vm_pool.C:63-65) is the first touch of the pool's first page; with paging on, it faults and handle_fault maps that page, taking a process frame and perhaps a kernel frame. That fault is not modelled: VMPool.New and VMPool.NewAsWritten change the paging state only by the registration. In the as-written constructor the registered window is the stale one, which need not hold `base`.
- `mp6/blocking_disk.C` and the file system in `mp7/` are not part of this model. The disk enters only as its queue, its count and a readiness argument.

## Findings

| source | as written | input that shows it | evidently intended | confidence | as-written member | corrected member |
|---|---|---|---|---|---|---|
| mp3/cont_frame_pool.C:284 | `i ^ 0xFF == 0x80` parses as `i ^ 0`, so release frees every frame to the pool end | pool [Head, Head], release frame 0 | free the head and the Allocated frames after it, stopping at a Free or Head frame | not executed | ContFramePool.ReleaseFrameAsWrittenOverruns | ContFramePool.GetThenRelease |
| mp3/cont_frame_pool.C:246 | range test `_frame_no > base + nFrames` accepts base + nFrames | any pool, frame base + nFrames | reject frames at or past base + nFrames | not executed | ContFramePool.AcceptsFrameAsWrittenOffByOne | ContFramePool.MarkInaccessible |
| mp3/cont_frame_pool.C:254-257 | the assertion admits an Allocated frame, and XOR 0xC0 turns 0x7F into 0xBF | mark_inaccessible of an Allocated frame | reserve only frames that are Free | not executed | ContFramePool.MarkAllocatedByteAsWritten | ContFramePool.MarkInaccessible |
| mp3/cont_frame_pool.C:242 | the counter drops by n even for frames the range test skipped | pool of 8 Free frames at base 0, mark_inaccessible(9, 1) | lower the counter only for frames actually reserved | not executed | ContFramePool.MarkInaccessibleAsWrittenSkewsCount | ContFramePool.MarkInaccessiblePreservesValid |
| mp3/cont_frame_pool.C:257 | every target frame is XORed with 0xC0, so every one becomes Head | mark_inaccessible(first, 2) on Free frames, then release_frames(first) | mark the first frame Head and the rest Allocated, as lines 67-70 say | not executed | ContFramePool.MarkAsWrittenReleasesOnlyFirst | ContFramePool.MarkThenRelease |
| mp3/cont_frame_pool.C:295 | needed_info_frames counts 8 bytes per frame | 4096 frames: 8 info frames | one byte per frame, one info frame per 4096 frames, as lines 72-74 say | not executed | ContFramePool.NeededInfoFramesAsWrittenOverReserves | ContFramePool.NeededInfoFrames |
| mp3/page_table.C:22 | the shared size goes into a local and is dropped | init_paging with shared size 4 MB | store it in the static `shared_size` | not executed | PageTable.InitPagingAsWrittenDropsSize | PageTable.InitPaging |
| mp4/page_table.C:21 | the shared size goes into a local and is dropped, as in mp3 | init_paging with shared size 4 MB | store it in the static `shared_size` | not executed | PageTableVM.InitPagingAsWrittenDropsSize | PageTableVM.InitPaging |
| mp4/page_table.C:79-81 | on a NULL-terminated list the abort tests `ptr != NULL`, which holds only after a match, so it never fires; on the self-linked list register_pool builds, the scan never ends | one registered pool, a fault address outside its window | refuse a fault that no pool claims | not executed | PageTableVM.HandleFaultOnSelfLinkHangs | PageTableVM.HandleFault |
| mp4/page_table.C:140 | `\|= 2` sets the writable bit and leaves the page present | free_page of a mapped page | clear the present bit | not executed | PageTableVM.FreePageAsWrittenKeepsMapping | PageTableVM.FaultThenFree |
| mp4/page_table.C:118-125 | the first registration sets the head and then links the pool to itself | two registrations in a row | append at the tail of an acyclic list | not executed | PageTableVM.SecondRegistrationHangs | PageTableVM.RegisterPoolLegitimacy |
| mp4/vm_pool.C:54-57 | the constructor's locals shadow the fields, which keep their old values | a pool constructed with zeroed fields | set the fields from the arguments | not executed | VMPool.NewAsWrittenZeroed | VMPool.New |
| mp4/vm_pool.C:95-99 | the search loop never increments i | release on any pool | visit every region once | not executed | VMPool.FindRegionAsWrittenHangs | VMPool.FindRegion |
| mp4/vm_pool.C:101-105 | after "not found" the code goes on with index -1: it reads slot 0xFFFFFFFF, skips the shift, lowers the count and credits that slot's size | release of an address that starts no region | return without changing anything | not executed | VMPool.NotFoundTailAsWritten | VMPool.Release |
| mp4/vm_pool.C:120 | the credit reads slot i after the shift has overwritten it | regions of sizes 4096, 4096, 8192; release the second | credit the released region's own size | not executed | VMPool.ReleaseCreditAsWrittenBreaksAccounting | VMPool.ForgetKeepsValid |
| mp4/vm_pool.C:127 | `_address > base + size` accepts base + size | any pool, address base + size | accept [base, base + size) | not executed | VMWindow.LegitimacyBoundary | PageTableVM.HandleFault |
