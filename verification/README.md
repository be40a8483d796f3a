# SwallowOS: memory, scheduler, heap, FAT12 and formatted output, verified

SwallowOS is a small x86_64 kernel. This project models the parts of it whose correctness is a
property of whole runs, and proves those properties with Dafny. `dafny verify dfyconfig.toml`
checks everything.

## What is modelled

**Virtual memory.** Physical memory is a sequence of 4 KiB frames, each of 512 64-bit words
(`Paging.dfy`); the frame bitmap is kept beside it (`FrameMap.dfy`, `FrameRegion.dfy`,
`PhysicalMemory.dfy`). A page table is read by `Paging.Lookup`, the translation function of four-level
paging (Intel SDM Vol. 3A, section 4.5), which also returns the low flag bits met on the way down.
`Paging.Labelled` is the shape-and-separation invariant: a ghost map gives every frame of a tree the one
path that reaches it, so no frame is reached twice. Against these, `mm_dup_pgd` (`PageCopy.dfy`),
`do_mmap` (`PageGrowth.dfy`, `DemandPaging.dfy`) and `remap_lower_kernel_range` (`IdentityMap.dfy`) are
imperative methods over the RAM object, and `LazyLoading.dfy` reasons about sequences of page faults.

**Scheduler.** `SchedulerSpec.dfy` is a state machine over the globals of task.c; each API call, the
timer tick and the cleaner's work is a function from state to state, and the switch of tasks is one
atomic step. Two bookkeeping fields that the kernel does not have are carried along: how many unlocks
each task still owes, and how often a task was taken off the ready ring. `Scheduler.dfy` is the class
whose methods do what task.c does, each proved to have exactly the effect of its function, including the
rotating sleep scan. The other files prove invariants and theorems about every run from
`init_scheduler` on; `SchedulerCalls.dfy` says what the calls mean for the task that makes them, and what
a time slice is worth.

The scheduler's rings are sequences in both. What becomes of the four global head pointers and of the
list node in each task's record is `TaskRings.dfy` and `SchedulerLinks.dfy`: four `Ring.Queue` objects
through one shared node per task, and for every step of the state machine the list operations that
carry it out.

**Kernel heap.** One page tag, from `kmemory_page_init` until its pages are released. `HeapLayout.dfy`
holds the address-ordered ring and the size classes, `HeapSpec.dfy` what allocating and freeing do and
the invariant they keep, `HeapAccounting.dfy` the meaning of the counters, `HeapBlocks.dfy` what a block
is worth to its client, `HeapServing.dfy` which requests are served and in what order, `HeapRuns.dfy`
theorems about runs of `kmalloc` (with its clearing of the requested size) and `kfree`,
`HeapExamples.dfy` two runs that end where the code fails, `KernelHeap.dfy` the imperative code. The
x86_64 layout is used: 24-byte header, 40-byte chunk structure, alignment 4, smallest request 16. Every
64-bit sum wraps (`Words.dfy`).

**Rings.** `Ring.dfy` is list.h on real nodes with `next` and `prev` pointers. It proves that a ring with
a head pointer is a sequence: the head alone determines the sequence, `list_add_tail` appends,
`list_add` inserts, `list_del` removes, and moving the head rotates. `Ring.Queue` has the three idioms
task.c and malloc.c build on them: start a ring or join its tail, take the head off or unlink a node with
the head moving on, and turn. That is what allows the scheduler and the heap to keep each of their rings
as a sequence read from its head: appending is `ring + [x]`, taking the head is `ring[1..]`, turning is
`ring[1..] + [ring[0]]`, and unlinking is `Ring.Without`, which the heap's bins use directly.

**FAT12 and formatted output.** `Fat12.dfy` reads a file's cluster chain from a partial map of readable
sectors. `Printf.dfy` has the digit loop, the in-place reversal in the 32-byte buffer, and the format
interpreter, proved against a character-by-character rendering.

## Where the code does not do what one would expect

Each of these is stated as a lemma, with the exact condition under which the code does meet the
expectation.

- A block from the heap is big enough exactly when it comes from a higher bin than the request's own, or
  the head of that bin happens to be big enough, and the request does not wrap with its header:
  `HeapBlocks.BlockFitsIff`. `kmalloc` clears as many bytes as were asked for; that stays inside the block
  exactly when the block is big enough and rounding covers the request: `HeapBlocks.ClearsInsideIff`. After
  allocating 80 and 16 bytes and freeing the first block, a request for 100 bytes gets the 80 back and its
  clearing overwrites the header of the live block behind: `HeapExamples.BlockTooSmall`,
  `HeapExamples.ExampleReached`. The theorems about runs take only requests for which the clearing is safe.
- Rounding a request up covers it except for the three largest sizes: `HeapBlocks.RoundedCovers`.
- The sums of a request with the header and with two chunk headers wrap. A request that rounds to at least
  2^64 - 24 bytes and that the free count admits can then be served from the word before the bins, or by
  splitting the chunk found inside its own header; an allocation keeps the structure exactly when it is not
  served so: `HeapInvariant.AllocKeepsIff`. Since frees leave the free count wrong, such a state is reached by
  allocating 16 bytes twice, freeing the second block and allocating 16 again:
  `HeapExamples.WreckReached`, `HeapExamples.RequestWrecks`.
- The three heap counters are exact as long as nothing has been freed (`HeapRuns.CountersConserved`). Over
  any run `mem_meta` stays exact and `mem_used` is short by exactly one header for each free
  (`HeapRuns.CountersDrift`); from an exact `mem_free` no free leaves it exact
  (`HeapAccounting.FreeNeverExact`), and by how much it moves is `HeapAccounting.FreeCounts`.
- The test of the frame-shrinking loop scales frame numbers by 8, which the comment beside it does not
  mention, and both its sides wrap around 64 bits. The loop ends exactly when some scaled end lies between
  2 GiB and the page below the RAM end, or that page lies below 2 GiB (`FrameRegion.LoopEndsIff`); a RAM
  size with which it goes round for ever is `FrameRegion.StarvedExample`.
- Where the loop ends, the bitmap has room for every kept frame except when the bitmap itself runs over the
  top of the address space, or the test wraps although its limit does not and the last bitmap word is
  partial with no padding behind it: `FrameRegion.RegionFits`, with a concrete memory size in
  `FrameRegion.BitmapSpillExample`. In that corner the last frame's bit lies in the first frame.
- A page is filled from the file as eager loading would fill it exactly when it does not begin before its
  area: `DemandPagingSpec.FaithfulIffAligned`.
- A FAT entry is decoded correctly, whatever lies behind the sector buffer, exactly when it does not
  straddle two sectors: `Fat12Spec.DecodesIff`; the first that does is cluster 341.
- Chunks of one bin are handed out in the order they were put there, until one between them is taken out for
  merging: removing a chunk moves the head behind it (`HeapServing.DeleteTurns`).
- Blocking under d outer `lock_scheduler` calls hands over a clean counter exactly when d is 0:
  `SchedulerRuns.BlockBalancedIff`.

## Assumptions on callers and on the machine

- Top-level page-table entries of a copied source have no PS bit (it is reserved there); the source's
  frames are all in use. No huge page covers an address given to `do_mmap`.
- The kernel is at most 1 GiB. The frame region is laid out for RAM ends of up to 52 bits, with at least 64
  frames estimated and a page to spare; page tables are worked on where RAM is visible through the 2 GiB
  higher half.
- Blocking calls are made by a running task that holds no `lock_scheduler`, and neither is one held when an
  `unlock_stuff` runs a pending switch; unlocks match locks; the tick comes only while the interrupt
  counter is 0. These are `SchedulerSpec.Enabled`, nothing else is assumed
  of a run.
- Clients of the heap free only blocks they hold, and ask only for what can be cleared safely
  (`HeapRuns.Roomy`, which is exactly that: `HeapRuns.RoomyIff`). A run ends with the free that gives the
  pages back.
- Arguments given to a format are those its conversions ask for.
- The timer count, sector contents, the file image and the memory map are parameters. The terminal
  accepts every character.

## Model

| member | source | states |
|---|---|---|
| FrameBits.SetBitMeets | kernel/arch/x86_64/mm/pagemanager.c:33-38 | after the shift-and-mask write of bit i, testing bit k gives the written value for k = i and the old bit for every other k |
| FrameBits.WriteBit | kernel/arch/x86_64/mm/pagemanager.c:30-38 | on the packed array, writing frame i's bit changes the bit of frame i and of no other frame |
| FrameBits.WriteDenotes | kernel/arch/x86_64/mm/pagemanager.c:30-38 | the bitmap stays the characteristic function of the used set, with frame i added or removed |
| FrameMaps.FrameMap.GetFrameMap | kernel/arch/x86_64/mm/pagemanager.c:30-32 | returns 1 exactly for the frames of the used set |
| FrameMaps.FrameMap.SetFrameMap | kernel/arch/x86_64/mm/pagemanager.c:33-38 | adds or removes exactly the given frame |
| FrameMaps.FrameMap.CheckContinuousFreePage | kernel/arch/x86_64/mm/pagemanager.c:125-133 | returns 0 exactly when the whole run is free and start + count < npages |
| FrameMaps.FrameMap.AllocRun | kernel/arch/x86_64/mm/pagemanager.c:135-150 | takes the lowest run of count free frames, marks exactly those, and fails exactly when count is 0 or no such run exists |
| FrameRuns.UsedOnlyGrows | kernel/arch/x86_64/mm/pagemanager.c:135-150 | over a run of allocations no used frame becomes free |
| FrameRuns.BlocksDisjoint | kernel/arch/x86_64/mm/pagemanager.c:135-150 | all blocks handed out by a run of allocations are disjoint from each other and from what was used before |
| FrameRuns.SingleFrameFirstFit | kernel/arch/x86_64/mm/pagemanager.c:139-147 | a single frame is taken first-fit: every lower frame is in use |
| FrameRuns.FreeRunMeans | kernel/arch/x86_64/mm/pagemanager.c:125-133 | a run may be handed out if and only if start + count < npages and each of its frames is unused |
| FrameRuns.ExhaustedMeans | kernel/arch/x86_64/mm/pagemanager.c:135-150 | none is left if and only if every stretch of that length short of the last frame holds a used frame |
| FrameRuns.TakesLowestMeans | kernel/arch/x86_64/mm/pagemanager.c:139-147 | a call takes exactly the frames of a free run below which every run holds a used frame |
| FrameRegion.PlainEstimate | kernel/arch/x86_64/mm/pagemanager.c:110 | for every RAM end of up to 52 bits the estimate computed with 64-bit wrap-around equals the one in unbounded arithmetic |
| FrameRegion.ScaledEndCases | kernel/arch/x86_64/mm/pagemanager.c:116 | when the shrinking test holds, in physical addresses: the true comparison while neither side wraps, never once only the scaled end wraps, and below 2 GiB as well as beyond the limit once the limit wraps too |
| FrameRegion.ShrinkPages | kernel/arch/x86_64/mm/pagemanager.c:116-117 | where the loop ends it does so without passing below zero, at the largest count whose scaled end is within the limit, or at the unshrunk estimate when only the test wraps |
| FrameRegion.StarvedNeverEnds | kernel/arch/x86_64/mm/pagemanager.c:116-117 | in a starved layout the test holds of every 64-bit count |
| FrameRegion.LoopEndsIff | kernel/arch/x86_64/mm/pagemanager.c:116-117 | some count passes the test, so that the loop can end, if and only if the layout is not starved |
| FrameRegion.RegionFits | kernel/arch/x86_64/mm/pagemanager.c:107-119 | every frame ends at least a page below the RAM end; the bitmap words before startframe cover every frame if and only if the bitmap does not run over the top of the address space and it is not the case that the test wraps and the last word spills |
| FrameRegion.WrappedTestCovers | kernel/arch/x86_64/mm/pagemanager.c:107-119 | the regime in which only the test wraps: the bitmap covers the frames if and only if its last word does not spill |
| FrameRegion.PlainTestCovers | kernel/arch/x86_64/mm/pagemanager.c:107-119 | the other two regimes, in one of which limit and test both wrap: it does if and only if the bitmap itself does not wrap |
| FrameRegion.BitmapSpillExample | kernel/arch/x86_64/mm/pagemanager.c:107-117 | concrete boot values for which 98305 frames are kept and the bitmap has 98304 bits |
| FrameRegion.ThreeGiBExample | kernel/arch/x86_64/mm/pagemanager.c:107-117 | a 3 GiB machine: the limit wraps, 98168 frames are kept, the bitmap covers them and the region ends at 0x18390000 |
| FrameRegion.StarvedExample | kernel/arch/x86_64/mm/pagemanager.c:116-117 | concrete boot values for which the loop never ends |
| FrameRegion.KallocFrameInit | kernel/arch/x86_64/mm/pagemanager.c:101-123 | where the loop ends, leaves a zeroed bitmap, all frames free, below an aligned startframe; the bitmap is valid if and only if there are fewer than 2^32 frames and the condition of RegionFits holds |
| Paging.MadeEntry | kernel/arch/x86_64/mm/mm.c:96-97 | an entry assembled from three flag bits and a frame address gives both back and has no PS bit |
| Paging.EntryFields | kernel/arch/x86_64/mm/mm.c:33-36 | by bit positions, whatever the other bits are: an entry is huge if and only if bit 7 is set, its low flags are bits 0 to 2, its frame is bits 12 to 47 |
| Paging.EveryEntryHasFields | kernel/arch/x86_64/mm/pgtable.h:11 | every 64-bit word has such fields |
| Paging.KindByBits | kernel/arch/x86_64/mm/mm.c:101-127 | a nonzero entry is anything but a link only in the two middle levels and only by bit 7 |
| Paging.LabelIsPath | kernel/arch/x86_64/mm/pagemanager.c:188-231 | in a separated tree the frame a path reaches carries that path as its place |
| Paging.ReachInjective | kernel/arch/x86_64/mm/pagemanager.c:188-231 | two different paths of a separated tree never reach the same frame |
| Paging.SubtreeFrame | kernel/arch/x86_64/mm/pagemanager.c:188-231 | writes outside a subtree leave it a tree with the same translation of every page |
| PhysicalMemory.Ram.AllocPages | kernel/arch/x86_64/mm/pagemanager.c:135-150 | hands out the lowest free run, clears only its first page, changes nothing else, and reports 0 exactly when it took nothing; for a single page that means that no frame is left but the last, which is never handed out |
| PhysicalMemory.PageAddress | kernel/arch/x86_64/mm/pagemanager.c:143 | the kernel address of the i-th frame names that frame and no other |
| PhysicalMemory.PhysAddrOfFrame | kernel/arch/x86_64/mm/pgtable.c:11-13 | the higher-half case of get_physaddr plus the flags is the entry that links the frame behind a kernel address |
| PageCopySpec.CopyTranslates | kernel/arch/x86_64/mm/mm.c:87-146 | a copy translates every page as its source: same mapping state, same low flags at each level, same page bytes, identical huge entries |
| PageCopySpec.CopyMapsNothingMore | kernel/arch/x86_64/mm/mm.c:87-146 | a page is unmapped in the copy if and only if it is in the source |
| PageCopySpec.CopiedEntry | kernel/arch/x86_64/mm/mm.c:87-146 | entry by entry, in bits: a zero entry is zero in the copy, a middle-level entry with bit 7 set is the same word, and any other holds the three low flags of the source entry and a frame that was free |
| PageCopySpec.SourceStable | kernel/arch/x86_64/mm/mm.c:75-157 | the source translates every page as before as long as its own frames are untouched |
| PageCopySpec.CopyStable | kernel/arch/x86_64/mm/mm.c:100-144 | writes that miss the copy's frames leave it a copy |
| PageCopySpec.EntryStaysDone | kernel/arch/x86_64/mm/mm.c:87-146 | later iterations do not disturb entries already copied |
| PageCopySpec.TableDone | kernel/arch/x86_64/mm/mm.c:87-146 | a table all of whose entries are copied is a copy and a separated tree |
| PageCopy.DupEntry | kernel/arch/x86_64/mm/mm.c:101-115 | one iteration copies its entry and touches only that entry and frames that were free; the source is unchanged |
| PageCopy.LinkCopy | kernel/arch/x86_64/mm/mm.c:107-115 | links a frame that was free, with the source's three low flags, holding the bytes of the source's frame |
| PageCopy.DupLink | kernel/arch/x86_64/mm/mm.c:107-144 | links and fills a fresh frame and copies the table below it |
| PageCopy.DupTable | kernel/arch/x86_64/mm/mm.c:100-145 | one of the four nested loops: the whole table becomes a copy of the source table, as a separated tree of fresh frames |
| PageCopy.MmDupPgd | kernel/arch/x86_64/mm/mm.c:75-157 | on success every page translates as in the source, the copy is a separated tree of frames that were all free (entry by entry: PageCopySpec.CopiedEntry), and no frame in use before has changed; it fails only when no frame is left |
| PageIndices.IndicesReconstruct | kernel/arch/x86_64/mm/pgtable.h:6-9 | the four indices and the page offset reconstruct the low 48 bits of an address |
| PageIndices.PathReconstructs | kernel/arch/x86_64/mm/pgtable.h:6-9 | conversely every choice of four indices is the path of the address it stands for |
| PageIndices.SamePathSamePage | kernel/arch/x86_64/mm/pgtable.c:4-9 | two 48-bit addresses have the same path if and only if they lie in the same page |
| PageGrowth.ZeroTable | kernel/arch/x86_64/mm/pagemanager.c:145 | a cleared table maps nothing |
| PageGrowth.LinkFresh | kernel/arch/x86_64/mm/pagemanager.c:190-231 | linking one zeroed fresh frame keeps the tree separated and changes the translation of no page but the one whose leaf it is |
| PageGrowth.MappedFlags | kernel/arch/x86_64/mm/pagemanager.c:196-231 | a mapped small page has the flags of the links on its path |
| DemandPagingSpec.FaultLoadsFile | kernel/arch/x86_64/mm/pagemanager.c:233-242 | a page that does not begin before its area is filled byte for byte as the file lays it out, zero beyond the area |
| DemandPagingSpec.FaithfulIffAligned | kernel/arch/x86_64/mm/pagemanager.c:235-240 | for all files, that holds if and only if the page does not begin before its area |
| DemandPagingSpec.FaultReadsAt | kernel/arch/x86_64/mm/pagemanager.c:235-242 | where each byte of a filled page comes from, for pages that begin before their area too |
| DemandPagingSpec.AreaMeans | kernel/arch/x86_64/mm/pagemanager.c:168-177 | an address belongs to the last area with start <= address < end |
| PageBytes.WordOfBytes | kernel/arch/x86_64/mm/pagemanager.c:242 | bytes are in little-endian order in a word |
| DemandPaging.LinkNew | kernel/arch/x86_64/mm/pagemanager.c:191-196 | links a zeroed frame with flags 7 at an absent entry, as one growth step of the tree |
| DemandPaging.LinkIfAbsent | kernel/arch/x86_64/mm/pagemanager.c:189-197 | follows a present entry without change, else links a fresh frame |
| DemandPaging.WalkTables | kernel/arch/x86_64/mm/pagemanager.c:188-222 | the walk through the three upper levels reaches the page's table, growing only what is missing |
| DemandPaging.FindVma | kernel/arch/x86_64/mm/pagemanager.c:168-177 | finds the last area on the list that covers the address, or reports that none does |
| DemandPaging.CopyFile | kernel/arch/x86_64/mm/pagemanager.c:233-242 | every byte of the new page is the one the fault must put there, and no other frame changes |
| DemandPaging.MapLeaf | kernel/arch/x86_64/mm/pagemanager.c:224-243 | a page already present is left alone, an absent one is mapped to a fresh frame and filled |
| DemandPaging.DoMmap | kernel/arch/x86_64/mm/pagemanager.c:161-244 | exact footprint: the faulting page is mapped (its old frame, or a fresh one with flags 7 on the new levels, filled from the file), every other page translates as before, the tree stays separated; an uncovered address is reported and changes nothing; it runs out of memory only when no frame is left |
| LazyLoading.FaultFillsImage | kernel/arch/x86_64/mm/pagemanager.c:168-181 | with page-aligned areas on disjoint pages, the page a fault fills is that page of the process image |
| LazyLoading.FaultKeepsPage | kernel/arch/x86_64/mm/pagemanager.c:161-244 | one more fault keeps what is known of every page |
| LazyLoading.LazyEqualsEager | kernel/arch/x86_64/mm/pagemanager.c:161-244 | after any sequence of faults every page that was touched and absent at first holds its part of the image with the right flags, and all other pages are as at the start |
| LazyLoading.FaultOrderIrrelevant | kernel/arch/x86_64/mm/pagemanager.c:161-244 | two fault sequences that touch the same pages end with the same mapping state, flags and bytes of every page |
| IdentityMap.FillPt | kernel/arch/x86_64/mm/pagemanager.c:86-92 | the inner loop fills a table with the identity entries up to the kernel end and stops where the source jumps out |
| IdentityMap.FillPd | kernel/arch/x86_64/mm/pagemanager.c:78-93 | the middle loop makes a directory of such tables; it runs out of indices if and only if its last page is within the kernel |
| IdentityMap.FillPdpt | kernel/arch/x86_64/mm/pagemanager.c:70-94 | the outer loop makes the whole slot, writing only fresh frames and its own table |
| IdentityMapSpec.PdptTranslates | kernel/arch/x86_64/mm/pagemanager.c:70-94 | such a slot translates page n to frame n with leaf flags 3 up to the kernel end and maps nothing beyond |
| IdentityMap.RemapTranslates | kernel/arch/x86_64/mm/pagemanager.c:95-97 | installing the slot leaves the translation of every other slot as it was |
| IdentityMap.IdentityAddress | kernel/arch/x86_64/mm/pagemanager.c:87-92 | in addresses: each up to the kernel end is its own physical address, and a page that starts beyond it is unmapped |
| IdentityMap.RemapLowerKernelRange | kernel/arch/x86_64/mm/pagemanager.c:42-98 | on success every address up to the kernel end is mapped to itself with flags 3 below three levels of 7, no page that starts beyond it is mapped in slot 0, and every other slot translates as before; it panics for a kernel over 1 GiB, and else only when no frame is left |
| Ring.InitListHead | kernel/include/kernel/list.h:21-24 | the node is a ring of one |
| Ring.ListAddBetween | kernel/include/kernel/list.h:33-43 | linking a new node between the last and the first makes a ring with it at the end |
| Ring.ListAddTail | kernel/include/kernel/list.h:50-52 | the ring's sequence from its head gets the new node appended |
| Ring.ListAdd | kernel/include/kernel/list.h:46-48 | the new node comes right after the given one, all others keep their order |
| Ring.ListDel | kernel/include/kernel/list.h:59-74 | the other nodes remain a ring in order, read from the node after the deleted one, whose links are poisoned |
| Ring.RotatedIsRing | kernel/include/kernel/list.h:17-19 | any node may be the head: moving it only rotates the sequence |
| Ring.RingDetermined | kernel/include/kernel/list.h:17-19 | the head alone determines the sequence of nodes |
| Ring.ListForEach | kernel/include/kernel/list.h:12-13 | the loop visits exactly the nodes after the head, once each, in order, and ends |
| Ring.Queue.Append | kernel/arch/x86_64/mm/malloc.c:227-232 | start a ring or join its tail: the sequence gets the node appended |
| Ring.Queue.Remove | kernel/arch/x86_64/mm/malloc.c:212-218 | unlinking a node moves the head to its successor; the last node leaves a null head |
| Ring.Queue.TakeHead | kernel/arch/x86_64/sched/task.c:191-197 | the head comes off and the rest stays in order |
| Ring.Queue.Turn | kernel/arch/x86_64/sched/task.c:372 | moving the head on rotates the sequence by one |
| TaskRings.TaskRings.SeparateRings | kernel/arch/x86_64/sched/task.c:34-37 | the four global lists are well-formed rings with no node in common, each through the nodes of its tasks in order |
| TaskRings.TaskRings.TasksOnce | kernel/arch/x86_64/sched/task.c:34-37 | a task is on at most one list, and on it once |
| TaskRings.TaskRings.Join | kernel/arch/x86_64/sched/task.c:262-268 | starting a list or joining its tail leaves the other lists as they were |
| TaskRings.TaskRings.TakeHead | kernel/arch/x86_64/sched/task.c:191-197 | taking the head off a list leaves the other lists as they were |
| SchedulerLinks.LinkWakeDue | kernel/arch/x86_64/sched/task.c:359-377 | the rotating scan on the lists: due tasks move to the ready list, the head comes round |
| SchedulerLinks.LinkStep | kernel/arch/x86_64/sched/task.c:75-388 | every enabled step from a state of the invariant takes four separate well-formed rings that carry the state to four that carry the next state |
| SchedulerLinks.LinkInit | kernel/arch/x86_64/sched/task.c:106-130 | the lists as init_scheduler leaves them |
| SchedulerClass.Scheduler.InitScheduler | kernel/arch/x86_64/sched/task.c:106-130 | boot state: idle runs, the cleaner is alone on the paused ring with tag READY, counters are 0 |
| SchedulerClass.Scheduler.CallSchedule | kernel/arch/x86_64/sched/task.c:177-211 | has exactly the effect of the schedule step |
| SchedulerClass.Scheduler.BlockTask | kernel/arch/x86_64/sched/task.c:235-272 | has exactly the effect of the block step, which tags the caller with its reason and gives way as SchedulerCalls.BlockGivesWay says |
| SchedulerClass.Scheduler.UnblockTask | kernel/arch/x86_64/sched/task.c:274-301 | moves the task to the ready tail exactly when it heads the sleeping or the paused ring, else changes nothing |
| SchedulerClass.Scheduler.CallLockStuff | kernel/arch/x86_64/sched/task.c:302-309 | raises both counters |
| SchedulerClass.Scheduler.CallUnlockStuff | kernel/arch/x86_64/sched/task.c:311-327 | lowers both counters and runs a pending switch when the outermost postponement ends |
| SchedulerClass.Scheduler.NanoSleepUntil | kernel/arch/x86_64/sched/task.c:329-346 | has exactly the effect of the sleep step |
| SchedulerClass.Scheduler.TerminateTask | kernel/arch/x86_64/sched/task.c:348-353 | has exactly the effect of the terminate step |
| SchedulerClass.Scheduler.CreateTask | kernel/arch/x86_64/sched/task.c:136-168 | appends a task with the next id to the ready ring, owing one unlock |
| SchedulerClass.Scheduler.ScanSleepers | kernel/arch/x86_64/sched/task.c:359-377 | the rotating loop ends and has moved exactly the due sleepers to the ready tail in ring order |
| SchedulerClass.Scheduler.TaskHookInTimerHandler | kernel/arch/x86_64/sched/task.c:356-388 | has exactly the effect of the tick step |
| SchedulerClass.Scheduler.KernelCleanWork | kernel/arch/x86_64/sched/task.c:75-98 | frees the tasks of the terminated ring, in order, and pauses |
| SchedulerInvariant.ScheduleKeeps | kernel/arch/x86_64/sched/task.c:177-211 | schedule keeps the invariant when the counter is 1, leaves a running task tagged RUNNING, and only sets the flag while switches are postponed |
| SchedulerInvariant.BlockKeeps | kernel/arch/x86_64/sched/task.c:235-272 | a blocking call keeps the invariant and the counters; while switches are postponed the caller stays current |
| SchedulerInvariant.UnlockStuffKeeps | kernel/arch/x86_64/sched/task.c:311-327 | the outermost unlock_stuff leaves no switch pending and a running task tagged RUNNING |
| SchedulerInvariant.WakeDueKeeps | kernel/arch/x86_64/sched/task.c:359-377 | the sleep scan keeps the invariant |
| SchedulerInvariant.DrainKeeps | kernel/arch/x86_64/sched/task.c:79-95 | the cleaner's loop keeps the invariant |
| SchedulerInvariant.StepKeeps | kernel/arch/x86_64/sched/task.c:136-388 | every enabled step keeps the invariant |
| SchedulerRuns.InvAlways | kernel/arch/x86_64/sched/task.c:106-388 | the invariant holds in every state of every run from boot |
| SchedulerRuns.ExactlyOnePlace | kernel/arch/x86_64/sched/task.c:106-301 | at any time of any run every live task is in exactly one of running, waiting for a lock, or one position of one of the four rings; a task tagged RUNNING is the current or the idle task; the current task is off RUNNING only while a postponed switch is pending |
| SchedulerRuns.SwitchAtDepthOne | kernel/arch/x86_64/sched/task.c:177-233 | whenever schedule may switch, the interrupt counter is 1 and the postpone counter 0, and the step ends with the one unlock the task switched to owes |
| SchedulerRuns.NoPointNoSwitch | kernel/arch/x86_64/sched/task.c:177-184 | in all other steps the current task stays |
| SchedulerRuns.NoSwitchWhilePostponed | kernel/arch/x86_64/sched/task.c:177-184 | while switches are postponed the current task never changes, except by the unlock_stuff that ends the postponement |
| SchedulerRuns.SwitchBalancedIff | kernel/arch/x86_64/sched/task.c:177-211 | a switch to another task keeps each task's lock debt right if and only if the counter is 1 |
| SchedulerRuns.BlockBalancedIff | kernel/arch/x86_64/sched/task.c:235-272 | hence a blocking call that switches keeps the books if and only if it started with no lock held |
| SchedulerCalls.BlockGivesWay | kernel/arch/x86_64/sched/task.c:235-272 | the caller is tagged with its reason; with no switch postponed the head of the ready ring runs next, or idle with an empty slice, else the caller runs on with the switch pending |
| SchedulerCalls.BlockJoins | kernel/arch/x86_64/sched/task.c:243-267 | the caller joins the tail of the ring of its reason and no other |
| SchedulerCalls.WaiterIsOut | kernel/arch/x86_64/sched/task.c:255-256 | a lock waiter is on none of the four rings |
| SchedulerCalls.WaitStarts | kernel/arch/x86_64/sched/task.c:235-272 | a task that blocks on a lock with no switch postponed waits and does not run |
| SchedulerCalls.PostponedWaitStarts | kernel/arch/x86_64/sched/task.c:311-327 | one that blocks on a lock inside lock_stuff does so once the outermost unlock_stuff ends |
| SchedulerCalls.WaiterNeverRuns | kernel/arch/x86_64/sched/task.c:136-388 | in a run, a task that waits for a lock never runs and is on no ring ever after |
| SchedulerCalls.PastSleepReturns | kernel/arch/x86_64/sched/task.c:329-336 | sleeping until a time that has passed changes nothing |
| SchedulerCalls.TerminateWakesCleaner | kernel/arch/x86_64/sched/task.c:348-353 | terminate_task readies a cleaner that heads the paused ring |
| SchedulerCalls.CleanerPauses | kernel/arch/x86_64/sched/task.c:75-98 | the cleaner's work ends with its caller paused and no terminated task left |
| SchedulerCalls.NewTaskIsLast | kernel/arch/x86_64/sched/task.c:136-168 | a new task is ready behind all others, owes one unlock, and has wake-up time 0 |
| SchedulerCalls.SliceIsExact | kernel/arch/x86_64/sched/task.c:378-385 | over ticks alone, with a task ready, the running task keeps the processor for all but the last of its remaining ticks, and then the head of the ready ring has it for a full slice of 200 |
| SchedulerCalls.QuietTick | kernel/arch/x86_64/sched/task.c:378-388 | a tick with nobody ready or due leaves the slice and the running task alone |
| SchedulerCalls.WokenRunsAtOnce | kernel/arch/x86_64/sched/task.c:356-388 | with an empty slice, as after a switch to idle, a task that a tick wakes is dispatched by that tick |
| SchedulerSleep.ScannedRotates | kernel/arch/x86_64/sched/task.c:359-377 | the scan leaves the sleepers that are not due in order, up to a rotation |
| SchedulerSleep.ScanMovesDue | kernel/arch/x86_64/sched/task.c:359-377 | exactly the due sleepers move to the ready ring, nobody is lost, and the old ready ring is a prefix of the new one |
| SchedulerSleep.ScanWakes | kernel/arch/x86_64/sched/task.c:364-369 | a due head is woken and the scan stands right behind it with a shorter ring |
| SchedulerSleep.ScanTurns | kernel/arch/x86_64/sched/task.c:371-374 | passing a late head brings the anchor back to the head exactly after a full round |
| SchedulerSleep.ScanEnds | kernel/arch/x86_64/sched/task.c:374 | a full round without a due sleeper is the state the tick promises |
| SchedulerSleep.SleepsUnlessRoused | kernel/arch/x86_64/sched/task.c:274-388 | in one step a sleeper stays asleep with its wake-up time, or is roused for one of the listed reasons, and both directions hold |
| SchedulerSleep.SleepStarts | kernel/arch/x86_64/sched/task.c:329-341 | a call to sleep puts the caller on the ring with its wake-up time |
| SchedulerSleep.NoSleeperOverdue | kernel/arch/x86_64/sched/task.c:356-377 | after a handled tick every remaining sleeper's time lies in the future |
| SchedulerSleep.NoEarlyWake | kernel/arch/x86_64/sched/task.c:329-377 | in a run, a task that nobody unblocks by hand leaves the sleeping ring only in a tick at or after its wake-up time |
| SchedulerFairness.QueueStep | kernel/arch/x86_64/sched/task.c:177-211 | one step moves a ready task up by exactly one place per effective schedule, and every handled tick uses up patience |
| SchedulerFairness.DispatchedInTurn | kernel/arch/x86_64/sched/task.c:177-211 | a task at index k that leaves the ready ring does so by the (k+1)-th dispatch, and is then running |
| SchedulerFairness.RunDispatchesInTurn | kernel/arch/x86_64/sched/task.c:177-211 | the same for every run from boot, whatever is created, blocked or woken meanwhile |
| SchedulerFairness.RoundRobinBound | kernel/arch/x86_64/sched/task.c:378-385 | a task at index k is dispatched within (k+1) * TIME_SLICE_LENGTH handled ticks |
| SchedulerTermination.GoneStays | kernel/arch/x86_64/sched/task.c:136-388 | no step dispatches, wakes or recreates a task that has ended |
| SchedulerTermination.TerminateEnds | kernel/arch/x86_64/sched/task.c:348-353 | terminate_task with no switch postponed ends its caller |
| SchedulerTermination.NeverAgain | kernel/arch/x86_64/sched/task.c:75-98 | in a run an ended task is never current, ready, paused or sleeping again |
| SchedulerTermination.DrainFreesTerminated | kernel/arch/x86_64/sched/task.c:79-95 | the drain frees exactly the terminated tasks, each once, never the current one or one on another ring |
| SchedulerTermination.TasksStep | kernel/arch/x86_64/sched/task.c:75-175 | only creation adds a task and only the cleaner's work removes tasks |
| SchedulerTermination.FreedOnce | kernel/arch/x86_64/sched/task.c:79-95 | a task that was freed has no record in any later state of the run |
| HeapLayout.MemoryChunkSlot | kernel/arch/x86_64/mm/malloc.c:43-50 | the halving loop computes the bin index |
| HeapLayout.SlotIsLog2 | kernel/arch/x86_64/mm/malloc.c:43-50 | the bin index is the binary logarithm, rounded down |
| HeapLayout.HigherBinIsLarger | kernel/arch/x86_64/mm/malloc.c:101-106 | a chunk of a higher bin is larger than anything that belongs in a lower one |
| HeapLayout.SlotFitsBins | kernel/arch/x86_64/mm/malloc.c:84-86 | sizes below 4 GiB have one of the 32 bins |
| HeapLayout.InsertedSizes | kernel/arch/x86_64/mm/malloc.c:119-122 | a split divides one chunk's bytes between two |
| HeapLayout.DropSizes | kernel/arch/x86_64/mm/malloc.c:247-259 | unlinking a chunk gives its bytes to the one before it and changes no other size |
| HeapInvariant.SplitPlace | kernel/arch/x86_64/mm/malloc.c:118-122 | a split remainder lies inside its chunk, aligned, and always holds a whole chunk header |
| HeapInvariant.AllocKeeps | kernel/arch/x86_64/mm/malloc.c:91-139 | every allocation that does not wrap into a wreck keeps the structure: the ring tiles the arena, every free chunk is exactly once in exactly the bin of its size and nothing else is in a bin, no two neighbours are both free |
| HeapInvariant.AllocKeepsIff | kernel/arch/x86_64/mm/malloc.c:91-139 | an allocation keeps the structure if and only if it is not the case that the rounded request is at least 2^64 - 24, is admitted by the free count and finds a bin, and either indexes the bins with -1 or has, after wrapping, a sum that allows the split |
| HeapInvariant.AbsorbNextKeeps | kernel/arch/x86_64/mm/malloc.c:247-252 | merging with a free chunk behind keeps the structure and leaves a used chunk behind the result |
| HeapInvariant.MergeIntoPrevKeeps | kernel/arch/x86_64/mm/malloc.c:254-259 | merging into a free chunk before keeps the structure, the grown chunk moving to the bin of its new size |
| HeapInvariant.FreeKeeps | kernel/arch/x86_64/mm/malloc.c:235-264 | every free keeps the structure |
| HeapAccounting.ExactConserves | kernel/arch/x86_64/mm/malloc.c:87-88 | exact counters add up to the arena |
| HeapAccounting.AllocExact | kernel/arch/x86_64/mm/malloc.c:130-136 | an allocation keeps each counter the exact sum over free chunks, over used chunks and over headers |
| HeapAccounting.AllocMeta | kernel/arch/x86_64/mm/malloc.c:130 | every allocation keeps mem_meta exact, whatever was freed before |
| HeapAccounting.FreeMeta | kernel/arch/x86_64/mm/malloc.c:247-259 | a free keeps mem_meta exact |
| HeapAccounting.FreeUsedSum | kernel/arch/x86_64/mm/malloc.c:244-264 | a free takes exactly the block's payload off the used bytes |
| HeapAccounting.FreeDrifts | kernel/arch/x86_64/mm/malloc.c:244-259 | one free leaves mem_used one header further short of the used bytes and mem_meta exact |
| HeapAccounting.FreeCounts | kernel/arch/x86_64/mm/malloc.c:220-264 | how many bytes a free makes available and by how much it lowers mem_free instead |
| HeapAccounting.FreeMoves | kernel/arch/x86_64/mm/malloc.c:247-264 | the same in sizes of the freed chunk and its neighbours |
| HeapAccounting.FreeNeverExact | kernel/arch/x86_64/mm/malloc.c:220-264 | from an exact mem_free no free leaves it exact |
| HeapRuns.InitOk | kernel/arch/x86_64/mm/malloc.c:58-89 | initialisation establishes the structure and exact counters |
| HeapBlocks.RoundedCovers | kernel/arch/x86_64/mm/malloc.c:95-97 | rounding up covers the request if and only if it is at most 2^64 - 4 |
| HeapServing.RoundedLeast | kernel/arch/x86_64/mm/malloc.c:95-97 | such a request is rounded to the next multiple of 4, and to 16 at least |
| HeapServing.ServedIff | kernel/arch/x86_64/mm/malloc.c:99-108 | a request that does not wrap is served if and only if the free count admits it and some free chunk is of its size class or higher, and by a chunk of the lowest such class |
| HeapServing.LargeChunkServes | kernel/arch/x86_64/mm/malloc.c:99-108 | a free chunk that holds the rounded request with its header is enough |
| HeapServing.FirstRequestServed | kernel/arch/x86_64/mm/malloc.c:150-171 | the pages kmalloc allocates for the first request always serve it, with room to clear it |
| HeapServing.FirstIsServed | kernel/arch/x86_64/mm/malloc.c:108-113 | of the chunks of one bin the first is handed out |
| HeapServing.PushedLast | kernel/arch/x86_64/mm/malloc.c:223-233 | a chunk put in a bin stands behind all that are there |
| HeapServing.FirstInFirstOut | kernel/arch/x86_64/mm/malloc.c:91-139 | over any allocations, of two chunks of one bin the later is not handed out before the earlier |
| HeapServing.DeleteTurns | kernel/arch/x86_64/mm/malloc.c:208-221 | a chunk taken out for merging turns its bin: the order of two others is kept if and only if it did not stand between them |
| HeapBlocks.AllocShape | kernel/arch/x86_64/mm/malloc.c:108-138 | a served allocation that does not wreck the heap uses one formerly free chunk, split where it can be |
| HeapBlocks.BlockFitsIff | kernel/arch/x86_64/mm/malloc.c:101-118 | the block of any served request holds the rounded request if and only if the request does not wrap with its header and came from a higher bin or the head of its own bin is big enough |
| HeapBlocks.ClearsInsideIff | kernel/arch/x86_64/mm/malloc.c:101-203 | clearing the requested size stays inside the block and the arena if and only if rounding covers the request and the block fits it |
| HeapExamples.BlockTooSmall | kernel/arch/x86_64/mm/malloc.c:101-118 | in the heap reached by that run a request for 100 bytes gets a block of 80, and clearing it runs into the live block behind |
| HeapExamples.ExampleReached | kernel/arch/x86_64/mm/malloc.c:91-283 | the heap after allocating 80 and 16 bytes and freeing the first block, each call allowed |
| HeapExamples.WreckReached | kernel/arch/x86_64/mm/malloc.c:91-283 | the heap after allocating 16 bytes twice, freeing the second block and allocating 16 again, each call allowed |
| HeapExamples.RequestWrecks | kernel/arch/x86_64/mm/malloc.c:95-122 | there a request for 2^64 - 20 bytes is served and breaks the structure |
| HeapBlocks.FreeUndoesAlloc | kernel/arch/x86_64/mm/malloc.c:91-264 | freeing a block just handed out restores the chunks, their flags and the contents of every bin |
| HeapBlocks.AllocLive | kernel/arch/x86_64/mm/malloc.c:134-138 | an allocation makes exactly its own block live, which was not live before |
| HeapBlocks.FreeLive | kernel/arch/x86_64/mm/malloc.c:235-264 | a free ends exactly its own block |
| HeapBlocks.BlocksApart | kernel/arch/x86_64/mm/malloc.c:118-138 | a live block's payload ends before the next live block's header |
| HeapBlocks.ReleaseExact | kernel/arch/x86_64/mm/malloc.c:266-281 | the release scan finds the pages empty if and only if no block is live, and then exactly one chunk lies between the sentinels |
| HeapRuns.RoomyIff | kernel/arch/x86_64/mm/malloc.c:202-203 | the requests the theorems about runs allow are exactly those whose clearing is safe |
| HeapRuns.HeapSafety | kernel/arch/x86_64/mm/malloc.c:58-283 | over every run of kmalloc and kfree from initialisation until the pages are given back, in which clients free what they hold and ask for what can be cleared: the structure holds, held blocks are disjoint, inside the arena and as big as asked, and the pages are given back exactly when nothing is held |
| HeapRuns.BlockStays | kernel/arch/x86_64/mm/malloc.c:139-283 | a held block keeps its place, its size and its payload over any such run in which it is not freed |
| HeapRuns.CountersConserved | kernel/arch/x86_64/mm/malloc.c:87-136 | over initialisation and any requests of up to 2^64 - 4 bytes nothing is cleared outside its block, and the three counters are exact and add up to the arena's bytes |
| HeapRuns.CountersDrift | kernel/arch/x86_64/mm/malloc.c:58-264 | over every such run, frees included, mem_meta is exact and mem_used plus 24 for each free so far, modulo 2^64, is the sum of the used payloads |
| KernelHeap.PageTag.KmemoryPageInit | kernel/arch/x86_64/mm/malloc.c:58-89 | builds exactly the first heap of the specification |
| KernelHeap.PageTag.KmallocOnCurPage | kernel/arch/x86_64/mm/malloc.c:91-139 | has exactly the effect of the allocation function, wrapped sums and index -1 included, and returns its block; when that is one, and from which chunk, is HeapServing.ServedIff |
| KernelHeap.PageTag.RemoveFree | kernel/arch/x86_64/mm/malloc.c:208-221 | unlinks a chunk from the bin of its size, the head moving on, and lowers mem_free by its payload |
| KernelHeap.PageTag.PushFree | kernel/arch/x86_64/mm/malloc.c:223-233 | appends a chunk to the bin of its size |
| KernelHeap.PageTag.Kfree | kernel/arch/x86_64/mm/malloc.c:235-283 | has exactly the effect of the freeing function, and its scan reports whether any chunk is used |
| Fat12Spec.ClustersTile | kernel/arch/x86_64/fs/fat.c:53-55 | below the 32-bit limit data clusters tile the data area from its start, one after the other |
| Fat12Spec.UnpackPacked | kernel/arch/x86_64/fs/fat.c:64-69 | two entries packed in three bytes are read back |
| Fat12Spec.PackUnpacked | kernel/arch/x86_64/fs/fat.c:64-69 | and packing what was read gives the three bytes back |
| Fat12Spec.PairIsLittleEndian | kernel/arch/x86_64/fs/fat.c:64-69 | three packed bytes are one little-endian number, the even entry in its low 12 bits |
| Fat12Spec.TableHoldsPair | kernel/arch/x86_64/fs/fat.c:57-72 | where a table holds a packed pair, its halves are the entries of the pair's clusters |
| Fat12Spec.ReadEntryDecodes | kernel/arch/x86_64/fs/fat.c:57-72 | an entry within one sector is decoded as the packed table says, and its read fails only with that sector |
| Fat12Spec.DecodesIff | kernel/arch/x86_64/fs/fat.c:57-72 | on a readable table the entry is right whatever follows the sector buffer if and only if it does not straddle two sectors |
| Fat12Spec.FirstStraddler | kernel/arch/x86_64/fs/fat.c:58-60 | cluster 341 is the first whose entry straddles |
| Fat12Spec.CycleRepeats | kernel/arch/x86_64/fs/fat.c:241-255 | a chain that comes back to a data cluster goes round for ever |
| Fat12Spec.FileIsWalked | kernel/arch/x86_64/fs/fat.c:241-255 | the clusters of a file laid out on the disk are walked one by one, and its end is found |
| Fat12.ReadFatEntry | kernel/arch/x86_64/fs/fat.c:57-72 | returns the decoded entry, or failure exactly when the sector cannot be read |
| Fat12.ReadFile | kernel/arch/x86_64/fs/fat.c:238-259 | a file laid out on the disk, over data clusters 2 to 0xFF7 on readable sectors with no straddling entry, is read as its sectors lie there, cut to the size and the room; one without a data cluster is empty. For any chain, cyclic ones included, it ends; succeeds if and only if every sector and table entry it comes to can be read; and outputs the concatenated chain sectors cut to the size, the room and the end of the chain, the rest of the buffer untouched |
| PrintfSpec.DigitsParse | libc/stdio/printf.c:13-24 | the digits of a number read back as the number, in every base from 2 to 32 |
| PrintfSpec.DigitsClean | libc/stdio/printf.c:13-24 | no leading zero, and every character is a digit of the base |
| PrintfSpec.DigitsLength | libc/stdio/printf.c:13-24 | the number of digits is the least that can hold the value |
| PrintfSpec.NumbersFit | libc/stdio/printf.c:125-145 | 64-bit numbers in decimal and hexadecimal and signed 32-bit numbers fit the 32-byte buffer |
| PrintfSpec.SignedConversionParses | libc/stdio/printf.c:125-134 | what %d prints reads back as the argument truncated to 32 bits (PrintfSpec.TruncatedTo32) and fits the buffer |
| PrintfSpec.UnsignedConversionParses | libc/stdio/printf.c:135-145 | what %u and %x print reads back as the argument |
| PrintfSpec.TruncatedTo32 | libc/stdio/printf.c:130 | the int a word is truncated to lies in the 32-bit range and agrees with the word modulo 2^32 |
| PrintfSpec.IntPrintsItself | libc/stdio/printf.c:125-134 | %d prints every int as a numeral of its value, with a minus sign exactly when it is negative |
| PrintfSpec.DigitsAreAscii | libc/stdio/printf.c:16-22 | the digits are 0 to 9 and a to v |
| PrintfSpec.CharPrintsItself | libc/stdio/printf.c:103-113 | %c prints the character of a code, whatever the upper bits of its word |
| PrintfSpec.ConversionExamples | libc/stdio/printf.c:125-145 | 450 and -450 in full |
| PrintfSpec.ConversionAlone | libc/stdio/printf.c:103-145 | a conversion alone prints its argument's text |
| PrintfSpec.RenderConcat | libc/stdio/printf.c:80-160 | a complete format prints the same whatever follows it, and what follows prints as it would alone |
| PrintfSpec.UnknownEnds | libc/stdio/printf.c:146-157 | an unknown conversion, or a percent sign at the end, prints itself and all that follows it |
| PrintfSpec.PlainStretch | libc/stdio/printf.c:85-99 | a stretch without percent signs prints itself |
| Printf.StoreDigits | libc/stdio/printf.c:13-24 | the first loop stores the digits lowest first and touches nothing else |
| Printf.ReverseRange | libc/stdio/printf.c:27-32 | the swapping loop reverses the range in place and touches nothing else |
| Printf.ItoaInternal | libc/stdio/printf.c:9-34 | the buffer holds the number's digits, most significant first, and a NUL; the rest is unchanged |
| Printf.ItoaSigned | libc/stdio/printf.c:36-55 | the same with a sign, down to the smallest 64-bit number; a base out of range stores nothing |
| Printf.ItoaUnsigned | libc/stdio/printf.c:57-70 | the same for unsigned numbers |
| Printf.RunRenders | libc/stdio/printf.c:85-99 | a run up to the next percent sign is printed as it stands, from the second of a doubled percent sign on |
| Printf.MaxRemMeans | libc/stdio/printf.c:83 | how many characters may still be counted, before and after the count has wrapped |
| Printf.VprintkFunc | libc/stdio/printf.c:80-160 | prints exactly the format's rendering and returns its length below 2 GiB; beyond that it prints a prefix and returns -1, or all of it and the wrapped length |

## Left out

- semaphore.c: `release_semaphore` hands the waiter to `unblock_task`, which looks only at the sleeping and paused heads, so no wake-up holds; waiting for a lock is a bare state, which nothing modelled ends (SchedulerCalls.WaiterNeverRuns).
- `do_ummap_user`, `mm_clean` and `mm_clean_pgd`: their kernel-side pointers are tested after an offset was added and are never null.
- PageCopy.MmDupPgd: nothing is promised of the frames when memory runs out; the source then cleans half-copied tables that still hold source pointers.
- PageCopy.DupTable: the four nested loops are one loop that calls itself for the level below.
- `free_pages`: it computes its bitmap index in units of 32768 bytes where allocation uses 4096, so it is not an inverse; only runs of allocations are covered.
- DemandPaging.DoMmap: out of frames is reported with nothing promised of the tables (the source halts), and an address outside every area is reported (the source panics).
- ELF bytes beyond `p_filesz`, areas that start inside a page, and the stack area's file bytes, which mean nothing.
- The lower-half walk of `get_physaddr`, TLB and cr3 effects, register saving and ring switches, and all assembly beyond the atomic switch.
- HeapRuns.HeapSafety: reuse of a page tag after its pages were given back, where stale bins survive, and the search over page tags in `kmalloc`; a request that the current page cannot serve changes nothing here.
- HeapInvariant.AllocKeepsIff: after a request that wrecks the heap, the chunks' addresses are given as if headers that overlap did not overwrite each other, and the word before the bins is read as the tag's `last` pointer, which the structure's layout puts there.
- HeapBlocks.ClearsInsideIff: what the bytes hold once clearing has run into another chunk.
- HeapBlocks.FreeUndoesAlloc: the order of chunks within a bin is not restored, only its contents.
- KernelHeap.PageTag.Kfree: rings are sequences; that a free chunk's ring links lie in its own payload is not modelled.
- SchedulerClass.Scheduler.ScanSleepers: rings are sequences here; their links are those of SchedulerLinks.LinkWakeDue, whose loop makes one move of the scan at a time.
- FrameRegion.ShrinkPages: on a starved layout the loop has no result; StarvedNeverEnds says so.
- FrameRegion.KallocFrameInit: likewise, on a starved layout it never gets past that loop.
- SchedulerClass.Scheduler.CreateTask: failure of its memory allocations, which changes nothing in the scheduler, and the balanced locking inside them.
- SchedulerClass.Scheduler.KernelCleanWork: the release of a task's pages and memory descriptor; that the cleaner runs again is not claimed, since it has no outer loop and may not head its ring.
- SchedulerClass.Scheduler.BlockTask: reasons READY and RUNNING, which only overwrite the tag.
- Overflow of task ids, of the nesting counters and of the timer count.
- Fat12.ReadFile: directory and long-name search before it (the entry's size and first cluster are parameters), and clusters of several sectors, of which the source reads only the first.
- Printf.VprintkFunc: characters are not limited to 8 bits, and a string ends where its sequence ends.
- Device I/O: floppy, PIC, PIT, keyboard, screen, NMI and multiboot parsing.
- The i386 tree: older variants of the same code.
- System call stubs, user programs and the memory and string routines, which would add only easy members.
