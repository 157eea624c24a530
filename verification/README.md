# Verified model of the Unbound OS kernel core

This project models the parts of the Unbound OS kernel and its stage 2 loader that change shared state, and
proves what every run of them keeps. Code that updates memory step by step is modelled as it is written, as
methods over arrays and fields; each such method is proved equal to a function of the old state, and the
properties below are proved about those functions, for all inputs and all runs.

| area | files |
|---|---|
| machine words and bit masks | `Words`, `PageEntries`, `Handles` |
| physical frames | `Frames` (two sets of frames), `FrameAllocator` (the bitmaps), `BootMemory` (what is free after boot) |
| page tables | `PageTree` (tables reached by paths), `Paging` (map, unmap, translate), `Descend`, `MappingProofs`, `PageTables` (the code in place) |
| address spaces and heap | `AddressSpaces`, `KernelHeap`, `FrameDemand` (when a range can be mapped), `Isolation`, `MemoryRuns` (any number of address spaces over one allocator) |
| scheduler | `RunQueues`, `RoundRobin`, `Scheduling`, `SchedulerObject`, `SchedulerRuns`, `Starvation`, `PreemptiveRuns` |
| kernel objects | `Objects` |
| IPC | `Ipc` (one call at a time), `IpcObject` (ring buffers in place), `IpcConcurrency` (threads and spin locks) |
| loader | `ElfLoader`, `SmallestKernel` (a concrete image), `BootChain` (loader, then allocator) |

The main results:

* The four-level tree of tables in physical frames refines, over every run of any number of address spaces, a
  finite map from virtual page to frame and rights. Tables are never shared, never huge and always held in
  frames that are handed out; a page's effective rights are those its own mapping asked for, although later
  and failing calls widen shared entries in place; operations on one space change no translation of another.
* A failed heap initialisation leaves every translation as it was, and no frame in use beyond the tables it
  linked, of which there are at most two plus one per 512 pages. Whether it succeeds, and whether an identity
  mapping of a range succeeds, is decided beforehand: free frames and missing tables fall together at every
  step, so the calls succeed if and only if the frames suffice and no page of the range is mapped.
* Every queued task comes to slot 0 and is selected there within 64 decisions, hence within 320 timer
  interrupts, whatever switches are aborted on the way, its own included, and 64 scheduling rounds give each task exactly as many turns as the slots up to its own from the previous task.
* Any interleaving of any number of threads through the IPC manager's two lock levels equals a sequential run
  of the calls the threads began, in the order the manager lock is released, without deadlock, and delivers each endpoint lifetime's messages
  exactly in order, although neither opening nor closing an endpoint resets its queue. Every reply is a function
  of the history of openings, closings, sends and receives alone.
* Over every history, generations and reference counts are functions of the history, and a stale handle stays
  invalid until its slot has been cleared exactly 2^32 - 1 times.
* The loader, running in the memory it fills, reaches the kernel with every segment in place, and no frame that
  the allocator ever hands out holds a byte of it.

How the model reads the source:

* Words are naturals below 2^64 with the bitwise operators defined bit by bit; wrap-around is written out.
* Physical memory maps an address to a 512-entry table (paging) or to a byte (loader); what was never written
  reads as zero. Loader accesses outside the mapped 2 MiB fault, its calls push return addresses, and a store
  into its own image ends what the model says of the run. Stores that the processor makes through the mappings are not part of the model.
* `align_up` is modelled with the wrap-around of a build without overflow checks; in a build with them the call
  aborts where the model wraps. `BootMemory` says exactly when this matters.
* Interrupt frames are read from a memory of words that is a parameter of each timer interrupt.
* Each critical section under one lock is one atomic step, except in `IpcConcurrency`, where acquiring,
  checking, working, clearing and releasing are separate steps of interleaved threads. Steps are sequentially
  consistent.

Where the source disagrees with its own comments, the model follows the code: `rotate` is described as simple
round-robin but shifts holes too, so tasks do not alternate strictly (`SchedulerRuns.FullRound` gives the exact
shares); the loader's comment places p_flags and p_align where the System V ABI does not, but neither is read
(`ElfLoader.ProgramHeaderRoundTrip`); the fixed ranges that `initialize` reserves after the first MiB all lie inside it and change nothing
(`FrameAllocator.ReserveBootRanges`).

## Model

| member | source | states |
|---|---|---|
| PageEntries.IndexesAre | kernel/src/memory/page_table.rs:36-43 | the shift-and-mask split yields the four base-512 digits of the page number, each below 512 |
| PageEntries.CanonicalHalves | kernel/src/memory/page_table.rs:50-59 | the test accepts exactly the lower and the upper 128 TiB |
| PageEntries.IndexesDetermineAddress | kernel/src/memory/page_table.rs:36-59 | canonical addresses with equal indexes and equal page offset are equal |
| PageEntries.MakeEntryFields | kernel/src/memory/page_table.rs:67-81 | for every address: the entry is present and not huge, has exactly the two rights asked for, and holds bits 12 to 51 of the address, which is all of an aligned address in range |
| PageEntries.WidenFields | kernel/src/memory/page_table.rs:276-291 | widening adds rights and keeps presence, hugeness and address |
| Frames.AllocateTakesLowest | kernel/src/memory/frame_allocator.rs:135-147 | allocation fails exactly when nothing is free; otherwise the lowest free frame becomes used and owned, and one fewer is free |
| Frames.ReleaseReturnsOne | kernel/src/memory/frame_allocator.rs:149-170 | freeing gives back exactly the frame at a page-aligned address that is handed out; unaligned, foreign, reserved and double frees do nothing |
| Frames.RunKeepsLiveFrames | kernel/src/memory/frame_allocator.rs:135-170 | over every run the owned frames are those the log says are live, reserved frames stay reserved, and no live address is handed out again |
| FrameAllocator.BitsAfterSet | kernel/src/memory/frame_allocator.rs:203-207 | or-ing the mask adds exactly one frame to the bitmap's set |
| FrameAllocator.BitsAfterClear | kernel/src/memory/frame_allocator.rs:209-213 | masking out the bit removes exactly one frame from the bitmap's set |
| FrameAllocator.TestBit | kernel/src/memory/frame_allocator.rs:194-201 | the byte-and-mask test is membership in the bitmap's set |
| FrameAllocator.SetBit | kernel/src/memory/frame_allocator.rs:203-207 | the in-place update adds exactly one frame |
| FrameAllocator.ClearBit | kernel/src/memory/frame_allocator.rs:209-213 | the in-place update removes exactly one frame |
| FrameAllocator.FrameAllocator.AllocateFrame | kernel/src/memory/frame_allocator.rs:135-147 | the bitmap scan computes the set-level allocation, and the free counter stays the number of clear bits |
| FrameAllocator.FrameAllocator.FreeFrame | kernel/src/memory/frame_allocator.rs:149-170 | the bitmap code computes the set-level release, and the free counter stays the number of clear bits |
| FrameAllocator.FrameAllocator.Reset | kernel/src/memory/frame_allocator.rs:36-52 | every managed frame is used and none is handed out |
| FrameAllocator.FrameAllocator.ReserveRange | kernel/src/memory/frame_allocator.rs:176-192 | exactly the frames from the rounded-down start to the rounded-up end become used, the counter never underflows |
| FrameAllocator.FrameAllocator.ReleaseEntry | kernel/src/memory/frame_allocator.rs:54-84 | exactly the managed frames inside the rounded region of a usable entry become free |
| FrameAllocator.FrameAllocator.ReserveBootRanges | kernel/src/memory/frame_allocator.rs:86-124 | the six fixed ranges together reserve the first MiB and nothing else |
| FrameAllocator.FrameAllocator.Initialize | kernel/src/memory/frame_allocator.rs:30-133 | for every memory map, in any order and with overlaps, the free frames are exactly `InitialFree` and nothing is handed out |
| BootMemory.InitialFreeIsIntended | kernel/src/memory/frame_allocator.rs:30-133 | for every input: a frame is free exactly when it lies below 4 GiB, at or above 1 MiB, wholly inside a usable entry and clear of the kernel, except that a wrapping entry frees everything and a wrapping kernel end reserves nothing |
| BootMemory.MapHandledAsIntended | kernel/src/memory/frame_allocator.rs:54-84 | a memory map is handled so for every kernel extent if and only if no usable entry starts in the last partial frame of the address space, or all memory is usable anyway |
| BootMemory.KernelHandledAsIntended | kernel/src/memory/frame_allocator.rs:126-132 | a kernel extent is kept reserved for every memory map if and only if its end does not wrap or it starts at 4 GiB or above |
| BootMemory.WrappingExample | kernel/src/memory/frame_allocator.rs:237-243 | a memory map of one 50-byte entry near 2^64 after which frames are free that no entry covers |
| PageTree.WriteChangesOneEntry | kernel/src/memory/page_table.rs:276-291 | in an unshared tree, writing an entry that keeps its link is seen through exactly one path and index |
| PageTree.LinkChangesOneEntry | kernel/src/memory/page_table.rs:294-302 | linking a zeroed fresh frame is seen through exactly one path and index and adds exactly one table |
| Descend.DescendStep | kernel/src/memory/page_table.rs:267-303 | one level fails only for want of a frame and then changes nothing; otherwise the child is linked, the entry gains the requested rights and keeps its own, and the tree stays unshared |
| Descend.TreeOkAfterWrite | kernel/src/memory/page_table.rs:276-291 | an in-place entry update that keeps link and size bit keeps the tree unshared, owned and free of huge entries |
| Descend.TreeOkAfterLink | kernel/src/memory/page_table.rs:294-302 | linking a freshly allocated zeroed frame keeps the tree unshared, owned and free of huge entries |
| MappingProofs.WalkSpec | kernel/src/memory/page_table.rs:112-124 | the walk fails exactly when fewer frames are free than tables are missing; it changes no last-level entry and grants the requested rights all the way |
| MappingProofs.ExtendsKeepsRights | kernel/src/memory/page_table.rs:112-124 | a walk that widens or links entries takes no effective right from any page and grants none |
| MappingProofs.PagesAfterWrite | kernel/src/memory/page_table.rs:126-132 | one changed last-level entry is exactly one changed page of the abstract map |
| MappingProofs.MapSpec | kernel/src/memory/page_table.rs:88-133 | the answer, error by error, is decided by the two addresses in plain arithmetic, the page map and the free frames; success adds exactly one page with the requested rights, failure changes no page, and every frame taken is linked into the tree |
| MappingProofs.ArgumentsMean | kernel/src/memory/page_table.rs:96-110 | which arguments are refused, with which error, in which order |
| MappingProofs.MapSucceedsIff | kernel/src/memory/page_table.rs:88-133 | map succeeds if and only if the virtual address is canonical, both are page-aligned, the physical one is below 2^52, the page is not mapped and the missing tables can be allocated |
| MappingProofs.UnmapSpec | kernel/src/memory/page_table.rs:201-261 | the answer is the first missing table, a missing page, or the frame of a mapped page; that page alone is removed and all tables stay; the huge-page error never occurs |
| Paging.TranslateIsLookup | kernel/src/memory/page_table.rs:138-194 | at every 64-bit address translate equals the lookup in the abstract page map, so its huge-page branches are never taken |
| AddressSpaces.NewSpaceSpec | kernel/src/memory/address_space.rs:13-21 | creation fails exactly when no frame is free; a new space satisfies the invariant and maps nothing |
| AddressSpaces.NewSpaceTakesOne | kernel/src/memory/address_space.rs:13-21 | creation takes exactly the lowest free frame and writes no other table |
| AddressSpaces.IdentityMapSpec | kernel/src/memory/address_space.rs:30-60 | success maps exactly the pages of the range to themselves; failure leaves exactly a mapped page-aligned prefix that misses at least one page; the error names the first fault of the arguments or why the next page cannot be mapped |
| AddressSpaces.IdentityTranslations | kernel/src/memory/address_space.rs:30-60 | after the call every address of that prefix translates to itself and every other address as before |
| AddressSpaces.NextPage | kernel/src/memory/address_space.rs:53-57 | the loop's address never passes the end and so never overflows |
| KernelHeap.RollbackSpec | kernel/src/memory/heap.rs:106-119 | rollback unmaps and frees exactly the pages and frames of the failed attempt |
| KernelHeap.ReleaseKeepsSpace | kernel/src/memory/heap.rs:89-95 | giving back a frame that holds no table keeps the tree, the owned tables and the rights |
| KernelHeap.HeapLoopStep | kernel/src/memory/heap.rs:65-97 | one page either extends the backed prefix or, once its frame is given back, leaves it as it was; the frame is never a table |
| KernelHeap.HeapLoopSpec | kernel/src/memory/heap.rs:65-97 | the loop ends with every page backed by its own frame, or with none of the attempt's pages left |
| KernelHeap.NewTablesBound | kernel/src/memory/heap.rs:65-97 | an attempt links at most two tables plus one per 512 pages |
| KernelHeap.InitializeSpec | kernel/src/memory/heap.rs:40-103 | failure for any reason restores every page and leaves used only the old frames and the newly linked tables; bad arguments change nothing at all; success maps each heap page writable and supervisor-only to a frame of its own |
| FrameDemand.SlackConserved | kernel/src/memory/page_table.rs:88-133 | mapping any page of a set, successfully or not, lowers the free frames and the tables still missing on the set's walks by the same amount |
| FrameDemand.MissingIsDemand | kernel/src/memory/page_table.rs:112-124 | the frames a walk asks for are as many as the paths of the walk that lead nowhere |
| FrameDemand.MapWithSlack | kernel/src/memory/page_table.rs:88-133 | with good addresses a page of the set fails to map only as already mapped or because frames do not suffice for the set |
| FrameDemand.IdentityMapSucceedsIff | kernel/src/memory/address_space.rs:30-60 | success if and only if the range is aligned, not empty and in the lower half, none of its pages is mapped, and a frame is free for every missing table |
| FrameDemand.InitializeSucceedsIff | kernel/src/memory/heap.rs:40-103 | success if and only if not initialised before, the count is positive and fits, none of the pages is mapped, and a frame is free for every page and every missing table |
| FrameDemand.InitializeFailsWith | kernel/src/memory/heap.rs:40-103 | which error a failing call gives: the first fault of the arguments, or the first page that cannot be backed and whether its frame, the page or its tables are to blame |
| Isolation.OtherSpaceKept | kernel/src/memory/page_table.rs:88-133 | a write confined to one tree keeps the invariant, the pages and the tables of a space with other tables |
| Isolation.MapConfined | kernel/src/memory/page_table.rs:88-133 | map writes only tables of its own tree and unlinks none |
| Isolation.UnmapConfined | kernel/src/memory/page_table.rs:201-261 | unmap writes only tables of its own tree and unlinks none |
| Isolation.IdentityLoopConfined | kernel/src/memory/address_space.rs:30-60 | identity mapping writes only tables of its own tree and unlinks none |
| Isolation.HeapLoopConfined | kernel/src/memory/heap.rs:65-119 | heap initialisation, rolled back or not, writes only tables of its own tree and unlinks none |
| MemoryRuns.StepRefines | kernel/src/memory/page_table.rs:88-303 | every operation on any of the address spaces keeps the invariant and does to all page maps exactly what its answer says; a failed identity map adds a page-aligned proper prefix of its range |
| MemoryRuns.RunKeepsInv | kernel/src/memory/page_table.rs:88-303 | every run keeps the invariant and is simulated step by step by the abstract page maps |
| MemoryRuns.RunRefinesPageMaps | kernel/src/memory/page_table.rs:88-303 | over every run from no address spaces, translate equals the abstract page maps everywhere, effective rights equal the requested ones, and every tree is unshared, owned and without huge entries |
| PageTables.GetOrCreateTable | kernel/src/memory/page_table.rs:267-303 | the in-place code computes the one-level step |
| PageTables.Map | kernel/src/memory/page_table.rs:88-133 | the in-place code computes the map step, and from a valid space has the outcome and the effect of `MapSpec` |
| PageTables.Unmap | kernel/src/memory/page_table.rs:201-261 | the in-place code computes the unmap step |
| PageTables.NewAddressSpace | kernel/src/memory/address_space.rs:13-21 | the in-place code computes the creation step |
| PageTables.IdentityMap | kernel/src/memory/address_space.rs:30-60 | the loop computes the identity-map step |
| PageTables.KernelHeapObject.Rollback | kernel/src/memory/heap.rs:106-119 | the loop computes the rollback and resets the heap's fields |
| PageTables.KernelHeapObject.Initialize | kernel/src/memory/heap.rs:40-103 | the loops compute the initialisation step on memory, allocator and heap fields |
| RunQueues.PushSpec | kernel/src/scheduler/queue.rs:43-63 | a push fails exactly for a queued id or a full queue and otherwise fills the lowest empty slot and nothing else |
| RunQueues.PushesFillInOrder | kernel/src/scheduler/queue.rs:43-63 | distinct ids pushed onto an empty queue fill slots 0 upwards in order, so the first one pushed is the head |
| RunQueues.RemoveSpec | kernel/src/scheduler/queue.rs:69-79 | a removal succeeds exactly for a queued id and makes its slot a hole; every other slot stays |
| RunQueues.RotateSpec | kernel/src/scheduler/queue.rs:130-142 | with two or more ids slot k gets what slot k + 1 modulo 64 held, otherwise nothing moves; ids stay distinct |
| RunQueues.FirstSpec | kernel/src/scheduler/queue.rs:111-119 | there is a first task exactly when an id is queued, and it is the one in the lowest occupied slot |
| RunQueues.HoleIffFewer | kernel/src/scheduler/queue.rs:43-63 | the count is below the capacity exactly when the scan for an empty slot finds one |
| RunQueues.RunQueue.Push | kernel/src/scheduler/queue.rs:43-63 | the two scans compute the push |
| RunQueues.RunQueue.Remove | kernel/src/scheduler/queue.rs:69-79 | the scan computes the removal |
| RunQueues.RunQueue.Contains | kernel/src/scheduler/queue.rs:85-93 | membership in the set of queued ids |
| RunQueues.RunQueue.FirstTask | kernel/src/scheduler/queue.rs:111-119 | the first occupied slot |
| RunQueues.RunQueue.Rotate | kernel/src/scheduler/queue.rs:130-142 | the shifting loop moves every slot, holes included, one place forward when at least two ids are queued |
| RoundRobin.KeepsOrAdvances | kernel/src/scheduler/queue.rs:130-142 | one rotation keeps the head task or advances to its cyclic successor |
| RoundRobin.FullTurn | kernel/src/scheduler/queue.rs:130-142 | 64 rotations restore every slot |
| RoundRobin.ReachesFront | kernel/src/scheduler/queue.rs:111-142 | the task in slot p is at the head after a number of rotations given by p |
| RoundRobin.ExactShare | kernel/src/scheduler/queue.rs:111-142 | out of 64 rotations a task is at the head exactly as often as the cyclic distance from the previous occupied slot |
| SchedulerRuns.FullRound | kernel/src/scheduler/mod.rs:199-209 | with two or more tasks, 64 calls of schedule restore the queue and make each task current exactly that often |
| Scheduling.CreateTaskSpec | kernel/src/scheduler/mod.rs:83-107 | a task is accepted exactly when its id is new and fewer than eight exist, and is then queued in the lowest empty slot; the code after the loop is never reached |
| Scheduling.RemoveTaskSpec | kernel/src/scheduler/mod.rs:223-247 | the task leaves queue and table, all other tasks and slots stay as they are, and a removed current task is replaced by the head of the queue, if any |
| Scheduling.ScheduleSpec | kernel/src/scheduler/mod.rs:199-209 | the queue rotates and its head becomes current; there is none exactly when there are no tasks |
| Scheduling.TickSpec | kernel/src/scheduler/mod.rs:167-177 | one tick is charged to the current task alone and to the scheduler, each modulo 2^64 |
| Scheduling.ValidFrameMeans | kernel/src/scheduler/mod.rs:312-346 | a frame is accepted, on every stack, exactly when its pointer is not zero, vector is 0x20, code segment 0x08, bit 1 of RFLAGS set and the instruction in the second MiB, whatever the saved registers |
| Scheduling.TimerSpec | kernel/src/scheduler/mod.rs:405-581 | the whole interrupt: nothing without a current task; otherwise one tick charged, the frame saved, and after the fifth tick the rotated queue's head switched to exactly when it is another task with such a frame, every field of every task given |
| Scheduling.TimerKeepsValid | kernel/src/scheduler/mod.rs:405-581 | an interrupt keeps the invariant and the membership, and never loses the current task |
| Scheduling.AfterTickSpec | kernel/src/scheduler/mod.rs:411-435 | the interrupted task alone has its frame saved, is Running, and is charged one tick |
| Scheduling.DecideSpec | kernel/src/scheduler/mod.rs:451-580 | the switch happens exactly when the selected task is another one whose saved words form a kernel frame; states, slices, current task and returned stack pointer follow, everyone else unchanged |
| SchedulerRuns.RunsStayConsistent | kernel/src/scheduler/mod.rs:83-247 | over every run queue and table hold the same distinct ids, both counts are their number, and the current task is one of them |
| SchedulerRuns.StepKeepsValid | kernel/src/scheduler/mod.rs:83-247 | every operation keeps queue, table, counts and current task consistent |
| SchedulerRuns.SetCurrentSpec | kernel/src/scheduler/mod.rs:145-153 | succeeds exactly for an existing task and changes nothing else |
| SchedulerRuns.StartSpec | kernel/src/scheduler/mod.rs:1069-1079 | starting a task makes it current and Running with an unused slice and changes no other task |
| SchedulerRuns.PrepareSpec | kernel/src/scheduler/task.rs:344-400 | preparing a task records its frame and changes no other task |
| SchedulerRuns.SchedulesRotate | kernel/src/scheduler/mod.rs:199-209 | n calls of schedule are n rotations, and the head is current |
| SchedulerRuns.NoCurrentUntilSet | kernel/src/scheduler/mod.rs:411-417 | until set_current, schedule or the start sequence makes a task current, none is, and timer interrupts leave no trace |
| Starvation.RotationProgress | kernel/src/scheduler/queue.rs:111-142 | each rotation brings a queued id to slot 0 or one turn closer to it, or the id is alone |
| Starvation.InterruptProgress | kernel/src/scheduler/mod.rs:405-581 | in every valid state with a current task, each interrupt finds the task at the front or shortens its wait, by one turn exactly when it ends in a decision, whatever becomes of the switch |
| Starvation.WrappingSlice | kernel/src/scheduler/mod.rs:167-177 | an interrupt at the slice counter's maximum never switches: queue and current task stay and the slice starts again at zero |
| Starvation.FrontWithinWait | kernel/src/scheduler/mod.rs:405-581 | every queued task comes to slot 0 and is selected there within 64 decisions and within its computed wait: 320 interrupts, or 321 from a slice counter at its maximum |
| Starvation.SelectionOutcome | kernel/src/scheduler/mod.rs:451-580 | a selected task becomes current exactly when it is already or its saved frame validates |
| Starvation.BecomesCurrent | kernel/src/scheduler/mod.rs:405-581 | a task whose frame validates when the task is at slot 0 becomes current within that wait, even if its earlier selections across holes were aborted |
| PreemptiveRuns.LedgerTimer | kernel/src/scheduler/mod.rs:405-581 | a non-zero returned stack pointer is the latest frame recorded for the task switched to, which is then Running |
| PreemptiveRuns.CreateExact | kernel/src/scheduler/mod.rs:83-107 | creation keeps the ledger if and only if the task is turned down, or is not Running and has no ticks |
| PreemptiveRuns.LedgerRemove | kernel/src/scheduler/mod.rs:223-247 | removing a task moves its ticks to the removed account and keeps the ledger |
| PreemptiveRuns.RunsKeepLedger | kernel/src/scheduler/mod.rs:405-581 | every run in scope keeps the ledger from any state that satisfies it |
| PreemptiveRuns.RunResumesLatest | kernel/src/scheduler/mod.rs:405-581 | from any state that satisfies the ledger, every timer interrupt of a run in scope that switches returns a pointer to a kernel frame, the latest of the task it switches to, which is then Running |
| PreemptiveRuns.HandOverExact | kernel/src/scheduler/mod.rs:145-153 | setting the current task keeps at most one task Running if and only if the previous current task is the same one or not Running |
| PreemptiveRuns.SetCurrentExact | kernel/src/scheduler/mod.rs:145-153 | set_current keeps the ledger if and only if the task is unknown or no other task is left Running |
| PreemptiveRuns.ScheduleExact | kernel/src/scheduler/mod.rs:199-209 | schedule keeps the ledger if and only if nothing is queued or the head leaves no other task Running |
| PreemptiveRuns.StartExact | kernel/src/scheduler/mod.rs:1069-1079 | the start sequence keeps the ledger if and only if the task is unknown or no other task is left Running |
| PreemptiveRuns.StepExact | kernel/src/scheduler/mod.rs:83-247 | every operation keeps the ledger if and only if it is in scope; timer interrupts, removals and preparations always are |
| PreemptiveRuns.TickExact | kernel/src/scheduler/mod.rs:167-177 | a bare tick keeps the tick balance if and only if a task is current |
| PreemptiveRuns.RunsFromEmpty | kernel/src/scheduler/mod.rs:405-581 | over every run in scope at most the current task is Running, saved frames are the latest ones, every returned stack pointer is the latest frame of the task switched to, and scheduler ticks equal live plus removed task ticks modulo 2^64 |
| PreemptiveRuns.SyntheticFrameValid | kernel/src/scheduler/task.rs:344-400 | the synthetic first frame validates exactly for entry points from 1 MiB up to 2 MiB |
| PreemptiveRuns.SyntheticWords | kernel/src/scheduler/task.rs:344-400 | the nineteen words written for a first start, and no others |
| SchedulerObject.Scheduler.CreateTask | kernel/src/scheduler/mod.rs:83-107 | the in-place code computes the creation step |
| SchedulerObject.Scheduler.RemoveTask | kernel/src/scheduler/mod.rs:223-247 | the in-place code computes the removal step |
| SchedulerObject.Scheduler.FindTask | kernel/src/scheduler/mod.rs:113-139 | the scan finds the first slot with the id |
| SchedulerObject.Scheduler.SetCurrent | kernel/src/scheduler/mod.rs:145-153 | the in-place code computes the step |
| SchedulerObject.Scheduler.Tick | kernel/src/scheduler/mod.rs:167-177 | the in-place code computes the tick with wrap-around |
| SchedulerObject.Scheduler.Schedule | kernel/src/scheduler/mod.rs:199-209 | the in-place code computes the scheduling step |
| SchedulerObject.Scheduler.Decide | kernel/src/scheduler/mod.rs:451-580 | the in-place code computes the switching decision |
| SchedulerObject.Scheduler.TimerInterrupt | kernel/src/scheduler/mod.rs:405-581 | the branching code computes the timer step and its returned stack pointer |
| Handles.UnpackPack | kernel/src/objects/object.rs:43-65 | index and generation come back out of a packed handle |
| Handles.PackUnpack | kernel/src/ipc/endpoint.rs:13-35 | every word is the packing of its index and generation |
| Handles.IssuedIsNotInvalid | kernel/src/objects/object.rs:43-65 | no handle with a non-zero generation is the invalid one |
| Handles.GenerationStep | kernel/src/objects/object.rs:119-129 | the in-place increment that skips zero counts clears modulo 2^32 - 1 |
| Handles.GenerationRecurs | kernel/src/objects/object.rs:119-129 | a generation recurs exactly after a multiple of 2^32 - 1 clears |
| Objects.CreateKeepsInv | kernel/src/objects/table.rs:24-39 | creation fails only when all 64 slots are occupied; a new handle is valid at once and never the invalid one |
| Objects.RetainKeepsInv | kernel/src/objects/table.rs:82-110 | a retain is refused exactly for a dead handle or a count at its maximum |
| Objects.ReleaseKeepsInv | kernel/src/objects/table.rs:116-152 | the slot is freed exactly by the release that takes the count of its history to zero |
| Objects.DestroyKeepsInv | kernel/src/objects/table.rs:158-178 | destroying succeeds exactly on live handles and frees the slot |
| Objects.StepKeepsInv | kernel/src/objects/table.rs:24-178 | every call keeps the agreement of the table with its history |
| Objects.AnswersFromHistory | kernel/src/objects/table.rs:24-185 | every answer of create, is_valid, get_type, retain, release, destroy and count is computed from the history of creations, retains, releases and clears alone |
| Objects.HistoryDeterminesTable | kernel/src/objects/table.rs:24-185 | over every history the reference count is one plus retains minus releases and never zero, occupied means a record is present, its type is the one it was created with, generations count clears, and count is creations minus clears |
| Objects.HandleValidity | kernel/src/objects/table.rs:42-57 | an issued handle is valid later exactly when its slot is occupied and has been cleared a multiple of 2^32 - 1 times since |
| Objects.ObjectTable.Create | kernel/src/objects/table.rs:24-39 | the scan computes the creation step |
| Objects.ObjectTable.IsValid | kernel/src/objects/table.rs:42-57 | true exactly for handles that name a live slot of their generation |
| Objects.ObjectTable.GetType | kernel/src/objects/table.rs:60-79 | the type stored for a live handle |
| Objects.ObjectTable.Retain | kernel/src/objects/table.rs:82-110 | the in-place code computes the step; it refuses at the counter's maximum |
| Objects.ObjectTable.Release | kernel/src/objects/table.rs:116-152 | the in-place code computes the step |
| Objects.ObjectTable.Destroy | kernel/src/objects/table.rs:158-178 | the in-place code computes the step |
| Objects.ObjectTable.Count | kernel/src/objects/table.rs:181-185 | the number of occupied slots |
| Ipc.MessageRoundTrip | kernel/src/ipc/message.rs:24-46 | up to 256 bytes are accepted, sender and payload come back as they went in, and the rest of the buffer is zero |
| Ipc.CreateKeepsInv | kernel/src/ipc/endpoint.rs:155-169 | creation fails exactly when every endpoint is open; a new handle was not live before, is live after and is never the invalid one |
| Ipc.SendKeepsInv | kernel/src/ipc/endpoint.rs:188-215 | a send is accepted exactly for a short enough payload, a live handle and a queue that is not full; the message goes to the end of its lifetime's messages |
| Ipc.ReceiveKeepsInv | kernel/src/ipc/endpoint.rs:217-239 | a receive delivers exactly the next undelivered message of the lifetime |
| Ipc.DestroyKeepsInv | kernel/src/ipc/endpoint.rs:265-295 | closing succeeds exactly on a live, drained endpoint |
| Ipc.ApplyKeepsInv | kernel/src/ipc/endpoint.rs:155-301 | every call keeps the agreement of generations and queues with the history |
| Ipc.RepliesFromHistory | kernel/src/ipc/endpoint.rs:155-301 | every reply of every call, queue_len, is_valid and count included, is computed from the history of openings, closings, sends and receives alone |
| Ipc.DeliveryGuarantee | kernel/src/ipc/endpoint.rs:155-295 | over every run each delivery is the next message accepted in the same lifetime, closed endpoints have delivered everything, accepted equals delivered followed by queued, and whatever is called next answers what the history demands |
| Ipc.HandleValidity | kernel/src/ipc/endpoint.rs:133-186 | an endpoint handle is valid later exactly when its slot is occupied and has been closed a multiple of 2^32 - 1 times since |
| IpcObject.NewMessage | kernel/src/ipc/message.rs:24-42 | the copying loop builds the message, or refuses more than 256 bytes |
| IpcObject.IpcQueue.Send | kernel/src/ipc/endpoint.rs:67-83 | the ring appends at its end unless sixteen messages are queued |
| IpcObject.IpcQueue.Receive | kernel/src/ipc/endpoint.rs:85-103 | the ring gives up its oldest message, or nothing when empty |
| IpcObject.IpcManager.Create | kernel/src/ipc/endpoint.rs:155-169 | the scan computes the call |
| IpcObject.IpcManager.IsValid | kernel/src/ipc/endpoint.rs:171-186 | the checks compute the call |
| IpcObject.IpcManager.Send | kernel/src/ipc/endpoint.rs:188-215 | the in-place code computes the call; no other endpoint's queue changes |
| IpcObject.IpcManager.Receive | kernel/src/ipc/endpoint.rs:217-239 | the in-place code computes the call; no other endpoint's queue changes |
| IpcObject.IpcManager.QueueLen | kernel/src/ipc/endpoint.rs:241-263 | the ring's count is the number of queued messages |
| IpcObject.IpcManager.Destroy | kernel/src/ipc/endpoint.rs:265-295 | the in-place code computes the call |
| IpcObject.IpcManager.Count | kernel/src/ipc/endpoint.rs:297-301 | the number of occupied slots |
| IpcConcurrency.StepKeepsInv | kernel/src/ipc/endpoint.rs:155-301 | every step of every thread keeps: one holder per lock, queue locks only under the manager lock, and the table explained by the sequential run and the holder's position |
| IpcConcurrency.StepKeepsCallers | kernel/src/ipc/endpoint.rs:155-301 | a returning caller is given the reply that the log records for the very call it made |
| IpcConcurrency.StepKeepsCalls | kernel/src/ipc/endpoint.rs:155-301 | a step adds to a thread's logged and pending calls exactly the call it begins, and never rewrites the log |
| IpcConcurrency.RunKeepsCalls | kernel/src/ipc/endpoint.rs:155-301 | over every schedule a thread's logged calls and the one in progress are exactly those it began, in order |
| IpcConcurrency.ReplayKeepsInv | kernel/src/ipc/endpoint.rs:155-301 | a log whose replies match its calls explains a table with in-order delivery |
| IpcConcurrency.RepliesAreHistoric | kernel/src/ipc/endpoint.rs:155-301 | every logged reply is the one demanded by the happenings logged before it |
| IpcConcurrency.HolderAdvances | kernel/src/sync/spinlock.rs:35-49 | the manager lock's holder never spins and gives the lock up within six of its own steps |
| IpcConcurrency.NoDeadlock | kernel/src/sync/spinlock.rs:35-90 | whenever a call is in progress some thread's next step changes the state |
| IpcConcurrency.EveryInterleavingIsSequential | kernel/src/ipc/endpoint.rs:155-301 | for any threads and any schedule: mutual exclusion, each thread's logged calls are those it began in order, replies and table are those of the sequential run of the log and of its history, callers get the replies logged for their calls, and deliveries are in order |
| ElfLoader.MemoryCopy | boot/stage2/stage2.asm:900-927 | the loop copies byte by byte, lowest first, until it is done or an access faults or hits the loader's image, and leaves the destination pointer past the copy |
| ElfLoader.MemoryZero | boot/stage2/stage2.asm:933-953 | the loop zeroes byte by byte until it is done or a store faults or hits the loader's image |
| ElfLoader.LoadKernel | boot/stage2/stage2.asm:595-889 | the register loop with its two calls, their pushed return addresses and the hand-over compute the whole run: started, refused or stopped |
| ElfLoader.LoadOne | boot/stage2/stage2.asm:679-747 | the loop body pushes, copies, returns, reads the sizes again, pushes, zeroes and returns |
| ElfLoader.StoreBootInfo | boot/stage2/stage2.asm:763-860 | the eleven stores build the record |
| ElfLoader.CopyRunsIff | boot/stage2/stage2.asm:900-927 | a copy comes to its end if and only if it is empty, or source and destination lie in the mapped 2 MiB and the destination misses the image |
| ElfLoader.ZeroRunsIff | boot/stage2/stage2.asm:933-953 | the same for zeroing |
| ElfLoader.CopyMeans | boot/stage2/stage2.asm:900-927 | a copy that comes to its end, overlapping or not: the destination holds the source's bytes, repeated when it copies upwards over itself, and nothing else changes |
| ElfLoader.ZeroMeans | boot/stage2/stage2.asm:933-953 | zeroing that comes to its end makes exactly the bytes of the range zero |
| ElfLoader.LoadSegmentMeans | boot/stage2/stage2.asm:679-747 | both calls come back, the segment holds its file bytes and zeros, and the return address apart nothing else changes |
| ElfLoader.SegmentRunsOnlyIf | boot/stage2/stage2.asm:679-747 | for every image, a segment is loaded only from and to mapped memory outside the loader's image, and only if both calls found their return address |
| ElfLoader.SegmentEffect | boot/stage2/stage2.asm:732-747 | for every image, behind the copied bytes as many are zeroed as the sizes read again after the copy say |
| ElfLoader.HeaderRunsOnlyIf | boot/stage2/stage2.asm:653-756 | for every image, the loop passes a header only if it could read it, skips what is not loadable and loads the rest |
| ElfLoader.StartedOnlyIf | boot/stage2/stage2.asm:653-756 | for every image, the kernel is started only if every program header lies in mapped memory |
| ElfLoader.RefusedIff | boot/stage2/stage2.asm:595-616 | a file is refused exactly when one of its first six bytes is wrong, and then only the stack changes |
| ElfLoader.FileHeaderRoundTrip | boot/stage2/stage2.asm:627-646 | entry point and program header table are read from their places in Elf64_Ehdr |
| ElfLoader.ProgramHeaderRoundTrip | boot/stage2/stage2.asm:661-713 | a header written as Elf64_Phdr of the System V ABI is read back, whatever its flags, virtual address and alignment |
| ElfLoader.HeaderStep | boot/stage2/stage2.asm:653-756 | one pass of the loop loads exactly its segment or skips a header that is not loadable, and keeps the extent tight |
| ElfLoader.HandOver | boot/stage2/stage2.asm:763-889 | every field of the record reads back as written, and only the record and the loader's stack change |
| ElfLoader.LoadSpec | boot/stage2/stage2.asm:577-889 | for every well-formed image the loader reaches the entry point, each segment then holds its file bytes followed by zeros, the record holds their tight extent, and no byte outside segments, record and stack has changed |
| SmallestKernel.TinyKernelStarts | boot/stage2/stage2.asm:577-889 | a concrete one-segment image is well-formed, is started, and has its file byte and its zero in place |
| BootChain.SegmentFramesReserved | kernel/src/memory/frame_allocator.rs:126-132 | no frame that holds a byte of a loaded segment is free after initialisation with the extent read from the record |
| BootChain.LoadedKernelIsNeverAllocated | kernel/src/memory/frame_allocator.rs:126-147 | over every later run of the allocator no frame handed out holds a byte of a loaded segment |

## Left out

- Processor stores through the mappings, the translation look-aside buffer and loading of CR3: the tables are taken to mean what `translate` reads.
- The huge-page branches of `translate` and `unmap` are modelled as written, but nothing is claimed about them beyond that they are never taken.
- Concurrency of the object table: it has a single lock, so its interleavings add nothing to what the two-level IPC protocol shows.
- Weak-memory effects of the acquire and release orderings, and `try_lock` and `is_locked`, which nothing uses.
- Fairness of the spin locks: the source gives none, so a particular thread may spin for ever while others make progress.
- Cooperative context switching, kernel stacks other than the interrupt frame words, and the test drivers with their printing.
- The task states Blocked and Terminated as scheduling filters: the scheduler does not consult them.
- GDT, IDT, TSS, PIC, PIT and MSR set-up, system-call entry code, serial output, disk reading and the image builder: constant programming or input and output.
- ElfLoader.LoadSpec: assumes what the loader never checks: segments inside the mapped 2 MiB that overlap neither each other, nor the file, nor the loader's image, stack and record; for other images `ElfLoader.Load` says what the loader does up to the point where it stops.
- ElfLoader.Load: after a store into the loader's own image nothing more is said, since the changed code or page tables would then run.
- MemoryRuns.RunRefinesPageMaps: excludes runs in which a caller frees a frame that holds one of the tables, which the allocator cannot tell from any other owned frame.
- PreemptiveRuns.RunsFromEmpty: excludes exactly the calls that break the ledger, as `PreemptiveRuns.StepExact` shows.
