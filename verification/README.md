# A verified model of the kernel's core

This project models, in Dafny 4.11, five parts of a small x86 kernel and proves what they keep, undo and preserve:

- **the scheduler with its sleep queue** (`cpu/task.c`, `cpu/timer.c`): `SchedulerSpec.dfy`, `SchedulerTheorems.dfy`,
  `Scheduler.dfy`;
- **the boundary-tag heap with its ordered index of holes** (`cpu/kheap.c`, `cpu/ordered_array.c`):
  `OrderedArray.dfy`, `HeapMemory.dfy`, `HeapTiling.dfy`, `HeapMerging.dfy`, `HeapSpec.dfy`, `HeapPages.dfy`,
  `HeapIndex.dfy`, `HeapAllocating.dfy`, `HeapFreeing.dfy`, `KernelHeap.dfy`, `HeapTheorems.dfy`, `KernelMalloc.dfy`;
- **physical frames, page tables and cloned address spaces** (`cpu/paging.c`, `cpu/process.asm`, and the placement
  allocator of `cpu/kheap.c`): `FrameBitmap.dfy`, `FrameOwnership.dfy`, `PageTables.dfy`, `PhysicalMemory.dfy`,
  `Pager.dfy`, `PagingBoot.dfy`, `AddressSpaces.dfy`;
- **the printf engine** (`kernel/printf.c`): `NumberFormat.dfy`, `FormatStrings.dfy`, `Printf.dfy`,
  `FormatRoundTrip.dfy`, `FormatMeaning.dfy`;
- **the scrolling console** (`drivers/screen.c`): `TextGrid.dfy`, `Screen.dfy`.

`Machine.dfy` holds what they share. `dafny verify dfyconfig.toml` checks everything.

Each part is built in the same way. The imperative code is modelled by methods over the same fields, arrays and lists
as in C, with the same branches and loops. Every method is proved against a function on values (a step of a state
machine, the blocks of a heap after an allocation, the text of a directive, a text laid out on a grid), and the theorems
are about those functions, over every input or every run.

## How the source is read

**Scheduler.** Each tick, sleep and fork is one atomic step. `fork` and the timer run with interrupts off; `sleep` does
not switch them off, so its atomicity is an assumption. The registers saved and restored by `switch_task` are opaque.
A deadline `tick + epoches` that is 0 after wrapping means "not sleeping". It arises from `sleep(0)` before the first
tick and from sleeping until the count wraps (`ZeroDeadline`). Then the task stays in the ready list while the sleep
list runs into it; `SleepStep` says so, and `SleepKeepsExactly` and `Scheduler.Sleep` say that exactly then the order is
lost.

**Heap.** Headers and footers are bytes in an array, with words stored least significant byte first. Where the code and
its comments part ways, both are modelled and selected by `Variant`:

| source | as written | as intended |
|---|---|---|
| `cpu/kheap.c:80` | the test reads as `new_size & 1`, so only odd lengths are rounded | every length is rounded up to a page |
| `cpu/kheap.c:108-112` | the mask 0x1000 leaves 0x2000 or the length itself | the length is rounded up to a page |
| `cpu/kheap.c:237-257` | the hole with the highest address is enlarged wherever it lies | only if it reaches to the old end; otherwise a hole is added there |
| `cpu/kheap.c:366-368` | the footer announced in the comment is not stored | it is stored |
| `cpu/kheap.c:395-409` | the block to the right is looked up, and the hole may be added again | the hole itself is looked up and not added again |

The theorems say for both variants when the heap stays well-formed: `GrowSafe` for `alloc`, `FreeSafe` for `free`. For
the code as intended the only condition left is the one a contraction puts on the last hole (`ShrinkSafe`: it keeps room
for a header and a footer, or vanishes). `GrowingGoesWrong`, `MergingGoesWrong`, `ShrinkingGoesWrong` and
`ShrinkingReached` show how the code as written gets from a new heap to calls that are not safe.

The heap knows which pages are mapped (`present`) and which of them have a frame of their own (`backed`): `expand` adds
to both, while `contract` only takes frames away, because `free_frame` leaves the present flag set
(`cpu/paging.c:101-113`) and such a page then shows physical frame 0. A page that was never mapped faults, and the
handler stops the kernel (`cpu/paging.c:210-234`). Every page under a valid heap has a frame. Only two kinds of access
leave that ground, and the model checks them where the code makes them. The stores of `alloc` into the new room: as
written, an extension can miss the last page (`ExtendingGoesWrong`; in a heap of 0x80000 bytes, for example,
`alloc(0x80000)` and then `alloc(0x80FDC)`). And the look of `free` at a header behind the last block, in both variants
(`LookBehind`); when the heap ends at a page boundary it faults exactly if the page there is not mapped, as in a new
heap (`LookAligned`). After a contraction as written, `free` may also read the size of the merged hole from a page that
it has just given back; then it goes astray, and nothing is promised.

The C expressions `x & 0xFFFFF000 != 0` at `cpu/kheap.c:143` and `cpu/kheap.c:181` do not matter here: the first is in
the page-aligned branch, and the start address is page-aligned already.

**Paging.** `free_frame` passes the number of a frame where its address is expected (`cpu/paging.c:110`); both variants
are modelled, and `ReleaseKeepsExactly` says when each keeps the ownership of frames. `first_frame` has no return
statement for full memory; the model returns -1, which its caller tests for (`cpu/paging.c:88`). The table made at
`cpu/paging.c:199` is taken to be zeroed. The `memset` at `cpu/paging.c:241` clears the size of a directory; the model
clears the table. Words of the bit table are numbers below 2^32, and the bit operations are written out on their binary
digits; `x | 0x7` and `x & 0xFFFFF000` are written with division. The 10/10/12 split of an address is that of section 4.3
of the Intel 64 and IA-32 Architectures Software Developer's Manual, volume 3A.

**Printf.** A `long` is a 32-bit word, and negating the smallest one wraps. Arguments are 32-bit words or strings.
`%s` prints the whole string, because `strnlen` in `kernel/util.c:70-74` ignores its bound.

**Console.** The cursor registers are two byte fields; the port traffic around them is not modelled. The last row is
blanked with zero bytes after scrolling, as in the source, and not with spaces.

## Model

| member | source | states |
|---|---|---|
| SchedulerSpec.TickKeeps | cpu/timer.c:20-57 | a tick keeps both queues free of repetitions and disjoint, current in ready, end_of_sleep 0 exactly for ready tasks, and loses and adds no task |
| SchedulerSpec.SleepKeeps | cpu/timer.c:74-98 | so does a call of sleep whose deadline is not 0 |
| SchedulerSpec.ForkKeeps | cpu/task.c:201-258 | a fork keeps the same and adds exactly the child |
| SchedulerSpec.SleepKeepsExactly | cpu/timer.c:82-97 | sleep keeps the invariant if and only if one task is ready or the wrapped deadline is not 0; otherwise the sleeper stands in both queues |
| SchedulerSpec.ZeroDeadline | cpu/timer.c:82-97 | the deadline is 0 if and only if the task sleeps for 0 ticks at tick 0 or for as many as are left until the count wraps |
| SchedulerSpec.StepKeeps | cpu/task.c:109-170 | every enabled step keeps the invariant, with the population exactly extended by the children forked |
| SchedulerSpec.FirstExpired | cpu/timer.c:28-29 | the position found is that of the first sleeper whose deadline has passed, or the length of the queue if there is none |
| SchedulerTheorems.RunKeeps | cpu/task.c:109-258 | over every run the queues hold the initial and the forked tasks, each exactly once |
| SchedulerTheorems.WaitBound | cpu/task.c:146-170 | the waiting measure lies between 0 and 2(N-1) and is 0 exactly for the running task |
| SchedulerTheorems.WaitDrops | cpu/task.c:146-170 | every step but a fork lowers the measure of every waiting task; a fork raises it by two at most |
| SchedulerTheorems.RunsSoon | cpu/task.c:109-170 | a ready task runs within its measure plus three steps for each fork |
| SchedulerTheorems.NoStarvation | cpu/task.c:109-170 | in every run each ready task becomes current within 2(N-1) steps plus three for each fork in between |
| SchedulerTheorems.TickRuns | cpu/timer.c:20-57 | a tick moves the first expired sleeper, and no other, behind the ready tasks, which keep their places, and then always switches to the next in line, even to a task woken just then; while next_pid is 1 it only counts |
| SchedulerTheorems.StaysAhead | cpu/task.c:109-258 | no step lets anyone in front of a waiting task, and no step passes it over |
| SchedulerTheorems.FirstComeFirstServed | cpu/task.c:109-258 | in every run of ticks, sleeps and forks, a task that waits runs before every task behind it and every task that is forked or woken later |
| SchedulerTheorems.RoundRobin | cpu/task.c:146-170 | over ticks that wake nobody the ready tasks run in turn, k ticks leading k places on around the queue |
| SchedulerTheorems.ForkedRunsLast | cpu/task.c:223-227 | after a fork and k ticks that wake nobody the task k places behind the one that forked runs, and the child runs once all of those have |
| SchedulerTheorems.SleeperStep | cpu/timer.c:28-53 | a step wakes a sleeper only by a tick beyond its deadline; otherwise the sleeper stays, and such a tick brings it a place further ahead |
| SchedulerTheorems.NotWokenEarly | cpu/timer.c:28-53 | in every run a sleeper is still asleep while the tick count is at most its deadline |
| SchedulerTheorems.WokenInTime | cpu/timer.c:28-53 | a sleeper with j ahead of it is ready by the end of tick m + 1 + j, m being the later of deadline and present |
| SchedulerTheorems.SleepBounds | cpu/timer.c:74-98 | a task that sleeps until d with p ahead of it is not ready before tick d + 1 and ready by the end of tick d + 1 + p, in every run without wrap-around |
| SchedulerTheorems.NeverWoken | cpu/timer.c:29 | a sleeper with the largest possible deadline is not woken in any run |
| Scheduler.Scheduler.InitialiseTasking | cpu/task.c:31-54 | the first task is current and alone in the ready queue |
| Scheduler.Scheduler.SwitchTask | cpu/task.c:109-170 | the list surgery of a switch: the successor runs, and a task with a deadline leaves the ready list, which stays acyclic |
| Scheduler.Scheduler.WakeFirstExpired | cpu/timer.c:28-53 | the wake loop moves exactly the first expired sleeper to the tail of the ready list, although it goes on from a node whose next it has cleared |
| Scheduler.Scheduler.TimerCallback | cpu/timer.c:20-57 | a timer interrupt takes the pointer structure through exactly the tick step, to a state that meets the invariant of the runs |
| Scheduler.Scheduler.Sleep | cpu/timer.c:74-98 | sleep takes the pointer structure through exactly the sleep step, whatever the deadline; the lists are in order afterwards if and only if one task is ready or the deadline is not 0, and otherwise the sleep list runs into the ready list, so that no reading of the two keeps them apart |
| Scheduler.Scheduler.Fork | cpu/task.c:201-258 | fork takes it through the fork step, which is enabled, with a new task object of the next pid: the child is the last of the ready queue, every other task keeps its place, and the same task goes on |
| Scheduler.Scheduler.ValidIsInv | cpu/task.h:16-26 | two lists in order stand for a state that meets the invariant, so that the theorems about runs apply to them |
| OrderedArray.InsertedSorted | cpu/ordered_array.c:39-60 | insertion keeps a sorted array sorted, for every strict weak order |
| OrderedArray.InsertedItems | cpu/ordered_array.c:39-60 | insertion adds the item and changes the multiset by nothing else |
| OrderedArray.RemovedItems | cpu/ordered_array.c:68-76 | removal takes away one occurrence of the item and nothing else |
| OrderedArray.RemovedSorted | cpu/ordered_array.c:68-76 | removal keeps a sorted array sorted |
| OrderedArray.OrderedArray.Insert | cpu/ordered_array.c:39-60 | the shifting loop puts the item in front of the first one that is not less |
| OrderedArray.OrderedArray.Lookup | cpu/ordered_array.c:62-66 | the item in the slot |
| OrderedArray.OrderedArray.Remove | cpu/ordered_array.c:68-76 | the shifting loop removes exactly the slot |
| HeapMemory.WriteHeader | cpu/kheap.h:22-27 | a header written is read back, and no byte outside it changes |
| HeapMemory.WriteFooter | cpu/kheap.h:29-33 | the same for a footer |
| HeapTiling.TilesUnique | cpu/kheap.h:22-27 | memory determines the tiling: walking the headers gives one sequence of blocks |
| HeapTiling.TilesApart | cpu/kheap.h:22-27 | blocks of a tiling do not overlap |
| HeapTiling.SurgeryKeeps | cpu/kheap.c:262-320 | replacing one block by others that cover its bytes keeps headers, footers and index in agreement |
| HeapMerging.MergedKeeps | cpu/kheap.c:346-379 | a hole merged with all neighbouring holes gives a well-formed heap once it is indexed |
| HeapMerging.WrongFooter | cpu/kheap.c:365-368 | a hole inside the heap whose footer names another header makes the heap ill-formed, however it is read |
| HeapAllocating.LayOut | cpu/kheap.c:166-201 | a new heap is one indexed hole behind a cleared index area |
| HeapAllocating.SplitHole | cpu/kheap.c:262-320 | the stores of alloc leave a block in use and, if there is room for one, a hole behind it, both with header and footer |
| HeapSpec.CarveKeeps | cpu/kheap.c:262-320 | allocating from a hole keeps the heap well-formed and every block in use unchanged in place and content |
| HeapSpec.AllocatedBlock | cpu/kheap.c:262-323 | the new block has the size asked for, or up to 19 bytes more, and is the only new block in use |
| HeapSpec.Overlapped | cpu/kheap.c:237-257 | behind a hole that is not last lies a block in use which an enlarged hole would reach over |
| HeapSpec.RoomEndIs | cpu/kheap.c:221-257 | the room goes to the hole with the highest address, which then ends at the new end of the heap in the safe cases |
| HeapSpec.ReachesOver | cpu/kheap.c:249-259 | after a hole that is not last has been enlarged, the second search finds that hole and no other, and what is cut from it reaches over a block in use |
| HeapSpec.FreedSides | cpu/kheap.c:346-379 | the merge takes in every neighbouring hole, so that no two holes are adjacent |
| HeapSpec.FreedExtent | cpu/kheap.c:346-379 | the merged hole covers exactly the bytes of the blocks merged |
| HeapSpec.FreedLive | cpu/kheap.c:340-410 | free leaves every other block in use where it is, byte for byte |
| HeapSpec.CutVerdict | cpu/kheap.c:382-410 | after a contraction the heap is well-formed if and only if the last hole has room for header and footer or is gone |
| HeapSpec.MergeVerdict | cpu/kheap.c:362-379 | after a merge inside the heap it is well-formed if and only if the footer names the merged header |
| HeapSpec.ShrinkSafeAsWritten | cpu/kheap.c:102-128 | as written, a contraction is safe if and only if the last hole starts at least 20 bytes below the minimal size |
| HeapSpec.RestSize | cpu/kheap.c:387-391 | the unsigned subtraction gives what is left of the last hole, or a number larger than the hole when it starts behind the new end |
| HeapSpec.RoundedExactly | cpu/kheap.c:79-84 | as written, an even length stays and an odd one becomes the only multiple of a page among the 4096 lengths above it; as intended, the length becomes the only multiple among the 4096 from it on |
| HeapSpec.RoundedLeast | cpu/kheap.c:79-84 | every multiple of a page above an odd length (as intended: not below the length) is at least the rounded one |
| HeapSpec.ContractedExactly | cpu/kheap.c:107-116 | as written, a length with an even page number from the minimal length on stays and every other becomes the minimal one; as intended, the length becomes the least multiple of a page not below it and the minimal one |
| HeapSpec.RequestWraps | cpu/kheap.c:207 | the size with header and footer wraps around to less than a header and footer if and only if it is one of the 20 largest |
| HeapSpec.LimitWraps | cpu/kheap.c:77-87 | the assertions of expand pass a request that the maximal address does not allow if and only if the new end, but not the length, wraps around |
| HeapPages.TouchedCovers | cpu/kheap.c:92-98 | the loop of expand reaches every page of the new room if and only if the offset of the old end does not push its last step past the last page |
| HeapPages.ExpandCovers | cpu/kheap.c:90-99 | after an extension every page of the heap has a frame if and only if the last one had or the steps of the loop reach it; from a page boundary they do; if no page behind the old end had one, the offsets of the two ends alone decide |
| HeapPages.ContractCovers | cpu/kheap.c:118-126 | the frames that the loop of contract gives back leave one under every page below the new end if and only if the new end does not lie lower in its page than the old end in its own, off a page boundary and more than a page in front |
| HeapPages.EndPage | cpu/kheap.c:118-126 | a contraction to a page boundary gives back the page at the new end if and only if the old end was not at one and lay at least a page further; otherwise that page keeps its frame behind the heap |
| HeapPages.LookAligned | cpu/kheap.c:361-376 | behind a heap that ends at a page boundary the look faults if and only if that page is not mapped, and meets the assertion if and only if it finds what looks like a hole |
| HeapIndex.BestFit | cpu/kheap.c:130-159 | on a sorted index the first hole that fits is a smallest one that fits |
| HeapIndex.AllocKeepsSorted | cpu/kheap.c:291-319 | allocating from a hole leaves the index sorted, even if the entry of that hole was out of order |
| HeapIndex.ResizedInPlace | cpu/kheap.c:355-390 | changing the size of an indexed hole in place, by extension, merge or contraction, keeps the index sorted if and only if the entries beside it allow the new size |
| HeapIndex.HolesOnce | cpu/kheap.c:291-320 | every hole is in the index once |
| KernelHeap.KernelHeap.constructor | cpu/kheap.c:166-201 | create_heap gives a valid heap of one hole, with a sorted index |
| KernelHeap.KernelHeap.FindSmallestHole | cpu/kheap.c:130-159 | the first index entry whose hole is large enough, or -1 exactly when none is |
| KernelHeap.KernelHeap.Expand | cpu/kheap.c:74-100 | fails exactly at the two assertions; else the length is the one asked for if even and ends at the next page boundary if odd (as intended: is the least multiple of a page that suffices), and every page the loop comes to gets a frame; every page is backed afterwards if and only if the last one had a frame or the loop comes to it |
| KernelHeap.KernelHeap.Contract | cpu/kheap.c:102-128 | moves the end back to the length that ContractsTo describes and gives up exactly the frames at the steps of the loop; from a backed heap every page stays backed if and only if the offsets of the two ends allow it |
| KernelHeap.KernelHeap.PlaceRoom | cpu/kheap.c:221-257 | where the new room goes: the stores fault if and only if the last byte of the hole that gets it is not mapped; else well-formed again in the safe cases, and in the others a hole enlarged over blocks in use |
| KernelHeap.KernelHeap.GrowAndFind | cpu/kheap.c:211-259 | stops at an assertion exactly if the rounded length passes the maximal address, and by a fault exactly if the last byte of the room is not mapped; otherwise the second search finds a hole that is large enough and mapped throughout, so alloc calls itself at most once |
| KernelHeap.KernelHeap.Alloc | cpu/kheap.c:203-324 | the whole of unaligned alloc: it succeeds if and only if a hole fits, or the maximal address allows the extension and the last byte of the new room is mapped; an extension makes the heap as long as Expand does for the total; the block is cut from a fitting hole (a smallest one if the index is sorted) or, after a safe extension, from the hole that got the room; then the heap is valid if and only if its last page has a frame, a sorted index stays sorted and every block in use is kept; after an unsafe extension the new block overlaps one in use; as intended it never faults |
| KernelHeap.KernelHeap.MergeRight | cpu/kheap.c:359-379 | the hole on the right is swallowed and leaves the index; behind the heap the look faults or meets the assertion exactly as LookBehind says |
| KernelHeap.KernelHeap.Unify | cpu/kheap.c:332-379 | marking and merging left and right gives exactly the hole from the leftmost to the rightmost neighbour, unless the block is the last and the look behind the heap stops the kernel |
| KernelHeap.KernelHeap.Free | cpu/kheap.c:326-412 | the whole of free: for the last block it stops exactly if the look behind the heap does; it goes astray exactly if the contraction gave back the page with the size of the merged hole, which happens in unsafe calls as written only; otherwise the heap is valid afterwards if and only if FreeSafe holds, with the blocks AfterFree describes and every other block in use kept; then a sorted index stays sorted if and only if the entries beside that of the merged hole allow its size, which they do unless it was merged into a hole on its left |
| HeapFreeing.MergeLeft | cpu/kheap.c:346-357 | the unification with the block on the left happens exactly if that is a hole |
| HeapTheorems.FreeUndoesAlloc | cpu/kheap.c:262-379 | freeing the block just cut from a hole brings the hole back, split or absorbed, up to the contraction at the end; as written exactly if nothing was split off or the hole is last and low |
| HeapTheorems.GrowingGoesWrong | cpu/kheap.c:249-252 | as written: two allocations that fill a new heap and one free, all safe, give a heap whose next extension is not safe, for all sizes |
| HeapTheorems.MergingGoesWrong | cpu/kheap.c:362-379 | as written: three allocations that fill a new heap, a free in the middle and a smaller allocation there, all safe, give a block that it is not safe to free, for all sizes |
| HeapTheorems.ShrinkingGoesWrong | cpu/kheap.c:361-394 | as written: of two blocks that fill a heap it is safe to free the second if and only if it begins at least 20 bytes below the minimal length; before that comes the look behind it, which faults if and only if the page there is not mapped, as in a new heap |
| HeapTheorems.ShrinkingReached | cpu/kheap.c:361-394 | as written: a new heap that an even request extends to an end inside a page and a second request fills has a last block behind which the look does not fault and which it is not safe to free |
| HeapTheorems.OddRequest | cpu/kheap.c:79-84 | as written: a request that makes the length of a new heap odd extends it to a page boundary and leaves a hole that is larger than the whole heap was, by a page at most |
| HeapTheorems.ExtendingGoesWrong | cpu/kheap.c:80-98 | as written: two even requests extend a new heap, safely as to its blocks; the second extension leaves the last byte of the heap without a page if and only if the offsets of its two ends do not fit, for all sizes |
| HeapTheorems.InUseAfterFree | cpu/kheap.c:340-410 | free takes exactly the freed block out of use |
| HeapTheorems.LedgerStep | cpu/kheap.c:203-412 | no address is handed out twice, and only what was handed out can be freed |
| HeapTheorems.Ledger | cpu/kheap.c:203-412 | over every run of safe calls the blocks in use are exactly those allocated and not freed, each at its address and large enough |
| HeapTheorems.HeldApart | cpu/kheap.c:203-412 | payloads held at the same time lie in the heap and do not overlap |
| HeapTheorems.HeldBytesStay | cpu/kheap.c:203-412 | over every run a block that is not freed keeps every byte |
| KernelMalloc.Kmalloc | cpu/kheap.c:17-30 | fails exactly if no hole fits and the maximal address does not allow the extension or its last byte is not mapped; a successful safe allocation is a step of those runs, and leaves a valid heap if and only if the last page has a frame |
| KernelMalloc.Kfree | cpu/kheap.c:49-52 | a safe free ends as the look behind the heap does, and if that goes well it is a step of those runs |
| FrameBitmap.WithBitSets | cpu/paging.c:31-46 | setting or clearing bit i changes bit i and no other |
| FrameBitmap.AllOnes | cpu/paging.c:63 | a word is 0xFFFFFFFF if and only if all its bits are set |
| FrameBitmap.SetFrame | cpu/paging.c:31-37 | marks the frame of the address and no other |
| FrameBitmap.ClearFrame | cpu/paging.c:40-46 | unmarks the frame of the address and no other |
| FrameBitmap.TestFrame | cpu/paging.c:49-55 | tells whether the frame of the address is marked |
| FrameBitmap.FirstFrame | cpu/paging.c:58-76 | the lowest unmarked frame, or -1 exactly when all are marked |
| FrameOwnership.AllocateKeeps | cpu/paging.c:79-98 | after alloc_frame a frame is marked exactly if it is frame 0 or held by an entry, and no two entries share one |
| FrameOwnership.FullWhen | cpu/paging.c:58-76 | no frame is found exactly if as many are marked as there are |
| FrameOwnership.FreshFor | cpu/paging.c:79-98 | an entry without a frame gets one exactly if not all are marked; it was not marked before, is not frame 0, and one more is marked then |
| FrameOwnership.ReleaseKeepsExactly | cpu/paging.c:101-113 | free_frame keeps that if and only if it clears the right bit or does nothing |
| FrameOwnership.FrameZeroLost | cpu/paging.c:101-113 | as written, freeing a frame of the first 4096 leaves it marked and gives frame 0 away, and the next allocation marks frame 0 without giving its entry a frame |
| FrameOwnership.RunKeeps | cpu/paging.c:79-113 | over every run of allocations and frees ownership is kept, and the marked frames number one more than the owners |
| PageTables.PageDirectory.WalkSeparates | cpu/paging.c:185-194 | two addresses resolve to the same entry if and only if they share a page |
| PageTables.FlagsComeOff | cpu/paging.c:198-200 | the table address survives the flags ORed into it if and only if it is page-aligned |
| PageTables.FlagsGoOn | cpu/paging.c:200 | the bits for present, writable and user mode are set in a directory entry, and every other bit is that of the address |
| PhysicalMemory.CopyPagePhysical | cpu/process.asm:7-38 | the target frame receives the contents of the source frame, and no other frame changes |
| Pager.Pager.AllocFrame | cpu/paging.c:79-98 | alloc_frame is the allocation step on bit table and entries, and writes exactly its entry |
| Pager.Pager.FreeFrame | cpu/paging.c:101-113 | free_frame is the release step |
| Pager.CloneFlags | cpu/paging.c:252-257 | the flags of the source entry are joined to those of the copy, and its frame is kept |
| Pager.CopyPermits | cpu/paging.c:250-257 | a copy has the permissions of its source if and only if the source is present, writable and open to user mode; otherwise it has more |
| Pager.Pager.FreshFrame | cpu/paging.c:250-251 | a blank entry gets a frame that was free; the kernel panics exactly if no frame is free |
| Pager.Pager.ClonePage | cpu/paging.c:248-259 | an entry with a frame gets another frame with the same contents and is present, writable and open to user mode, with the accessed and dirty flags of its source; no frame in use changes; it panics exactly if no frame is free |
| Pager.Pager.CloneTable | cpu/paging.c:236-263 | the copy has, entry for entry, frames of its own with the same contents and the flags that clone_table gives, and blank entries stay blank; it panics exactly if the entries with a frame outnumber the free frames, and takes exactly that many |
| Pager.Pager.CloneDirectory | cpu/paging.c:265-301 | the kernel's tables are the same objects in the clone, all others are copies that no directory had before, and ownership is kept; it panics exactly if the entries with a frame under tables that are not the kernel's outnumber the free frames, and takes exactly that many |
| PagingBoot.Placement.Kmalloc | cpu/kheap.c:31-46 | the placement allocator hands out the end of used memory, page-aligned on request, and moves past it |
| PagingBoot.GetPage | cpu/paging.c:185-207 | the entry of the address; a table is made only if asked for and missing, and no other slot changes |
| PagingBoot.MapUsedMemory | cpu/paging.c:149-155 | the loop ends although its bound moves, at the first page that is not below it: every page up to a page behind the end of used memory is mapped to itself, and none beyond |
| PagingBoot.MapHeap | cpu/paging.c:158-159 | the heap pages get the frames that follow, and used memory ends where it did |
| PagingBoot.MappingOwned | cpu/paging.c:136-159 | after the loops every frame in use has exactly one owner, apart from frame 0 |
| PagingBoot.InitialisePaging | cpu/paging.c:115-159 | given enough memory: identity mapping of used memory and the page behind it, including the tables made on the way, heap pages, nothing else mapped, and ownership; the number of pages is bounded by where used memory ended before, and all frames but those and the heap's are free |
| AddressSpaces.SeesItsLineage | cpu/paging.c:265-301 | over any sequence of forks and stores a process sees its family's first space changed by its lineage's stores and the kernel's, and by no others |
| AddressSpaces.CloneLooks | cpu/paging.c:236-301 | every mapped page reads the same through the clone as through its source |
| AddressSpaces.KeptLooks | cpu/paging.c:236-301 | cloning does not change what any other directory shows |
| AddressSpaces.FramesApart | cpu/paging.c:79-98 | two pages map to one frame only through the same entry |
| AddressSpaces.WhoShares | cpu/paging.c:286-298 | a page's frame is shared between spaces if and only if the page is under a kernel table |
| AddressSpaces.ForkSpace | cpu/task.c:209-210 | cloning the directory refines the fork of the meaning: one more space that shows what its parent shows; it succeeds if and only if the free frames suffice for the parent's own pages |
| AddressSpaces.StoreWord | cpu/paging.c:185-194 | a store through a directory refines the store of the meaning: it shows in its own space, and in the others only under kernel tables |
| AddressSpaces.LoadWord | cpu/paging.c:185-194 | a load through a directory gives the word that the meaning shows in its space at that address |
| NumberFormat.DigitsRead | kernel/printf.c:86-91 | the digits read back in their base give the number |
| NumberFormat.DigitsFit | kernel/printf.c:54 | a 32-bit number has at most 32 digits, so the buffer of 66 does not overflow |
| NumberFormat.NumeralLength | kernel/printf.c:65-116 | the length is the larger of width and sign, prefix and digits or precision together |
| NumberFormat.NumeralReads | kernel/printf.c:86-116 | whatever zeros padding and precision add, the digits written read back as the magnitude |
| NumberFormat.MakeDigits | kernel/printf.c:86-91 | the loop fills the buffer with the digits in reverse |
| NumberFormat.TakeSign | kernel/printf.c:66-79 | sign and magnitude, also for the smallest number |
| NumberFormat.Number | kernel/printf.c:48-118 | number writes the numeral for every word, base, width, precision and flags, and answers a base out of range with null |
| NumberFormat.DecimalReads | kernel/printf.c:25-32 | skip_atoi reads a string of digits as its value and stops behind it |
| NumberFormat.UnsignedReadsBack | kernel/printf.c:25-118 | an unsigned number printed in base 10 without leading spaces is read back by skip_atoi |
| NumberFormat.SkipAtoi | kernel/printf.c:25-32 | the loop of skip_atoi reads the decimal at the position and gives the position behind it |
| Printf.TakeFlags | kernel/printf.c:141-161 | the flag loop reads all flags and stops at the first other character |
| Printf.TakeWidth | kernel/printf.c:163-175 | the width, written or taken from the arguments; a negative one means padding on the right |
| Printf.TakePrecision | kernel/printf.c:177-190 | the precision, at least 0 behind a point |
| Printf.PutChar | kernel/printf.c:203-210 | a character in a field of the width |
| Printf.PutString | kernel/printf.c:212-223 | a string in a field of the width |
| Printf.Convert | kernel/printf.c:199-284 | the conversion prints what its directive prints and takes its arguments; what that is FormatMeaning reads off the text |
| Printf.PrintDirective | kernel/printf.c:141-284 | one directive is read, rendered and left at its conversion character |
| Printf.PrintNext | kernel/printf.c:135-285 | one round of the loop, with the step back over a directive that breaks off, moves on and never past the NUL |
| Printf.Vsprintf | kernel/printf.c:120-288 | for every format and matching arguments: terminates, writes the concatenation of what the directives print, as FormatMeaning reads it, and a NUL, and returns its length |
| FormatRoundTrip.FormatRoundTrips | kernel/printf.c:135-197 | every sequence of directives that can be written down, with known conversions or unknown ones, is what vsprintf reads in it |
| FormatMeaning.IntegerPrinted | kernel/printf.c:250-284 | %d, %i, %u, %o, %x and %X, for every argument, flag, width, precision and qualifier, read off the text: sign, prefix, and the shortest numeral, in the base and case of the conversion, of the signed or unsigned number of 16 or 32 bits that the argument stands for, with zeros and spaces as flags, precision and width ask |
| FormatMeaning.PointerPrinted | kernel/printf.c:225-233 | %p prints the argument in base 16 in upper case, with zeros to 8 digits if no width is given |
| FormatMeaning.CharacterPrinted | kernel/printf.c:203-210 | %c prints the low byte of the argument at the left or right end of a field of the width |
| FormatMeaning.StringPrinted | kernel/printf.c:212-223 | %s prints the whole string, whatever the precision, at the left or right end of a field of the width |
| FormatMeaning.OthersPrinted | kernel/printf.c:245-272 | %% prints a percent sign, an unknown conversion a percent sign and itself, and neither takes an argument |
| FormatMeaning.BrokenOff | kernel/printf.c:266-271 | a percent sign at the end of the format prints itself once |
| FormatMeaning.StarWidth | kernel/printf.c:167-175 | a width taken from an argument works like one written down, a negative one like its absolute value with the flag - |
| FormatMeaning.StarPrecision | kernel/printf.c:183-190 | a precision taken from an argument works like one written down, a negative one like 0 |
| FormatMeaning.PrintsJoins | kernel/printf.c:135-285 | directives in a row print one after the other, each with the arguments that those in front of it leave over |
| FormatMeaning.LiteralsPrint | kernel/printf.c:136-139 | what is not a directive is printed as it is |
| FormatMeaning.InContext | kernel/printf.c:135-285 | a directive inside any format prints between the rest what it prints alone |
| FormatMeaning.AddressPrinted | kernel/printf.c:254-258 | %08x prints every word as eight digits in lower case that read as the word in base 16 |
| TextGrid.LaidKeeps | drivers/screen.c:86-93 | text laid out from a position changes nothing in front of it, so rows scrolled off never change |
| TextGrid.LaidJoins | drivers/screen.c:32-39 | texts printed one after the other lie as one text |
| TextGrid.OneLaid | drivers/screen.c:86-93 | a character other than a newline fills its cell, no other, and moves on by one; a newline fills none and moves on to the least multiple of 80 above |
| TextGrid.LineLaid | drivers/screen.c:32-39 | a text without newlines fills exactly as many cells from its place on as it has characters, in order and with the attribute |
| TextGrid.LinesLaid | drivers/screen.c:32-39 | from column 0 on, line k of a text stands at column 0 of the row behind the rows that the lines in front of it fill, and the text ends behind its last line |
| TextGrid.ShortRows | drivers/screen.c:86-88 | lines of at most 79 characters fill a row each, so that line k stands in row k |
| TextGrid.OthersKept | drivers/screen.c:32-39 | cells in which no line stands are left alone |
| TextGrid.ScrolledJustFar | drivers/screen.c:95-109 | the window moves down only, only as far as it must, and shows the position reached |
| TextGrid.PrintedIsLaid | drivers/screen.c:71-112 | printing with scrolling gives the grid of the text laid out without scrolling, seen through a window moved just far enough |
| TextGrid.PrintedOff | drivers/screen.c:75-80 | from a place off the screen the first character, or every one, becomes a complaint in the last cell |
| Screen.OffsetParts | drivers/screen.c:148-150 | row and column of an even offset lead back to it, and the row is on the screen exactly if the offset is |
| Screen.WindowScroll | drivers/screen.c:95-108 | scrolling the buffer is moving the window by a row |
| Screen.Scroll | drivers/screen.c:97-105 | every row moves up by one, and the last is blank |
| Screen.Screen.SetCursorOffset | drivers/screen.c:126-133 | the registers hold the low 16 bits of the cell number |
| Screen.Screen.PrintChar | drivers/screen.c:71-112 | on the screen, a character fills its cell and moves on, or a newline moves to the start of the next row, with the cursor on the screen again; off the screen an E fills the last cell and nothing moves |
| Screen.Screen.KprintAt | drivers/screen.c:21-40 | for every text and place, the screen is the window on the printed grid |
| Screen.Screen.Kprint | drivers/screen.c:42-44 | from the cursor, the grid is that of the text laid out without scrolling; a message without newlines fills exactly the cells from the cursor on, white on black, and the cursor ends behind it |
| Screen.Screen.KprintBackspace | drivers/screen.c:46-55 | the cell in front of the cursor is blanked and entered, except into a prompt; the console stays valid if and only if the cursor was not on the first cell |
| Screen.Screen.ClearScreen | drivers/screen.c:135-145 | every cell of the window becomes a space, and rows scrolled off stay |

## Left out

- The page-aligned branch of alloc (`cpu/kheap.c:275-286`): the gap in front can be too small for a header and a footer, and the slack is given away before the gap is cut.
- KernelHeap.KernelHeap.Alloc: the recursive call is written as a second search, since that one is proved to succeed; sums of addresses are taken not to pass 2^32; the index is taken to have two free slots, because insertion and removal touch the slot behind the last. What happens at the sizes left out by that is stated by HeapSpec.RequestWraps and HeapSpec.LimitWraps. An extension that leaves the last page mapped but without a frame writes to physical frame 0; the model then says that the heap is not valid.
- KernelMalloc.Kmalloc: the physical address that `kmalloc_int` looks up for its caller (`cpu/kheap.c:22-28`) is not part of the result.
- KernelHeap.KernelHeap.Free: the pointer is null or one that alloc gave out; other pointers meet assertions or undefined behaviour. Nothing is promised once the code has gone astray, because what it does then depends on physical frame 0.
- KernelHeap.KernelHeap.Expand: the frames come from a set of page numbers; that the page tables behind the first 4 MB of heap exist, and that a frame is free for each page, is not modelled; nor is the translation cache, which may keep a mapping that a frame was taken from.
- KernelHeap.KernelHeap.constructor: the index array is an object of its own and not a part of the heap's bytes; the four bytes in front of the heap's last 4 are its last slots and hold no magic number unless the index is nearly full.
- HeapTheorems.Ledger: the runs consist of calls that succeed and are safe; what the others do is stated by Alloc and Free.
- PagingBoot.InitialisePaging: directory and bit table are taken to lie below the given end of used memory; page fault handler, switching of directories and creation of the heap are not part of it.
- Pager.Pager.CloneDirectory: page tables and directories are objects beside physical memory, and their own addresses come from the heap in an order that is left open; the heap is taken to have room for them.
- AddressSpaces.CloneLooks: a page counts as mapped if its entry has a frame other than 0, so virtual page 0, which boot maps to frame 0, is not among the pages that can be seen.
- AddressSpaces.StoreWord: the processor's checks of the present and write flags, and its translation cache, are not modelled.
- FrameBitmap.FirstFrame: returns -1 where the code as written returns nothing.
- Saving and restoring of registers, user mode, stack relocation and `read_eip` in `cpu/task.c`: the context of a task is opaque.
- Interrupts inside sleep: every step is atomic.
- Printf.Vsprintf: the room in the caller's buffer is the caller's business; `%n` matches no argument list; field widths and precisions are not bounded to 32 bits.
- Precision of strings and the C standard's rules on precision and zero padding: the code does not follow them.
- Port input and output, keyboard, shell, symbol table, descriptor tables and boot code.
