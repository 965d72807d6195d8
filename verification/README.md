# Operating-system algorithms: models and proofs

A Dafny verification of the algorithms in this collection of operating-system projects: a contiguous
memory allocator, the banker's algorithm, a virtual memory manager with TLB and FIFO replacement, a
bounded buffer, a thread pool, five CPU schedulers over a linked list, and three sorts.
`dafny verify dfyconfig.toml` checks the whole project.

Programs that change state in place are classes and methods over arrays and linked nodes. Each method
is proved against a specification on values, and the theorems are proved about those specifications.
The two multithreaded programs are state machines in which every operation on a semaphore, the lock, a
slot or an index is one step of one thread.

| part | in memory | specification | theorems |
|---|---|---|---|
| allocator | `MemoryAllocator` | `BlockList` | `BlockTheorems`, `AllocatorTheorems`, `AllocatorOutcomes` |
| banker | `Banker` | `BankerModel` | `BankerTheorems`, `BankerOutcomes` |
| virtual memory | `VmManager` | `Paging`, `AddressMacros` | `PagingInvariant`, `PagingTheorems` |
| bounded buffer, thread pool | | `BoundedBuffer`, `ThreadPool` | the same and `BoundedBufferOrigins`, `ThreadPoolOrigins`, over `RingQueue`, `Counting`, `Locking` |
| FCFS, SJF, priority | `TaskList`, `Schedulers` | `ScheduleModel` | `ScheduleModel`, `ScheduleOrders` |
| round robin | `TaskList`, `RoundRobin` | `RoundRobinCursor`, `RoundRobinModel` | `RoundRobinExact`, `RoundRobinLink`, `RoundRobinFairness`, `RoundRobinSlices` |
| priority round robin | `TaskList`, `PriorityRoundRobin` | `PriorityTraces` | `PriorityTraces`, `RoundRobinSlices` |
| sorts | `ForkJoinSort` | `ForkJoinSort` | the same |
| sorts, their goroutines interleaved | | `Goroutines`, `ForkJoinPrograms` | `ForkJoinTheorems` |

## What the proofs found

* Allocator. Compaction frees blocks without updating the head of the list. It never frees the head
  block, because no reachable list has two adjacent holes; that invariant holds over all runs, for every
  memory size and request size, 0 and the largest machine word included. Best fit overlooks a hole of
  2^64 - 1 bytes and worst fit never serves a request of 0 bytes; apart from that the three strategies
  serve the same requests.
* Banker. A release that is turned down at a resource after the first is rolled back with an index that
  is one too low. The state is restored if and only if the rollback has nothing to undo but zeros
  (`BankerTheorems.RejectedReleaseRestores`). What was offered of the resource before the one that is
  refused is lost, and a safe state can become unsafe (`BankerTheorems.RejectedReleaseExample`). Runs
  without such a call keep every guarantee of the algorithm.
* Virtual memory. Evicting a page leaves its TLB entry behind. An access reads the backing store if and
  only if its page is not in the TLB after having been evicted (`PagingTheorems.ReadsStoreIff`); such a
  stale hit reads a byte of another page. Reads agree with the backing store in all runs if and only if
  there are as many frames as pages, or the TLB has one slot, or as many slots as there are frames
  (`PagingTheorems.TransparentIff`). With the 128 frames, 256 pages and 16 slots of the code they do not;
  but runs of any length that use at most 128 pages are right (`PagingTheorems.FewPagesReadStore`).
* FCFS, SJF, priority. Tasks are deleted by name. The run order is the stable sort of the arrivals if and
  only if of any two tasks with the same name the one added first has the larger key.
* Round robin. Whatever the names, the scheduler never follows a link into nothing, ends with an empty
  list, and gives no task more than its burst. It runs its list as a rotating queue if and only if each
  task that needs more turns than a namesake added before it just outlasts it: it needs one turn more,
  all tasks in front of it in the list that also outlast the namesake have that name too, and those
  behind the namesake finish earlier (`RoundRobinExact.QueueRunIff`). This is also exactly when every
  task gets its whole burst. Every deletion takes out the task that has just finished if and only if no
  task needs more turns than a namesake added before it; then the cursor always stays in the list. A turn
  leaves it on a deleted node exactly when the last task of the list finishes while another task at the
  head has its name (`RoundRobinLink.OffIff`).
* Sorts. As programs of goroutines, one read or write of an element at a time, the three sorts end under
  every scheduler and for all pivots, without an index out of range, with the one sorted permutation
  (`ForkJoinTheorems.SortsUnderAnyScheduler`).

## Model

| member | source | states |
|---|---|---|
| MemoryAllocator.MemBlock.constructor | Project-7/memory_allocator.c:18-41 | a new block has the given addresses and links, and no owner when the name is empty |
| MemoryAllocator.Allocator.constructor | Project-7/memory_allocator.c:205-214 | the initial state is one unused block that covers all of memory |
| MemoryAllocator.Allocator.InsertAfter | Project-7/memory_allocator.c:33-39 | linking a new block behind another keeps `prev` and `next` mutually inverse |
| MemoryAllocator.Allocator.SplitOff | Project-7/memory_allocator.c:97-98 | the first bytes of a block are cut off and the rest becomes a hole, with `size_t` arithmetic |
| MemoryAllocator.Allocator.Take | Project-7/memory_allocator.c:92-99 | the hole takes the name; a remainder, if any, becomes a hole behind it |
| MemoryAllocator.Allocator.Select | Project-7/memory_allocator.c:44-87 | the switch finds the block the strategy chooses, or there is none |
| MemoryAllocator.Allocator.FirstFit | Project-7/memory_allocator.c:47-56 | first fit is the first hole that is large enough |
| MemoryAllocator.Allocator.BestFit | Project-7/memory_allocator.c:57-69 | best fit is the earliest of the smallest adequate holes below SIZE_MAX |
| MemoryAllocator.Allocator.WorstFit | Project-7/memory_allocator.c:70-82 | worst fit is the earliest of the largest holes, if adequate; never for size 0 |
| MemoryAllocator.Allocator.Request | Project-7/memory_allocator.c:43-100 | the result code and the new block list of a request, for every size, name and strategy |
| MemoryAllocator.Allocator.AbsorbPrev | Project-7/memory_allocator.c:114-119 | unlinking the block before the cursor keeps the links consistent |
| MemoryAllocator.Allocator.MergeBack | Project-7/memory_allocator.c:113-125 | two holes in a row become one, and `mem` still points to the first block |
| MemoryAllocator.Allocator.ReleaseOne | Project-7/memory_allocator.c:107-125 | one turn of the release loop on the abstract list |
| MemoryAllocator.Allocator.Release | Project-7/memory_allocator.c:103-132 | release computes the merged list without the name's blocks; its flag tells whether there were any |
| MemoryAllocator.Allocator.SwapBack | Project-7/memory_allocator.c:138-144 | a used block moves in front of the hole before it; the bytes they cover stay the same |
| MemoryAllocator.Allocator.CompactOne | Project-7/memory_allocator.c:137-154 | one turn of the compaction loop, which never frees the first block |
| MemoryAllocator.Allocator.Compact | Project-7/memory_allocator.c:134-157 | compaction ends in the packed list with the head pointer still right, though it is never updated |
| MemoryAllocator.Acyclic | Project-7/memory_allocator.c:33-39 | consistent links rule out a cycle |
| BlockTheorems.SplitWords | Project-7/memory_allocator.c:97-98 | the wrapping word arithmetic of a split computes the mathematical bounds, also at address 0 |
| BlockTheorems.SwapWords | Project-7/memory_allocator.c:140-141 | the same for the swap of a hole and a used block |
| BlockTheorems.PlacedKeepsInv | Project-7/memory_allocator.c:92-99 | a granted request keeps the tiling and makes no two adjacent holes |
| BlockTheorems.PlacedIsRequested | Project-7/memory_allocator.c:88-99 | the chosen hole gives the specified outcome of a request |
| BlockTheorems.ReleaseRestIsCoalesce | Project-7/memory_allocator.c:106-127 | from any point on, the release loop folds the rest of the list onto what is behind its cursor |
| BlockTheorems.ReleaseCorrect | Project-7/memory_allocator.c:103-132 | the loop from the start computes the released list, and meets the name iff some block has it |
| BlockTheorems.ReleasedKeepsInv | Project-7/memory_allocator.c:103-132 | release keeps the tiling and leaves no two adjacent holes |
| BlockTheorems.CompactTurnReady | Project-7/memory_allocator.c:146-154 | a merge never happens at the second block, so compaction cannot free the first one |
| BlockTheorems.CompactRestIsCompacted | Project-7/memory_allocator.c:134-157 | from any point on, the compaction loop completes the compacted list |
| BlockTheorems.CompactedKeepsInv | Project-7/memory_allocator.c:134-157 | compaction keeps the tiling and leaves no two adjacent holes |
| AllocatorTheorems.ChosenOnce | Project-7/memory_allocator.c:46-82 | a strategy chooses at most one block |
| AllocatorTheorems.WhenServed | Project-7/memory_allocator.c:46-91 | exactly when each strategy finds a hole, sentinel values included |
| AllocatorTheorems.SameRequestsServed | Project-7/memory_allocator.c:46-91 | for sizes from 1 on and memory below SIZE_MAX all three strategies serve the same requests |
| AllocatorTheorems.RequestOwns | Project-7/memory_allocator.c:92-99 | a granted request takes exactly `size` consecutive unowned bytes; all other bytes keep their owner |
| AllocatorTheorems.ReleaseFrees | Project-7/memory_allocator.c:103-132 | release frees precisely the bytes of the name; every other byte keeps its owner |
| AllocatorTheorems.ReleasedMembers | Project-7/memory_allocator.c:103-132 | the used blocks after a release are those of other names, unchanged |
| AllocatorTheorems.ReleaseUnknown | Project-7/memory_allocator.c:128-131 | releasing an unknown name changes nothing |
| AllocatorTheorems.RequestThenRelease | Project-7/memory_allocator.c:43-132 | requesting under a fresh name and releasing it restores the exact block list |
| AllocatorTheorems.CompactionShape | Project-7/memory_allocator.c:134-157 | used blocks first, same order, names and sizes; then at most one hole with all free space |
| AllocatorTheorems.ServedAfterCompaction | Project-7/memory_allocator.c:46-91 | after compaction a request is served iff its size is at most the total free space |
| AllocatorTheorems.StepKeepsInv | Project-7/memory_allocator.c:43-157 | every operation keeps the invariant |
| AllocatorTheorems.RunKeepsInv | Project-7/memory_allocator.c:226-253 | over every run the blocks tile memory, no two holes are adjacent, used and free space add up |
| AllocatorOutcomes.FirstFitTakes | Project-7/memory_allocator.c:47-99 | a granted 'F' request takes the front of an adequate hole; every hole before it is smaller than the request |
| AllocatorOutcomes.BestFitTakes | Project-7/memory_allocator.c:57-99 | a granted 'B' request takes the front of an adequate hole below 2^64 - 1 bytes; no adequate hole is smaller, and the earlier ones are larger |
| AllocatorOutcomes.WorstFitTakes | Project-7/memory_allocator.c:70-99 | a granted 'W' request takes the front of an adequate hole; no hole is larger, and the earlier ones are smaller |
| AllocatorOutcomes.RequestCodes | Project-7/memory_allocator.c:43-100 | when the answer is 0, -1 or -2, in terms of the strategy and the sizes of the holes; a refusal changes nothing |
| BankerModel.HeldMonotone | Project-6/banker.c:37-39 | more finished customers hold at least as much |
| BankerModel.StuckMeansUnsafe | Project-6/banker.c:31-46 | exchange argument: if nobody outside a reached set can finish, no order of all customers works |
| BankerModel.CompletesSnoc | Project-6/banker.c:34-40 | a customer that can finish extends any order of completion |
| BankerModel.RollingEnds | Project-6/banker.c:117-121 | the faulty rollback starts from the partly returned state |
| BankerModel.GrantedNonNegative | Project-6/banker.c:83-87 | a request in range keeps allocations non-negative |
| Banker.Bank.constructor | Project-6/banker.c:204-226 | initially nothing is allocated and every need is the maximum |
| Banker.Bank.IsLeq | Project-6/banker.c:18-25 | the comparison holds iff it holds for every resource |
| Banker.Bank.Finish | Project-6/banker.c:35-39 | finishing a customer extends the order of completion and the work vector |
| Banker.Bank.IsSafe | Project-6/banker.c:27-48 | returns true iff some order of all customers lets each finish |
| Banker.Bank.TakeBack | Project-6/banker.c:75-80 | the rollback of a request turned down half-way restores the state |
| Banker.Bank.TakeBackAll | Project-6/banker.c:88-95 | the rollback of an unsafe request restores the state |
| Banker.Bank.HandOut | Project-6/banker.c:59-87 | the loop grants all resources, or fails with the code of the first bad one and undoes everything |
| Banker.Bank.RequestResources | Project-6/banker.c:54-99 | result code and new state of a request: granted iff in range and safe afterwards, else unchanged |
| Banker.Bank.RollBackRelease | Project-6/banker.c:117-121 | what the rollback with the index one too low really leaves behind |
| Banker.Bank.ReleaseResources | Project-6/banker.c:106-129 | result code and new state of a release, the faulty rollback included |
| BankerTheorems.SafeBeforeGrant | Project-6/banker.c:83-99 | a state that is safe after a grant was safe before it |
| BankerTheorems.CompletesAfterReturn | Project-6/banker.c:124-126 | an accepted release keeps every order of completion |
| BankerTheorems.SafeAfterReturn | Project-6/banker.c:124-126 | an accepted release keeps the state safe |
| BankerTheorems.TotalsKept | Project-6/banker.c:83-126 | grants and returns conserve available plus allocated, per resource |
| BankerTheorems.WorkBounded | Project-6/banker.c:37-39 | `work` lies between what is available and the resource total |
| BankerTheorems.RejectedReleaseRestores | Project-6/banker.c:117-122 | a rejected release restores the state iff its rollback has nothing to undo but zeros |
| BankerTheorems.RestoredForAllStrays | Project-6/banker.c:117-122 | whatever the word in front of the argument is, a rejected release restores the state iff it is rejected at resource 0 |
| BankerTheorems.RejectedReleaseTotals | Project-6/banker.c:117-122 | what the rollback does to the total of every resource, the one changed by the stray word included |
| BankerTheorems.RejectedReleaseConservesIff | Project-6/banker.c:117-122 | resources are conserved iff nothing was offered of the resource before and the stray word is zero or outside the matrix |
| BankerTheorems.RejectedReleaseLoses | Project-6/banker.c:117-122 | the resource before the rejected one loses the offered amount from its total |
| BankerTheorems.RejectedReleaseExample | Project-6/banker.c:117-122 | a concrete rejected release after which one unit is gone and a safe state is unsafe |
| BankerTheorems.StepKeepsInv | Project-6/banker.c:54-129 | each call without a harmful rollback keeps conservation, the bound by the maximum, and safety; a grant implies a safe start |
| BankerTheorems.RunKeepsInv | Project-6/banker.c:54-129 | the same over every run from the initial state without a harmful rollback |
| BankerTheorems.UnsafeStartGrantsNothing | Project-6/banker.c:88-99 | from an unsafe initial state, in runs without a harmful rollback, no request is ever granted and nothing ever changes |
| BankerTheorems.RunKeepsProper | Project-6/banker.c:54-129 | no amount ever becomes negative in a run without a harmful rollback |
| BankerTheorems.RunInBounds | Project-6/banker.c:37-39 | every partial sum of the safety check stays within the initial amounts, so `int` does not overflow |
| BankerTheorems.NextIsGranted | Project-6/banker.c:54-99 | the next customer of a safe order is granted its whole need |
| BankerTheorems.ThenReturnsAll | Project-6/banker.c:106-129 | and can then return everything, the order staying valid |
| BankerTheorems.SafeStateCanBeDrained | Project-6/banker.c:54-129 | from every safe state accepted calls take all customers to zero need and zero allocation |
| BankerOutcomes.SafeIffAllFinish | Project-6/banker.c:27-48 | a state is safe iff in some order all customers can finish, each finding its need in what is available and was given back |
| BankerOutcomes.RequestOutcome | Project-6/banker.c:54-99 | a request is granted, with exactly its amounts, iff the customer exists, no amount is negative or exceeds need or available, and the state with the amounts moved is safe |
| BankerOutcomes.RequestCodes | Project-6/banker.c:54-99 | when a request is refused with -1, -2 or -3, in terms of the first bad amount |
| BankerOutcomes.ReleaseOutcome | Project-6/banker.c:106-129 | a release is accepted, with exactly its amounts, iff the customer exists and holds every amount |
| BankerOutcomes.RejectedReleaseState | Project-6/banker.c:113-124 | every entry of the state after a release is turned down at its first bad amount |
| AddressMacros.MacrosAgree | Project-8/vm_manager.c:18-20 | the masks and shifts compute page, offset and physical address of the model |
| AddressMacros.HighBits | Project-8/vm_manager.c:18 | a mask that ends in zeros works on the bits above them |
| AddressMacros.LowBits | Project-8/vm_manager.c:19 | a mask of ones keeps the lowest bits |
| AddressMacros.OrAdds | Project-8/vm_manager.c:20 | a shifted frame number and an offset do not share a bit |
| Paging.Lookup | Project-8/vm_manager.c:61-69 | a found frame is that of a valid entry for the page; none is found iff there is none |
| PagingInvariant.ResidentPages | Project-8/vm_manager.c:38-59 | the resident pages are exactly those of the last faults, as many as frames, pairwise distinct |
| PagingInvariant.FramesInjective | Project-8/vm_manager.c:44-49 | two resident pages are never in the same frame, so stopping at the first victim is enough |
| PagingInvariant.ResidentContents | Project-8/vm_manager.c:55-57 | the frame of a resident page holds that page of the backing store |
| PagingInvariant.VictimIsOldest | Project-8/vm_manager.c:38-51 | the victim is the page loaded `frames` faults ago, and only that page is invalidated |
| PagingInvariant.FaultKeepsInv | Project-8/vm_manager.c:38-59 | a page fault keeps the invariant of page table, frames and contents |
| PagingInvariant.WrappedCounterSharesFrame | Project-8/vm_manager.c:40-43 | once the 32-bit counter wraps, two resident pages can share a frame: the bound on faults is needed |
| PagingInvariant.LookupFinds | Project-8/vm_manager.c:61-77 | the TLB finds a page iff it is among the last misses, and gives the frame in the page table |
| PagingInvariant.EntriesDistinct | Project-8/vm_manager.c:71-77 | valid entries have distinct pages and the frame the page table records, even after evictions |
| PagingInvariant.MissKeepsTlbInv | Project-8/vm_manager.c:85-92 | a miss keeps the TLB invariant |
| PagingTheorems.RunKeepsInv | Project-8/vm_manager.c:80-94 | both invariants over every run of at most 2^32 faults |
| PagingTheorems.CountersAreRight | Project-8/vm_manager.c:36-94 | over every run of at most 2^32 faults the three counters are the numbers of accesses, TLB misses and page faults, modulo 2^32 |
| PagingTheorems.FreshReadsStore | Project-8/vm_manager.c:80-98 | an access whose TLB entry is not stale reads the backing store at the address modulo 65536 |
| PagingTheorems.SameAsPlain | Project-8/vm_manager.c:80-94 | runs without stale hits give the addresses and the fault count of a manager without TLB |
| PagingTheorems.AlwaysPlainIff | Project-8/vm_manager.c:80-94 | page table, memory and fault count are those of a manager without TLB throughout a run iff no hit in it is stale |
| PagingTheorems.StaleReadsOther | Project-8/vm_manager.c:85-98 | a stale hit reads the byte at the same offset of another page |
| PagingTheorems.ReadsStoreIff | Project-8/vm_manager.c:80-98 | for every run and access: it reads the backing store, whatever is in it, iff it is no stale hit |
| PagingTheorems.FewFaultsNeverStale | Project-8/vm_manager.c:38-51 | no entry is stale as long as no fault has evicted a page |
| PagingTheorems.FewPagesFewFaults | Project-8/vm_manager.c:85-89 | a run that uses no more pages than there are frames loads each of them once |
| PagingTheorems.FewPagesReadStore | Project-8/vm_manager.c:80-98 | every access of such a run, however long, reads the backing store |
| PagingTheorems.FewPagesSameAsPlain | Project-8/vm_manager.c:80-94 | such a run gives the addresses and the fault count of a manager without TLB |
| PagingTheorems.EnoughFrames | Project-8/vm_manager.c:80-98 | with a frame for every page every access of every run, however long, reads the backing store |
| PagingTheorems.NoEviction | Project-8/vm_manager.c:38-51 | with a frame for every page nothing is ever evicted |
| PagingTheorems.SafeSizesNeverStale | Project-8/vm_manager.c:44-49 | no entry is ever stale when frames suffice, or there is one slot, or as many slots as frames |
| PagingTheorems.TrapIsStale | Project-8/vm_manager.c:44-49 | for all other sizes a run of frames + 2 accesses leaves a stale entry |
| PagingTheorems.TrapReadsWrong | Project-8/vm_manager.c:85-98 | and the next access, whatever is in the backing store, reads a byte of another page |
| PagingTheorems.TransparentIff | Project-8/vm_manager.c:80-98 | every run reads the backing store iff frames suffice, or one slot, or slots equal to frames |
| VmManager.Manager.constructor | Project-8/vm_manager.c:100-119 | initially no page is resident and no entry is valid |
| VmManager.Manager.SelectVictimFrame | Project-8/vm_manager.c:38-51 | the FIFO victim frame, its page invalidated |
| VmManager.Manager.HandlePageFault | Project-8/vm_manager.c:53-59 | the page is in the victim's frame, and the table, the valid bit and the counter say so |
| VmManager.Manager.CheckTlb | Project-8/vm_manager.c:61-69 | the linear search computes the lookup |
| VmManager.Manager.UpdateTlb | Project-8/vm_manager.c:71-77 | the next slot in FIFO order is overwritten |
| VmManager.Manager.TranslateAddress | Project-8/vm_manager.c:80-94 | the whole new state and the physical address of an access |
| VmManager.Manager.AccessMemory | Project-8/vm_manager.c:96-98 | the byte at the physical address |
| RingQueue.TailIsFree | Project-5-2/buffer.c:9 | with one spare slot the tail is never on an unread value |
| RingQueue.Put | Project-5-2/buffer.c:21-22 | moving the tail after the write appends to the queue |
| RingQueue.Take | Project-5-2/buffer.c:33-34 | the slot at the head holds the oldest value, and moving the head removes it |
| RingQueue.FullTest | Project-5-1/threadpool.c:39 | the test on the indices holds iff the queue has as many elements as it may |
| BoundedBuffer.InitInv | Project-5-2/buffer.c:67-72 | the initial state satisfies the invariant |
| BoundedBuffer.NextKeepsInv | Project-5-2/buffer.c:18-65 | every step of every thread, and every cancellation in sleep or sem_wait, keeps the invariant |
| BoundedBuffer.RunKeepsInv | Project-5-2/buffer.c:18-72 | the invariant holds over every run of any number of threads |
| BoundedBuffer.Guarantees | Project-5-2/buffer.c:18-38 | removed values are a prefix of the inserted ones, one thread in the critical section, tokens add up to the size |
| BoundedBuffer.SlotsAreRight | Project-5-2/buffer.c:21-33 | no unread slot is overwritten, and a consumer reads the oldest unread value |
| BoundedBuffer.NoDeadlock | Project-5-2/buffer.c:18-65 | with a live producer and a live consumer some thread can step |
| BoundedBufferOrigins.ProducerHoldsItsNumber | Project-5-2/buffer.c:40-46 | over every run a producer on its way into the buffer has the number it drew last |
| BoundedBufferOrigins.InsertsTheDrawnNumber | Project-5-2/buffer.c:18-26 | the buffer is filled only by a producer that moves the tail, and with the number it drew last |
| BoundedBufferOrigins.NumbersAccountedFor | Project-5-2/buffer.c:18-53 | over every run each number drawn has been inserted, is with its producer, or was lost with a producer cancelled in its wait, as often in all as it was drawn |
| ThreadPool.InitInv | Project-5-1/threadpool.c:92-98 | the initial state satisfies the invariant |
| ThreadPool.NextKeepsInv | Project-5-1/threadpool.c:37-89 | every step, and cancellation of a waiting worker, keeps the invariant |
| ThreadPool.RunKeepsInv | Project-5-1/threadpool.c:37-98 | the invariant holds over every run of any number of submitters and workers |
| ThreadPool.AcceptedTasksAccountedFor | Project-5-1/threadpool.c:50-67 | tasks leave in the order accepted, and each accepted task is in exactly one place |
| ThreadPool.QueueNeverMisused | Project-5-1/threadpool.c:37-56 | the unchecked dequeue never reads an empty slot; a submission is refused iff the queue is full |
| ThreadPool.WorkGetsDone | Project-5-1/threadpool.c:59-67 | while accepted work remains and a worker lives, some thread can step |
| ThreadPoolOrigins.SubmitterHoldsItsTask | Project-5-1/threadpool.c:79-84 | over every run a submitter has the task of its own latest call |
| ThreadPoolOrigins.AcceptsTheSubmittedTask | Project-5-1/threadpool.c:37-47 | the queue grows only by a submitter that has found room, and by the task of its latest call |
| ThreadPoolOrigins.SubmissionsAccountedFor | Project-5-1/threadpool.c:37-89 | over every run each submitted task is accepted, refused or still with its submitter, as often in all as it was submitted |
| ThreadPoolOrigins.OnlySubmittedTasksRun | Project-5-1/threadpool.c:37-89 | only submitted tasks are accepted and executed, none more often than it was submitted |
| TaskList.Task.constructor | Project-4/schedule_rr.c:14-20 | a new task has its whole burst left |
| TaskList.Acyclic | Project-4/list.c:14-20 | links that end in null rule out a cycle |
| TaskList.List.Insert | Project-4/list.c:14-20 | the new task becomes the head |
| TaskList.List.Delete | Project-4/list.c:23-40 | the first task of that name leaves the list; its node keeps its own link |
| ScheduleModel.PickUnique | Project-4/schedule_sjf.c:27-37 | the least key with the last position determines the pick |
| ScheduleModel.OrderIsStableSortIff | Project-4/schedule_sjf.c:27-46 | the run order is the stable sort of the arrivals iff names repeat only compatibly |
| ScheduleModel.RunsTwice | Project-4/list.c:23-40 | if the deletion by name hits another task, the picked one runs twice in a row and the other never |
| ScheduleModel.FcfsIsArrivalOrderIff | Project-4/schedule_fcfs.c:27-45 | FCFS runs in arrival order iff names are distinct |
| ScheduleModel.FcfsRepeats | Project-4/schedule_fcfs.c:40-44 | if its name repeats, the oldest task runs twice in a row and the newest of that name never |
| ScheduleModel.MoveToFront | Project-4/schedule_sjf.c:27-46 | moving a shortest task to the front does not increase the total waiting time |
| ScheduleModel.SortedWaitsLeast | Project-4/schedule_sjf.c:27-46 | sorted by burst, tasks wait no longer in total than in any other order |
| ScheduleModel.SjfWaitsLeast | Project-4/schedule_sjf.c:27-46 | if names repeat compatibly, the SJF order has minimum total waiting time among all orders of the same tasks |
| ScheduleModel.SjfWaitsLeastIff | Project-4/schedule_sjf.c:27-46 | the SJF order is such an order of the same tasks, with the least waiting time, iff names repeat compatibly |
| ScheduleModel.RunsEachOnceIff | Project-4/list.c:23-40 | every task runs, and just once, iff names repeat compatibly |
| ScheduleOrders.PriorityOrderIff | Project-4/schedule_priority.c:27-46 | the run order is from high to low priority, equal priorities in the order of adding, iff of two namesakes the newer has the higher priority |
| ScheduleOrders.SjfOrderIff | Project-4/schedule_sjf.c:27-46 | the run order is from short to long, equal bursts in the order of adding, iff of two namesakes the newer is the shorter |
| ScheduleOrders.FcfsOrderIff | Project-4/schedule_fcfs.c:27-45 | the run order is that of adding iff all names differ |
| Schedulers.Scheduler.Add | Project-4/schedule_sjf.c:12-22 | the new task is in front of the earlier ones |
| Schedulers.Scheduler.PickLast | Project-4/schedule_fcfs.c:27-36 | FCFS picks the last node of the list |
| Schedulers.Scheduler.PickShortest | Project-4/schedule_sjf.c:27-37 | SJF picks the last of the shortest tasks in the list, that is the earliest added |
| Schedulers.Scheduler.PickHighest | Project-4/schedule_priority.c:27-37 | the picked task has at least the priority of every task in the list, and more than those behind it |
| Schedulers.Scheduler.RunNext | Project-4/schedule_sjf.c:42-44 | the picked task runs for its whole burst, and the first of its name is deleted |
| Schedulers.Scheduler.Schedule | Project-4/schedule_priority.c:40-46 | the loop runs the tasks in the specified order, whatever the names, each for its whole burst |
| RoundRobinModel.QueueRunsInRounds | Project-4/schedule_rr.c:35-46 | a rotating queue runs in rounds, always in the order of the list |
| RoundRobinFairness.BetweenSlices | Project-4/schedule_rr.c:35-46 | between two consecutive slices of one task every other unfinished task has exactly one slice, a finished one none |
| RoundRobinFairness.NextSliceOfHead | Project-4/schedule_rr.c:37-45 | the next slice of a task comes after one slice of each other task in the queue |
| RoundRobinModel.RunsItsBurst | Project-4/schedule_rr.c:39-41 | each task runs for exactly its burst, in as many slices as the quantum asks for |
| RoundRobinModel.OneJob | Project-4/schedule_rr.c:39-41 | for tasks that differ these totals are those of the one job |
| RoundRobinSlices.QueueSlices | Project-4/schedule_rr.c:39-41 | in the run of the queue the slices of a task are its burst cut into quanta, in order |
| RoundRobinSlices.QuantaShape | Project-4/schedule_rr.c:39 | all slices but the last are ten units long, the last is what the others leave, at most ten, and positive if the burst is |
| RoundRobinSlices.FirstRound | Project-4/schedule_rr.c:35-46 | the first round goes through the list from its head |
| RoundRobinSlices.ListSlicesIff | Project-4/schedule_rr.c:35-46 | for the list with its cursor the slices of every task are its burst in quanta iff the names fit |
| RoundRobinSlices.TraceSlicesIff | Project-4/schedule_priority_rr.c:37-48 | in the whole trace the slices of the tasks of a priority are their bursts in quanta iff their names fit |
| RoundRobinModel.CursorMoves | Project-4/schedule_rr.c:30 | moving the cursor rotates the list seen from it |
| RoundRobinModel.CursorAfterDeletion | Project-4/schedule_rr.c:42-44 | deleting the task that has run leaves the cursor at the same next task |
| RoundRobinCursor.Next | Project-4/schedule_rr.c:37-45 | a turn leaves the cursor in the list, or on a deleted node whose name the last task has, and the loop gets nearer its end |
| RoundRobinLink.OffIff | Project-4/schedule_rr.c:28-32 | a turn leaves `next_node` on a deleted node iff the last task finishes and the head, another task, has its name |
| RoundRobinLink.OrderedStaysOn | Project-4/schedule_rr.c:35-46 | `next_node` never leaves the list if no task needs more turns than a namesake further down |
| RoundRobinLink.DistinctNamesStayOn | Project-4/schedule_rr.c:35-46 | nor if no two tasks have the same name |
| RoundRobinLink.HarmlessStaysOnIff | Project-4/schedule_rr.c:35-46 | for lists that run as a queue, from any cursor, it never leaves the list iff every deletion is right |
| RoundRobinLink.FitStaysOnIff | Project-4/schedule_rr.c:35-46 | the same from the head, in terms of names and turns |
| RoundRobinLink.LeavesTheList | Project-4/schedule_rr.c:42-44 | a concrete list in which it is left on a deleted node while the list is not empty |
| RoundRobinCursor.LoyalIff | Project-4/schedule_rr.c:42-44 | every deletion takes out the finished task iff of two namesakes the earlier added needs at least as many turns |
| RoundRobinCursor.LoyalIffFrom | Project-4/schedule_rr.c:35-46 | the same from any position of the cursor |
| RoundRobinExact.QueueRunIff | Project-4/schedule_rr.c:35-46 | whatever the names, the list with its cursor runs as a rotating queue iff the names fit |
| RoundRobinExact.QueueRunIffFrom | Project-4/schedule_rr.c:35-46 | the same from any position of the cursor |
| RoundRobinExact.ChainIff | Project-4/schedule_rr.c:30-44 | the same when the cursor stands on a deleted node |
| RoundRobinExact.RoundsIff | Project-4/schedule_rr.c:35-46 | it runs in rounds iff the names fit |
| RoundRobinExact.FullBurstsIff | Project-4/schedule_rr.c:39-43 | every task gets its whole burst iff the names fit |
| RoundRobinExact.LoyalIsHarmless | Project-4/schedule_rr.c:42-44 | if every deletion is right, the names do no harm |
| RoundRobinExact.HarmlessNotLoyal | Project-4/schedule_rr.c:42-44 | a list that runs as a queue although a deletion hits the wrong task |
| RoundRobinCursor.NeverMoreThanItsBurst | Project-4/schedule_rr.c:39-41 | no task runs for more than its burst, whatever the names |
| RoundRobinCursor.LosesToItsNamesake | Project-4/schedule_rr.c:42-44 | a concrete list in which a task of burst 30 runs for 20 units only |
| RoundRobin.Scheduler.Add | Project-4/schedule_rr.c:13-23 | the new task is in front of the earlier ones, its whole burst left |
| RoundRobin.Scheduler.PickNextTask | Project-4/schedule_rr.c:28-32 | the task under the cursor, even on a deleted node; the cursor is then in the list |
| RoundRobin.Scheduler.RunSlice | Project-4/schedule_rr.c:39-41 | the slice is the quantum or what is left, and only that task changes |
| RoundRobin.Scheduler.Finish | Project-4/schedule_rr.c:43 | where the cursor stands when the deletion hits any node, the one under the cursor included |
| RoundRobin.Scheduler.RunNext | Project-4/schedule_rr.c:37-45 | one turn of the loop is one step of the list with its cursor |
| RoundRobin.Scheduler.Schedule | Project-4/schedule_rr.c:35-46 | whatever the names the loop ends with an empty list and the specified slices |
| PriorityTraces.QueueTraceIff | Project-4/schedule_priority_rr.c:35-49 | the trace is that of rotating queues, from high to low priority, iff the names fit within each priority |
| PriorityTraces.QueueTraceGivesBursts | Project-4/schedule_priority_rr.c:37-48 | in the trace of rotating queues each task has its burst, in ceil(burst / quantum) slices |
| PriorityTraces.TraceGivesBursts | Project-4/schedule_priority_rr.c:37-48 | so it has in the scheduler's trace, if the names fit |
| PriorityTraces.BurstsIff | Project-4/schedule_priority_rr.c:37-48 | the tasks of a priority get their bursts in the whole trace iff their names fit |
| PriorityTraces.TraceFalls | Project-4/schedule_priority_rr.c:37 | whatever the names, no task runs before all of higher priority are done |
| PriorityRoundRobin.Scheduler.Add | Project-4/schedule_priority_rr.c:13-23 | the task joins the list of its priority and no other list changes |
| PriorityRoundRobin.Scheduler.RunPriority | Project-4/schedule_priority_rr.c:38-47 | running one list empties it and leaves those of lower priority as they were |
| PriorityRoundRobin.Scheduler.Schedule | Project-4/schedule_priority_rr.c:35-49 | the trace is that of the lists from high to low priority, priorities never rise in it, and the lists of priority 1 to 10 end empty |
| ForkJoinSort.SortIsUnique | Project-3-2/sort.go:26-108 | a sequence has only one sorted permutation, so the three sorts agree for every pivot and every order of the halves |
| ForkJoinSort.OrdinarySort | Project-3-2/sort.go:26-38 | selection sort sorts its slice in place and touches nothing else |
| ForkJoinSort.Partition | Project-3-2/sort.go:86-96 | smaller elements end up before the pivot, the others behind it, for any pivot |
| ForkJoinSort.PartitionSorted | Project-3-2/sort.go:97-107 | sorting both sides of a partition sorts the whole |
| ForkJoinSort.QuickSort | Project-3-2/sort.go:81-108 | quick sort sorts its slice in place and touches nothing else |
| ForkJoinSort.QuickSortSides | Project-3-2/sort.go:97-107 | in either order the two halves are sorted and the pivot stays |
| ForkJoinSort.MergedSorts | Project-3-2/sort.go:57-74 | the merge of sorted halves is sorted |
| ForkJoinSort.MergedHolds | Project-3-2/sort.go:57-74 | the merge holds exactly the elements of both halves |
| ForkJoinSort.MergeOut | Project-3-2/sort.go:57-74 | the loops compute the merge of the two halves |
| ForkJoinSort.Merge | Project-3-2/sort.go:57-77 | the merge is copied back over the slice |
| ForkJoinSort.MergeSort | Project-3-2/sort.go:40-79 | merge sort sorts its slice in place and touches nothing else |
| ForkJoinSort.MergeSortHalves | Project-3-2/sort.go:46-56 | in either order each half is sorted within its own slice |
| Goroutines.ForkEnds | Project-3-2/sort.go:97-107 | two goroutines on slices that do not overlap do, under every scheduler, what each does alone |
| Goroutines.RunEnds | Project-3-2/sort.go:46-56 | a program that ends does so on every run, without a panic, and can go on until it is done |
| ForkJoinTheorems.SelectionEnds | Project-3-2/sort.go:26-38 | selection sort, by single reads and writes, ends with the sorted slice |
| ForkJoinTheorems.PartitioningEnds | Project-3-2/sort.go:90-107 | the partition loop and the two goroutines end with the sorted slice, from any point of the loop |
| ForkJoinTheorems.QuickEnds | Project-3-2/sort.go:81-108 | quick sort ends with the sorted slice under every scheduler and for all pivots |
| ForkJoinTheorems.MergingEnds | Project-3-2/sort.go:57-77 | the merge loops and the copy end with the merge of the halves, from any point |
| ForkJoinTheorems.MergeSortingEnds | Project-3-2/sort.go:40-79 | merge sort ends with the sorted slice under every scheduler |
| ForkJoinTheorems.SortsUnderAnyScheduler | Project-3-2/sort.go:26-108 | every run of each sort is bounded, meets no panic, can go on until it is done, and leaves the one sorted permutation |
| ForkJoinTheorems.SortsAgree | Project-3-2/sort.go:26-108 | any two of the sorts under any two schedulers leave the same slice |

## Where the code is followed rather than the documentation

* The rollback of `release_resources` (Project-6/banker.c:119) is modelled as written. Its last turn reads
  the word in front of the `release` argument and writes the word in front of the customer's row. The
  first is the parameter `stray`; the second is the last entry of the row before, or the field `outside`.
* `release_resources` does not add to `need` again, so allocation plus need is at most the maximum.
* Request sizes and memory sizes are 64-bit words with wrap-around, and 0 and 2^64 - 1 are allowed.
* Sizes that the code fixes by constants (customers, resources, frames, TLB slots, buffer and queue size,
  numbers of threads) are arbitrary; the number of pages and the page size are those of the code.

## Left out

- PagingTheorems.RunKeepsInv: covers runs of at most 2^32 faults, because the counter that picks the frame then wraps; PagingInvariant.WrappedCounterSharesFrame shows that the invariant fails with the next fault. PagingTheorems.ReadsStoreIff, PagingTheorems.TransparentIff, PagingTheorems.FreshReadsStore, PagingTheorems.SameAsPlain, PagingTheorems.AlwaysPlainIff and PagingTheorems.CountersAreRight have the same bound.
- AddressMacros.MacrosAgree: the physical address is that of the model for fewer than 2^24 frames, so that it fits into 32 bits.
- RoundRobinExact.QueueRunIff: for namesakes that do not fit the trace is that of `RunList`; no simpler description of it is given beyond the bounds that hold for all names.
- RoundRobinLink.HarmlessStaysOnIff: for lists whose names do not fit, whether the cursor ever leaves the list is stated for each turn (RoundRobinLink.OffIff) and, one way, for whole runs (RoundRobinLink.OrderedStaysOn).
- PriorityRoundRobin.Scheduler.Add: takes priorities 0 to 10, the indices of the array in the code.
- ForkJoinSort.QuickSortSides: the method over an array runs the two goroutines one after the other, in either order, and so does ForkJoinSort.MergeSortHalves; all interleavings of their reads and writes are covered by ForkJoinTheorems, on programs that work on slices as values.
- BankerTheorems.RunInBounds: covers initial amounts that are not negative; overflow of `int` is not modelled otherwise.
- BankerTheorems.RunKeepsInv: covers runs in which no release is rolled back harmfully; what such a rollback does is stated by RejectedReleaseRestores and RejectedReleaseLoses.
- BoundedBuffer.NextKeepsInv: threads are cancelled in sleep and in sem_wait only; printing as a cancellation point is not modelled.
- ThreadPool.NextKeepsInv: workers are cancelled in sem_wait only; cancellation inside a running task is not modelled, and a task is an opaque value.
- The buffer and the pool are state machines on values, not objects on a heap: their threads share one state.
- Fairness and liveness under a scheduler of threads, beyond the absence of deadlock.
- Destruction of the buffer, the pool and the allocator's list, and failure of malloc.
- Input, output, parsing of commands, files and printed statistics; the inputs are parameters.
- The threads, locks and semaphores are those of their specification; how they are implemented is not modelled.
- Projects 1, 2-1, 2-2 and 3-1: kernel modules, the shell, and a sort that calls the library.
