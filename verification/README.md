# learnK in Dafny

A model of the data structures and state machines in the kernel modules of this repository, with proofs about
every run of them. `dafny verify dfyconfig.toml` checks all of it.

| file | models |
|---|---|
| `GlobalFifo.dfy`, `GlobalFifoSafety.dfy`, `GlobalFifoTheorems.dfy`, `GlobalFifoProgress.dfy`, `GlobalFifoCalls.dfy` | the blocking FIFO of `src/globalfifo/main.c` as a step relation over any number of threads; the invariant and its preservation; the theorems; that it settles; whole calls, from arguments to results |
| `FifoBuffer.dfy` | the in-place byte moves of the same file |
| `ListRing.dfy`, `Containers.dfy`, `ContainerSpec.dfy`, `ListText.dfy` | the circular list, the containers and the printer of `src/list/container.c` on the heap; runs of calls; printing and parsing |
| `TreeShape.dfy`, `SearchTree.dfy` | the ordered tree of `src/rbtree/main.c` and `src/hook/khook.c`, linked, rotated and erased in place |
| `ProbeProtocol.dfy`, `ProbePool.dfy` | the pairing of entries and returns in `src/hook/khook.c` |
| `CapacityGrowth.dfy`, `GrowString.dfy`, `StringSearch.dfy` | the growable string of `src/string/main.c` |
| `RamBlock.dfy` | the RAM block device of `src/bdev/main.c` |
| `SeekDevice.dfy` | the seekable device of `src/cdev/main.c` |
| `ChainSpec.dfy`, `HashTable.dfy` | the chained hash table of `src/map/map.c`: what it means, and its hlist links on the heap |
| `RecordCodec.dfy` | the record codec of `src/dump/dumps.c` |
| `Bytes.dfy`, `Options.dfy` | byte-sequence operations shared by the devices; an optional value |

## How the FIFO is modelled

A step is what one thread does between two points where another may run: one mutex operation, one change of its own
run state, one copy, one move of the buffer, one change of `current_len`, one wake-up. A schedule is any list of
(thread, action) pairs; an action that is not enabled changes nothing, which is a blocked thread. So a statement
about all schedules is a statement about all interleavings, blocked threads included. Copies may fail, signals may
arrive at any time. `log` is the history of the successful operations in mutex order, and `Replay` is a sequential
FIFO, defined apart from the driver; the invariant says that the driver refines it.

`remove_wait_queue` at line 109 of `src/globalfifo/main.c` names the writers' queue for a reader's entry. It unlinks
the entry from the list that it is in, so the model takes it off the readers' queue. Line 185 takes the mutex a
second time; the mutex is not recursive, and `PollWedges` is what follows. The other theorems hold for runs with and
without poll, except `NoDeadlock` and `Settles`, which are about states in which no thread is inside poll.

`GlobalFifoCalls.dfy` is about whole calls. `LeadsTo` says that the code of one thread alone leads from one state to the
other; the theorems with `schedule` put any steps of any threads in between.

`Settles` is about rounds: schedules in which every thread gets a turn and no call begins. Copies may fail in them and
threads may run in any order and any number of times. `BoundedSteps` needs neither fairness nor the invariant.

## What turned out false, and exactly when it holds

- The growth loop of `string_growup` halves the capacity above 4096, because `do_div` stores the quotient. It ends
  for a request below the limit of the capacity and for no other (`EndsExactly`); from 64 the limit is 8192.
- `string_new_cap` accepts a string as long as its capacity and then writes the terminator behind the buffer
  (`FullStringOverruns`). An accepted creation stays inside if and only if the string is shorter than the capacity
  (`CreationStaysInside`).
- `link_list_insert` puts the value behind the successor of the indexed node and leaves `count` alone;
  `link_list_remove` unlinks the successor, which for the last node is the sentinel. `InsertThenRemove` says exactly
  when the two undo each other, `NodeBalance` how far `count` drifts.
- The capacity check of the block device adds in 64 bits. `ChecksAreExact` says that a request that passes it lies
  inside the device exactly when that sum does not wrap; `WrappedRequestEscapes` gives a request whose copy leaves the
  device, and `StaysInside` says that without a wrap none does.
- An instance that is entered twice before it returns gets the first entry's params (`ReentryGetsStaleParams`);
  `ReturnGets` says what a return gets under any interleaving.
- `to_string` stays inside its buffer if and only if the printed list and its terminator fit (`StaysInsideExactly`).
  Every list of at most 341 values fits (`FitsUpTo341`); 342 times the least int overruns (`LongListOverruns`).
- A string longer than an unsigned int can count is cut by `string_join`: a run of joins gives the concatenation if and
  only if its length is below 2^32 (`JoinedExactly`). That takes a first capacity of more than 2^32.

The seekable device cuts sizes to 32 bits. `WriteSeekRead` is stated for the cut chunks and so for all; for chunks and
sizes below 2^32 it is `WrittenComesBack`, and `CutsNothing` says that these are exactly the ones that the cut leaves
alone.

## Model

| member | source | states |
|---|---|---|
| GlobalFifoSafety.StepKept | src/globalfifo/main.c:44-187 | one step of any thread in any call keeps mutual exclusion, the buffer bounds, every thread's knowledge of the buffer, no lost wake-up, and the refinement of a sequential FIFO |
| GlobalFifoSafety.ReachableInv | src/globalfifo/main.c:44-187 | every state that any set of threads reaches under any schedule satisfies that invariant |
| GlobalFifoSafety.OnlyHolderWrites | src/globalfifo/main.c:70-111 | a step of a thread that does not hold the mutex changes neither the buffer nor the length nor the history |
| GlobalFifoSafety.HolderMoves | src/globalfifo/main.c:70-111 | a step takes the mutex only when it is free and gives it up only when its thread owns it |
| GlobalFifoSafety.LenMoves | src/globalfifo/main.c:97-101 | whoever changes `current_len` owes a wake-up to the other side from then on |
| GlobalFifoSafety.OtherSleeperKept | src/globalfifo/main.c:73-103 | a thread that sleeps through another thread's step still has reason to sleep or is still owed its wake-up |
| GlobalFifoSafety.ShrinkKeepsLog | src/globalfifo/main.c:97-98 | the bytes that a reader copied out are, when it takes them off, still the front of the FIFO |
| GlobalFifoSafety.GrowKeepsLog | src/globalfifo/main.c:145-149 | the bytes that a writer copied in become the back of the FIFO |
| GlobalFifoTheorems.FirstInFirstOut | src/globalfifo/main.c:63-165 | delivered bytes followed by the buffered ones are the accepted ones, in order; with MEM_CLEAR the same up to zeroed bytes, so lengths are conserved; the length stays in [0, 0x1000] |
| GlobalFifoTheorems.ReadTakesWhatItCan | src/globalfifo/main.c:90-98 | a read past its wait hands out exactly the first min(count, pending) pending bytes, at least one if it asked for any, and leaves the rest in order |
| GlobalFifoTheorems.WriteStoresWhatFits | src/globalfifo/main.c:142-149 | a write past its wait appends exactly the prefix of its bytes that fits, at least one byte if it has any |
| GlobalFifoTheorems.ClearZeroesPending | src/globalfifo/main.c:49-52 | MEM_CLEAR turns exactly the pending bytes into zeros; length and delivered bytes stay |
| GlobalFifoTheorems.FailedCopyInvisible | src/globalfifo/main.c:93-95 | a failed copy changes no pending byte, no length and no history |
| GlobalFifoTheorems.CallsReportTheirEvents | src/globalfifo/main.c:103-111 | a thread's calls report exactly the events it made, one per call that returns a count and none per call that returns an error; -EAGAIN only for non-blocking calls that find no bytes or no room, -ERESTARTSYS only with a signal |
| GlobalFifoTheorems.MutualExclusion | src/globalfifo/main.c:106-111 | at most one thread is in a critical section, only it changes the device, and every exit, the signal exit included, leaves without the mutex, runnable and off the wait queues |
| GlobalFifoTheorems.NoLostWakeup | src/globalfifo/main.c:73-88 | a sleeping reader (writer) means an empty (full) buffer or a mutex holder about to wake it; with the mutex free it means an empty (full) buffer |
| GlobalFifoTheorems.SignalGetsSleeperOut | src/globalfifo/main.c:81-111 | in every state, a signal gets a sleeping thread out of the driver by its own steps alone, with -ERESTARTSYS, off its queue, and without touching the mutex, the buffer or the history |
| GlobalFifoTheorems.NoDeadlock | src/globalfifo/main.c:121-164 | without poll no thread can go on if and only if every thread is outside the driver or asleep for want of bytes or room, and then all sleepers are on one side |
| GlobalFifoTheorems.PollWedges | src/globalfifo/main.c:172-186 | once a thread has passed the first lock of poll, it holds the mutex for ever and no step of any thread changes the device again |
| GlobalFifoCalls.ReadCall | src/globalfifo/main.c:63-112 | read(n) on a free device with bytes returns min(n, len), hands out exactly so many bytes from the front, leaves the rest and wakes the writers; on an empty one it returns -EAGAIN if non-blocking, and otherwise sleeps, or returns -ERESTARTSYS if a signal is pending, and changes nothing |
| GlobalFifoCalls.WriteCall | src/globalfifo/main.c:114-165 | write(bytes) with room returns min(size, 4096 - len), puts exactly so many of its bytes at the back and wakes the readers; without room as for reads |
| GlobalFifoCalls.ClearCall | src/globalfifo/main.c:44-61 | MEM_CLEAR makes every byte zero, keeps the length and returns 0 |
| GlobalFifoCalls.OtherCommand | src/globalfifo/main.c:56-57 | every other command returns -EINVAL at once and changes nothing, whoever holds the mutex |
| GlobalFifoCalls.PollAnswers | src/globalfifo/main.c:172-183 | the mask of poll says that bytes (room) are there if and only if a non-blocking read (write) in its place would be served |
| GlobalFifoCalls.FaultGetsOut | src/globalfifo/main.c:93-111 | a failed copy gets the call out with -EFAULT and without the mutex, and leaves the bytes in the FIFO as they were |
| GlobalFifoCalls.CallServesItsArguments | src/globalfifo/main.c:63-165 | under every schedule the count, the bytes and O_NONBLOCK of a call stand untouched up to its copy, and what the call returns fits them: a count of at most as many bytes as asked for, with their event, or -EAGAIN only if non-blocking, -ERESTARTSYS only if blocking, or -EFAULT |
| GlobalFifoCalls.ReadDeliversWhatWasAsked | src/globalfifo/main.c:63-112 | a read(n) that waited under any schedule hands out min(n, len) bytes from the front once it copies |
| GlobalFifoCalls.WriteStoresWhatWasGiven | src/globalfifo/main.c:114-165 | a write(bytes) that waited under any schedule stores the front of exactly those bytes, as much as there is room for |
| GlobalFifoProgress.BoundedSteps | src/globalfifo/main.c:44-187 | while no new call begins, n threads make at most n(8n+14) effective steps under any schedule, however many signals arrive and copies fail |
| GlobalFifoProgress.Settles | src/globalfifo/main.c:63-165 | from every reachable state without poll, any more than n(8n+14) rounds in which every thread gets a turn end with every thread outside the driver or asleep for want of bytes or room |
| FifoBuffer.CopyAscending | src/globalfifo/main.c:97 | an ascending copy whose destination does not start behind its source moves the block intact although the two overlap |
| FifoBuffer.HelloDev.TakeFront | src/globalfifo/main.c:90-98 | the array after a read is the left shift of the step relation, and what was handed out followed by what is left is what was there |
| FifoBuffer.HelloDev.AppendBack | src/globalfifo/main.c:142-149 | the array after a write is the splice of the step relation, and the pending bytes are the old ones and then the new ones |
| FifoBuffer.HelloDev.ClearAll | src/globalfifo/main.c:51 | every byte of the buffer is zero |
| ListRing.Link | src/list/container.c:142 | linking a node between neighbours leaves a well-formed circle with the node at that place |
| ListRing.Unlink | src/list/container.c:155 | unlinking leaves a well-formed circle of the others; unlinking the sentinel leaves the nodes in a circle without it |
| Containers.Container.PushBack | src/list/container.c:139-144 | the heap stays a circle, the value comes last and the count grows by one |
| Containers.Container.PushFront | src/list/container.c:239-244 | the heap stays a circle, the value comes first and the count grows by one |
| Containers.Container.PopFront | src/list/container.c:146-161 | the heap stays a circle, the first value is handed out and removed, and nothing happens when the count or the list is empty |
| Containers.Container.Get | src/list/container.c:74-93 | the indexed value, or the last one if the walk ends first, or none behind the guards |
| Containers.Container.Walk | src/list/container.c:108-115 | the safe walk stops at the indexed node with its successor in hand, or back at the sentinel exactly if there is no such node |
| Containers.Container.Insert | src/list/container.c:95-116 | the heap stays a circle with the value two places behind the index, or in front if the index was the last |
| Containers.Container.Remove | src/list/container.c:118-137 | the heap stays a circle without the successor, or, for the last node, the sentinel is poisoned and the nodes close up without it |
| Containers.Container.UnlinkAll | src/list/container.c:168-178 | the walk that unlinks under its own feet ends with the empty circle |
| Containers.Container.Perform | src/list/container.c:95-161 | after any run of calls that does not unlink the sentinel the heap is a circle that refines the model, and the pops gave what the model gives |
| ContainerSpec.QueueOrder | src/list/container.c:188-212 | first in, first out over every run of pushes and pops; the count is the number of nodes |
| ContainerSpec.StackOrder | src/list/container.c:239-263 | last in, first out: over every run that stays above a pushed value, the matching pop hands out that value and restores the stack |
| ContainerSpec.StackKeepsBelow | src/list/container.c:239-263 | such a run leaves everything below it in place |
| ContainerSpec.InsertsExactly | src/list/container.c:95-116 | an insert acts exactly for indices inside count and list, puts the value two places behind the index, or in front for the last index, and keeps the count |
| ContainerSpec.RemovesExactly | src/list/container.c:118-137 | a remove acts exactly for those indices: the value behind the index goes, and for the last index the sentinel does |
| ContainerSpec.GetsExactly | src/list/container.c:74-93 | none exactly for an empty list, a count of 0 or an index from the count on; the indexed value inside the list, and the last one in all other cases |
| ContainerSpec.PopsExactly | src/list/container.c:146-161 | a pop acts if and only if neither list nor count is empty, also where the two have drifted apart |
| ContainerSpec.OnePlace | src/list/container.c:74-137 | an insert that acts adds the value at one place, where a get finds it if the place is below the count, and a remove that acts takes one value out; the count stays |
| ContainerSpec.InsertThenRemove | src/list/container.c:95-137 | insert at i and then remove at i+1 restore the list exactly for the indices for which both walks work and those for which neither does anything, given in numbers |
| ContainerSpec.NodeBalance | src/list/container.c:95-161 | over every run that keeps the sentinel, nodes minus count is effective inserts minus effective removes |
| ListText.PrintParse | src/list/container.c:39-61 | parsing the printed form gives back every list of 32-bit ints |
| ListText.TextExactly | src/list/container.c:39-61 | the text stands in brackets, and each further value comes behind a comma |
| ListText.SignExactly | src/list/container.c:52-54 | a negative value prints as a minus sign and the digits of its absolute value |
| ListText.DigitAt | src/list/container.c:52-54 | the character at each decimal place is the value's digit there, without leading zeros |
| ListText.FitsUpTo341 | src/list/container.c:33-61 | every list of at most 341 values fits the buffer with its terminator, and some list of 342 does not |
| ListText.StaysInsideExactly | src/list/container.c:39-62 | every bracket, comma and terminator that the code writes, and its last one, is inside the buffer if and only if the text and its terminator fit |
| ListText.LongListOverruns | src/list/container.c:39-62 | for 342 times the least int the terminator goes outside |
| ListText.PointerFollows | src/list/container.c:49-56 | the pointer, which moves by the length that snprintf wanted and then by nothing, follows the text up to the end of the buffer and stays beyond it afterwards |
| ListText.Snprintf | src/list/container.c:52-54 | the decimal, or its front with a terminator as far as the room goes, and nothing outside the room; the result is the wanted length |
| ListText.AppendAll | src/list/container.c:43-56 | for every circle the walk prints the values with commas between them as long as the buffer lasts, and a comma leaves the buffer only if the text does not fit |
| ListText.ToString | src/list/container.c:27-64 | for every circle all writes are inside if and only if the text and its terminator fit, and then the buffer holds the text with the terminator right behind it |
| TreeShape.PlugLinked | src/hook/khook.c:90-99 | the path of a descent and the subtree at its end make up the whole linked tree |
| TreeShape.PlugInOrder | src/rbtree/main.c:24-34 | replacing the subtree at the end of a descent changes the key order only in that place |
| SearchTree.Tree.Descend | src/rbtree/main.c:24-34 | the descent ends at the key or at the one free link where it belongs: all before that place is smaller and all behind it greater |
| SearchTree.Tree.Search | src/rbtree/main.c:47-60 | the node is found if and only if the key is in the map, with the value that the map has |
| SearchTree.Tree.Insert | src/hook/khook.c:83-110 | the tree stays strictly ordered and denotes the map with the key added; a present key is reported and nothing changes; for any rotations afterwards |
| SearchTree.Tree.Delete | src/hook/khook.c:127-137 | the tree stays strictly ordered and denotes the map without the key, the entry is handed out exactly if it was there; for any rotations afterwards |
| SearchTree.Tree.Rebalance | src/rbtree/main.c:43 | no sequence of rotations changes the entries or their order |
| SearchTree.Tree.First | src/rbtree/main.c:74 | the entry with the least key, or none exactly if the tree is empty |
| SearchTree.Tree.Next | src/rbtree/main.c:74 | the entry that follows in key order, or none behind the last |
| SearchTree.Tree.PrintAll | src/rbtree/main.c:71-79 | every entry once, in strictly ascending key order |
| SearchTree.Tree.Drain | src/rbtree/main.c:95-103 | the loop ends, with the empty tree, whatever each erase rotates |
| SearchTree.Tree.Perform | src/rbtree/main.c:18-69 | every finite sequence of inserts, deletes and rotations keeps the order and does to the denoted map what it does to a finite map |
| SearchTree.FirstInsertSettles | src/rbtree/main.c:18-69 | in every run the value under a key is that of its first insert since it was last absent, until a delete of the key; then nothing |
| SearchTree.KeyKept | src/rbtree/main.c:18-69 | a run without a delete of a present key keeps its value, and one without an insert of an absent key keeps it absent |
| ProbeProtocol.ReturnGets | src/hook/khook.c:188-245 | under any interleaving a return gets the params of its own entry, if that came with registers, params and an address, exactly if the pool did not hold the instance then, and otherwise what was already there |
| ProbeProtocol.EachReturnGetsItsOwn | src/hook/khook.c:188-245 | if instances are re-entered only after they returned, every return gets exactly the params of its own entry, none if the entry had no registers, params or address, and the already-exists branch is never taken |
| ProbeProtocol.PoolIsInFlight | src/hook/khook.c:139-156 | with that discipline the pool holds exactly the instances in flight whose entry had registers, params and an address, each with those params |
| ProbeProtocol.PoolDrains | src/hook/khook.c:139-156 | the pool is empty when all have returned |
| ProbeProtocol.UnmatchedReturnGetsNothing | src/hook/khook.c:127-137 | a return of an instance that is not in flight gets nothing |
| ProbeProtocol.ReentryGetsStaleParams | src/hook/khook.c:97-98 | without the discipline a return can get another entry's params |
| ProbePool.ProbePool.InsertParams | src/hook/khook.c:139-146 | the pool gains the key unless it has it already |
| ProbePool.ProbePool.PopParams | src/hook/khook.c:148-156 | the stored params are handed out once and the key is gone |
| ProbePool.ProbePool.Clear | src/hook/khook.c:68-79 | the pool ends empty |
| ProbePool.ProbePool.Serve | src/hook/khook.c:188-245 | any run of handler calls on the linked tree, with any rebalancing, gives the returns what the protocol says |
| CapacityGrowth.EndsExactly | src/string/main.c:55-68 | the growth loop ends if and only if the request is below the limit of the capacity, for every capacity and request |
| CapacityGrowth.DefaultCapacity | src/string/main.c:55-68 | from capacity 64 it ends exactly for requests below 8192; from no capacity up to 8192 for a request of 8192 or more |
| CapacityGrowth.NeverAbove | src/string/main.c:59-68 | from a capacity up to 8192 no number of rounds gets above the peak, nor above 8192 |
| CapacityGrowth.LeastDoubling | src/string/main.c:60-61 | from a capacity up to 4096 the result is the least doubling above the request |
| CapacityGrowth.GrownFromAbove | src/string/main.c:60-65 | above 4096 the loop ends only for a request equal to an odd capacity, and adds one to it |
| CapacityGrowth.GrownKeepsLimit | src/string/main.c:55-68 | growing never changes how far the string can grow |
| CapacityGrowth.Grow | src/string/main.c:55-68 | for exactly the requests below the limit the loop ends with the first capacity above the request |
| GrowString.CreationStaysInside | src/string/main.c:15-37 | for every string and every capacity that can be allocated, a string is accepted if and only if its int length is not above the capacity, and an accepted creation writes only inside its buffer if and only if it is below; up to 2^31 the int length is the length |
| GrowString.FullStringOverruns | src/string/main.c:15-37 | a string exactly as long as its capacity is accepted and its terminator goes outside |
| GrowString.StringView.NewCap | src/string/main.c:15-37 | refused exactly if the test or the allocation fails, an overrun exactly if some write would be outside, and otherwise terminated and equal to the argument |
| GrowString.StringView.GrowUp | src/string/main.c:55-72 | reallocation keeps length, content and terminator, because the new capacity is greater |
| GrowString.StringView.Join | src/string/main.c:74-83 | the content is the old content followed by the piece, cut to the unsigned sum of the lengths, below the capacity and with the only terminator at its end |
| GrowString.StringView.JoinAll | src/string/main.c:74-83 | a run of joins holds exactly the concatenation of all pieces if and only if its length is below 2^32 |
| GrowString.JoinedExactly | src/string/main.c:74-83 | of all texts, a run of unsigned joins gives exactly those below 2^32 characters in full |
| GrowString.GoesThroughExactly | src/string/main.c:55-83 | every growth loop of a run of joins ends and every write is inside if the total length is below the limit of the first capacity, and, for limits up to 2^32, only if, however the text is cut |
| GrowString.DefaultRuns | src/string/main.c:39-42 | from the default capacity that is: below 8192 |
| GrowString.StringView.IndexOf | src/string/main.c:85-98 | the loop finds the least position |
| GrowString.StringView.LastIndexOf | src/string/main.c:100-113 | the loop finds the greatest position |
| GrowString.StringView.HasPrefix | src/string/main.c:130-137 | true exactly if the text starts with the argument |
| GrowString.StringView.HasSuffix | src/string/main.c:139-146 | true exactly if the text ends with the argument |
| GrowString.StringView.HasSubstring | src/string/main.c:148-155 | true exactly if the text is something, the argument, and something |
| GrowString.StringView.Substring | src/string/main.c:157-170 | the characters between the positions, or none behind the guards |
| StringSearch.IndexBounds | src/string/main.c:85-113 | the two searches give the least and the greatest of all occurrences, and -1 together exactly if there is none |
| StringSearch.SearchesAgree | src/string/main.c:85-155 | prefix iff the index is 0, suffix iff the last index is the difference of the lengths, substring iff either index is non-negative |
| StringSearch.SubstringAtIndex | src/string/main.c:157-170 | cutting a non-empty needle out where a search found it gives the needle |
| StringSearch.SubstringExactly | src/string/main.c:157-170 | a substring is given if and only if 0 <= start < end <= length, and has the text's characters between the two |
| RamBlock.AllOrNothing | src/bdev/main.c:21-68 | a request whose segments cover its sectors and that lies inside the device stores its joined bytes at its byte address and leaves the buffers alone, or fills the buffers with the bytes there and leaves the device alone, or does neither; outside the device it changes nothing: the 32-bit offset never wraps and the segment check never fires |
| RamBlock.BuffersKept | src/bdev/main.c:28-68 | no request changes the number or lengths of its buffers, and none but a read that passes the checks their contents |
| RamBlock.StopsBetweenSegments | src/bdev/main.c:40-68 | whatever the segments cover, those before the first one that leaves the device are carried out as one transfer, the rest is left alone, and the status says which |
| RamBlock.SucceedsExactly | src/bdev/main.c:40-47 | whatever the segments cover, the loop succeeds if and only if they end inside the device, and no copy leaves it |
| RamBlock.ChecksAreExact | src/bdev/main.c:28-31 | a request that passes the capacity check lies inside the device if and only if the 64-bit sum does not wrap |
| RamBlock.StaysInside | src/bdev/main.c:28-68 | a request whose 64-bit sum does not wrap never copies outside the device, whatever its segments cover |
| RamBlock.WrappedRequestEscapes | src/bdev/main.c:28-62 | a write to the last 64-bit sector number passes both checks and copies outside the device |
| RamBlock.CuttingIrrelevant | src/bdev/main.c:40-68 | the effect does not depend on how a request is cut into segments |
| RamBlock.SplitAtSector | src/bdev/main.c:40-68 | splitting an accepted write at a sector boundary has the same effect |
| RamBlock.LastWriterWins | src/bdev/main.c:51-62 | over every run of requests each byte is what the last accepted write that covers it stored, and untouched if none does |
| RamBlock.ReadsLastWritten | src/bdev/main.c:51-55 | a read under any segmentation returns those bytes |
| RamBlock.Disk.ProcessRequest | src/bdev/main.c:15-73 | the checks and the segment loop over the array, partial transfers and wrapped sums included, are the function that the theorems are about, up to the first copy outside |
| SeekDevice.PositionStaysInside | src/cdev/main.c:57-148 | in every run of operations the position stays in [0, 0x1000] |
| SeekDevice.ReadReturns | src/cdev/main.c:57-84 | a read returns the number of bytes that it delivers and by which the position moves; they are the ones at the position, as many as asked for or as are left; past the end 0, and -EFAULT for a failed copy, with nothing moved |
| SeekDevice.WriteReturns | src/cdev/main.c:86-113 | a write returns by how much the position moves, and the bytes there are the front of the caller's; past the end 0; a failed copy returns -EFAULT, keeps the position and touches only bytes that the call would have written |
| SeekDevice.SeekReturns | src/cdev/main.c:115-148 | a seek that succeeds returns the new position, one that fails returns -EINVAL and changes nothing, and only origins 0 and 1 can succeed |
| SeekDevice.IoctlReturns | src/cdev/main.c:38-55 | MEM_CLEAR zeroes every byte, keeps the position and returns 0; every other command returns -EINVAL and changes nothing |
| SeekDevice.RelativeSeekExact | src/cdev/main.c:131-142 | a relative seek succeeds exactly if the true sum is inside the device: no wrapped sum is taken for a good one |
| SeekDevice.AbsoluteSeekExact | src/cdev/main.c:119-130 | an absolute seek lands on its offset if and only if that is inside the device, a failed one changes nothing, and 2^32 + k lands on k |
| SeekDevice.WriteRun | src/cdev/main.c:86-113 | a run of writes stores the joined chunks as far as the device goes |
| SeekDevice.ReadRun | src/cdev/main.c:57-84 | a run of reads delivers the memory from the position on |
| SeekDevice.WriteSeekRead | src/cdev/main.c:57-148 | any chunks written from 0 come back after a seek to 0 in any other chunks, up to 4096 bytes; chunks and sizes count as cut to 32 bits |
| SeekDevice.WrittenComesBack | src/cdev/main.c:57-148 | for chunks and sizes below 2^32: reads that ask for enough deliver first the first min(total, 4096) bytes written |
| SeekDevice.CutsNothing | src/cdev/main.c:57-113 | the cut to 32 bits leaves the joined chunks alone if and only if every chunk is below 2^32 |
| SeekDevice.HelloDev.ReadBytes | src/cdev/main.c:57-84 | the driver's read is the read of the model |
| SeekDevice.HelloDev.WriteBytes | src/cdev/main.c:86-113 | the driver's write, a failed copy included, is the write of the model |
| SeekDevice.HelloDev.Llseek | src/cdev/main.c:115-148 | the driver's seek, with its truncation and its sum, is the seek of the model |
| SeekDevice.HelloDev.IoctlCall | src/cdev/main.c:38-55 | MEM_CLEAR zeroes the memory, every other command fails and changes nothing |
| ChainSpec.BucketLookup | src/map/map.c:29-37 | for every hash function a scan of the key's bucket finds what a scan of all entries, newest first, finds |
| ChainSpec.BucketWithout | src/map/map.c:24-27 | unlinking an entry from its bucket removes it from the whole list and from no other bucket |
| ChainSpec.AddShadows | src/map/map.c:15-22 | a later add shadows an earlier one with its key and no other |
| ChainSpec.RemoveUncovers | src/map/map.c:24-37 | wherever the found entry stands, after its removal its key finds what a scan of the entries behind it finds |
| ChainSpec.RemoveElsewhere | src/map/map.c:24-37 | removing an entry changes no lookup that did not find it |
| ChainSpec.KeyIsStack | src/map/map.c:12-47 | each key has a stack of names: an add pushes, a removal of what a lookup found pops, a clear empties, and nothing else concerns it |
| ChainSpec.FindGivesTop | src/map/map.c:29-37 | a lookup gives the top of its key's stack, or none if that is empty |
| ChainSpec.FindsLatestPut | src/map/map.c:12-47 | in every run a lookup gives the name of the most recent add of its key, if neither a removal of the key nor a clear has come since |
| ChainSpec.FindsNothingAfterClear | src/map/map.c:39-47 | after a clear that no add of the key follows it gives none |
| HashTable.Table.PutFirst | src/map/map.c:21 | the link writes of hlist_add_head leave a well-linked chain with the entry in front and every other bucket's head as it was |
| HashTable.Table.CutOut | src/map/map.c:25 | the write through the back link and the one behind it leave a well-linked chain without the entry, wherever it stood |
| HashTable.Table.Add | src/map/map.c:15-22 | the links stay well-formed and the table holds the new entry and then all others |
| HashTable.Table.Get | src/map/map.c:29-37 | the walk along the links finds what a scan of all entries finds |
| HashTable.Table.Remove | src/map/map.c:24-27 | the links stay well-formed and exactly that entry is gone, from the list and from its bucket |
| HashTable.Table.Clear | src/map/map.c:39-47 | the walk that unlinks what it passes ends with every bucket empty |
| HashTable.Table.Perform | src/map/map.c:12-47 | for every hash function, any run of adds, lookups, removals of what a lookup found, and clears on the linked table gives what one association list, newest first, gives |
| RecordCodec.RoundTrip | src/dump/dumps.c:3-34 | unmarshal undoes marshal for every id and NUL-free name, whatever bytes follow; the length is 4 + name + 1 |
| RecordCodec.LayoutExactly | src/dump/dumps.c:3-19 | byte k of a little-endian id is its digit for 256^k, a big-endian id has the same bytes in reverse, and the name and a NUL follow |
| RecordCodec.DecodeThenEncode | src/dump/dumps.c:3-34 | what can be read is the encoding of what was read, followed by something |
| RecordCodec.PrefixFree | src/dump/dumps.c:3-19 | no encoding is a proper prefix of another |
| RecordCodec.Marshal | src/dump/dumps.c:3-19 | the buffer is exactly the encoding, or none if the allocation fails |
| RecordCodec.Unmarshal | src/dump/dumps.c:21-34 | the params that the buffer encodes; on a failed allocation -1 and no name, with the id stored all the same |

## Left out

- Module registration, device numbers, printk output and Makefiles: no logic to prove.
- `src/netlink`, `src/ftrace`, `src/bio`, `src/vfs`, `src/second`, `src/tasklet`, `src/thread`, `src/rhashtable` and the interval tree: thin calls into kernel services that are not in the repository.
- Allocation failure and allocation sizes, except where a failure branch is part of a result: a new object is always there and large enough.
- Red-black colours, parent links and height: the rebalancer is not in the repository. The tree finds a successor from the root, where rb_next follows parent links.
- SearchTree.Tree.Delete: takes the entry by its key and descends to it again, where rb_erase takes the node.
- GlobalFifoProgress.Settles: takes for granted that every thread gets a turn in every round; the scheduler is not modelled.
- The wait-queue locks and the sleep inside mutex_lock: adding, removing, waking and locking are single steps.
- GlobalFifo.Step: `remove_wait_queue` at line 109 takes the lock of the writers' queue also for a reader's entry, which is on the readers' list. So the code does not secure a reader's removal against another change of that list, and that it is one step is an assumption for readers.
- The entries that poll_wait puts on the wait queues: they hold no thread that sleeps in read or write.
- The seek operation of `src/globalfifo/main.c`: read and write there ignore the position.
- Containers.Container.PushBack: `count` does not wrap at 2^31; that many nodes do not fit in memory.
- GrowString.StringView.NewCap: what happens after the first write outside the buffer.
- GrowString.StringView.Join: texts at or above the limit of the capacity, for which the growth loop does not end or the copy leaves the buffer.
- GrowString.StringView.JoinAll: the same texts; `GoesThroughExactly` is about them.
- GrowString.StringView.IndexOf: texts of 2^31 characters and more, for which the int position overflows.
- GrowString.StringView.LastIndexOf: the same texts, for the same reason.
- GrowString.StringView.HasPrefix: arguments of 2^31 characters and more, whose length is negative as an int.
- GrowString.StringView.HasSuffix: the same arguments, for the same reason.
- GrowString.StringView.HasSubstring: the same texts; strstr itself is taken to look for the first occurrence.
- RamBlock.Disk.ProcessRequest: what happens after the first copy outside the device.
- ListText.ToString: what happens after the first write outside the buffer.
- The text payload of `src/rbtree/main.c` and the register and path extraction of `src/hook/khook.c`: payloads are opaque values. A return handler without registers, which the code dereferences before it tests them.
- Hash-table entries that are not in the table: removing one is a use after free.
