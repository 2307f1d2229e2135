# Verified models of KendyNet's stateful core

Dafny models of seven components of KendyNet, each with the properties it is built for, proved over
every input, every run or every interleaving:

| component | source | files |
|---|---|---|
| binary min-heap with back-pointers | `coro/minheap.c` | HeapSpec, HeapProperties, HeapRenaming, MinHeap |
| coroutine scheduler | `coro/co_sche.c` | SchedulerSpec, SchedulerProperties, SchedulerRuns, SchedulerTime, Coroutines, Scheduler |
| block object allocator, one thread | `src/block_obj_allocator.c` | AllocatorSpec, AllocatorProperties, AllocatorRuns, Allocator |
| re-entrant spin lock | `src/spinlock.c` | SpinLock |
| barrier | `src/sync.c` | Barrier |
| reference-counted buffer chains | `src/buffer.c`, `src/refbase.c` | BufferSpec, BufferRuns, Buffer |
| 64-bit hash | `src/lookup8.c` | Words, Lookup8, Lookup8Value |
| string splitting | `src/kstring.c` | Split |

Basics holds what several of them need.

Verify with `dafny verify dfyconfig.toml --resource-limit 2000000 --verification-time-limit 0`.

A component that updates fields in place has a `...Spec` file, which gives each operation as a
function of values, a `...Properties` or `...Runs` file, which proves the properties of those
functions, and a file with classes, whose methods update arrays, lists and pointers as the source does
and are proved to compute those functions. The spin lock and the barrier are interleavings of many
threads, so they are state machines whose steps are the single shared reads, writes and atomic
operations.

## Where the code misses its intent

The models take the code as it is written. Where a slip makes a property fail there is a concrete
input, the exact condition under which the property holds, and a parameter with which the proof covers
the repaired code as well.

- **`down` compares child slots with `<` against a 1-based size** (`coro/minheap.c:62-77`) and never
  looks at the last slot; parameter `whole`. Popping 1 from 1, 2, 3 leaves 3 above 2
  (`PopAsWrittenCounterexample`). A pop, or a sift after a key change, keeps heap order if and only if
  the entry that sinks would not sink to the last slot (`PopAsWrittenOrdered`, `ChangeOrdered`).
  Popping until empty gives 1, 3, 2 (`DrainAsWrittenCounterexample`). A drain as written comes out
  sorted if and only if the pops that leave three and two entries keep the order
  (`HeapAsWrittenSorts`): any other misplaced last slot is put right by the next pop. Of a heap of up
  to four entries that is a comparison of its keys (`FewAsWrittenSorted`); of a larger heap
  `LastPopsKeepOrder` makes the drain's own pops down to four entries before it can compare.
- **`data` and `back` are allocated one slot, or two, short** for their 1-based use
  (`coro/minheap.c:8`, `coro/minheap.c:95`); parameter `roomy`. As written an insertion writes past the
  end of `data` if and only if it fills the heap, and a removal writes past the end of `back` if and
  only if another element stays (`InsertFitsIff`, `RemoveFitsIff`, the results of `MinHeap.Insert` and
  `MinHeap.Remove`); `InsertOverflows` and `RemoveOverflows` make such calls. The models stop there. In
  the scheduler it is the sleeper that would fill the timer heap (`OverflowsIff`,
  `OverflowCounterexample`), and no run gets there that has fewer than `max_coro` coroutines at any
  time (`StaysInside`).
- **`_less` casts a `heapele` to a coroutine without the offset** that line 40 of `coro/co_sche.c`
  subtracts (`coro/co_sche.c:8-11`), and so compares a word further on, of `arg`; parameter `byTimeout`.
  Two sleepers until 9 and 5 with the same word stay in that order, and a look at 7 wakes the one due
  at 9 alone (`CastCounterexample`); it can leave the heap out of order (`CastBreaksOrder`). As written
  a look at the timers wakes all or nobody, at every time, if and only if the earliest sleeper is at
  the root (`AllOrNothingIff`); with the expiry test repaired it leaves nobody who is due, at every
  time, if and only if the heap gives up the sleepers in the order of their timeouts
  (`NoneLeftDueIff`).
- **The expiry test is reversed** (`coro/co_sche.c:41`); parameter `wakeDue`. With the earliest sleeper
  at the root, as it is when timeouts are compared, a look at the timers wakes everybody if no timeout
  is past and nobody otherwise (`AsWrittenPops`, `ReversedTestCounterexample`). Whatever is compared, it
  wakes exactly those that are due if and only if every sleeper's timeout is this very tick
  (`AsWrittenPopsDueIff`). As a side effect a timer heap that compares timeouts stays in order even with
  the slip in `down` (`LeftOrdered`).
- **The scheduler's own coroutine starts in status 0, which is `CORO_YIELD`** (`coro/co_sche.c:138`,
  `coro/co_sche.h:27`); parameter `selfYields`. It is queued on the first dispatch, and the assertion at
  `coro/co_sche.c:70` fails exactly in runs that reach a turn of the loop with that coroutine at the
  head of `active_list` (`FailsIff`); six steps with two coroutines are enough (`AsWrittenFails`). The
  cause is always a coroutine that returns while the scheduler's own is first in line
  (`FailureIsFromFinish`); once that has left the line it never comes back, and the assertion holds from
  then on (`OwnOutNeverFails`). With a status of its own, and arrays long enough, no run fails
  (`RepairedNeverFails`).
- **A full timer heap drops a sleeper without a word** (`coro/minheap.c:123-124`): the coroutine is
  then nowhere (`LostCounterexample`). This happens exactly when a coroutine goes to sleep while the heap
  is full (`LostIff`), and never while no more than `max_coro` coroutines live (`NothingLost`). As
  written the short array comes first: the heap cannot fill without a write past its end.
- **`current_coro` is not reset when a coroutine returns** (`coro/co_sche.c:26-27`): it refers to a
  destroyed coroutine from when that is collected until the next switch (`CurrentStep`,
  `CurrentDangles`). Nothing but `get_current_coro` reads it.
- **Objects larger than a block** are carved into no slots, and the first allocation follows a null
  pointer; every other size never fails (`NeverFailsIff`).

The comment in `src/lookup8.c:36-38` says that a hash whose mixing is reversible has no funnels; this is
proved for any reversible mixing (`NoFunnelInBlock`, `NoFunnelInTail`, `NoFunnelInLevel`) and then for
mix64. It is about the three final words: `burtle_hash` returns `c` alone.

## Model

| member | source | states |
|---|---|---|
| HeapProperties.PopOrdered | coro/minheap.c:140-153 | popping keeps heap order when `down` looks at every slot |
| HeapProperties.PopAsWrittenOrdered | coro/minheap.c:57-85 | as written it does if and only if the entry moved to the root would not sink to the last slot |
| HeapProperties.PopAsWrittenCounterexample | coro/minheap.c:62-77 | from 1, 2, 3 a pop as written leaves 3 above 2 |
| HeapSpec.PopContents | coro/minheap.c:140-153 | a pop takes out exactly the entry of slot 1, in either version |
| HeapSpec.InsertOrdered | coro/minheap.c:119-129 | inserting keeps heap order |
| HeapSpec.InsertContents | coro/minheap.c:119-129 | inserting adds exactly the new entry |
| HeapSpec.UpOrdered | coro/minheap.c:39-55 | sifting up repairs the one slot that may be below its parent |
| HeapSpec.DownOrdered | coro/minheap.c:57-85 | sifting down over every slot repairs the one slot that may be above its children |
| HeapSpec.DownShortOrdered | coro/minheap.c:57-85 | sifting down over all but the last slot does if and only if every slot on the way to the last wins against the sinking entry |
| HeapSpec.DownContents | coro/minheap.c:57-85 | sifting down ends and permutes |
| HeapProperties.RootIsLeast | coro/minheap.c:131-137 | the entry that minheap_min returns has the least key |
| HeapProperties.ChangeOrdered | coro/minheap.c:112-117 | after any change of one key, minheap_change restores the order: always over every slot, as written if and only if the last slot does not win |
| HeapSpec.ChangeContents | coro/minheap.c:112-117 | minheap_change permutes |
| HeapProperties.RemoveRebuilds | coro/minheap.c:93-110 | removal takes exactly one entry out and leaves a heap, from any arrangement of the slots |
| HeapProperties.RemoveAbsent | coro/minheap.c:93-110 | removing what is not there rebuilds the same contents |
| HeapProperties.HeapSorts | coro/minheap.c:119-153 | inserting any collection and popping until empty yields a sorted permutation of it |
| HeapProperties.DrainContents | coro/minheap.c:140-153 | popping until empty yields what was in, in either version |
| HeapProperties.DrainAsWrittenSorted | coro/minheap.c:57-85 | as written, an order in which only the last slot may be out of place drains sorted if and only if the pops leaving three and two entries keep the order; over four entries those are the drain's own pops |
| HeapProperties.HeapAsWrittenSorts | coro/minheap.c:57-85 | so a heap drains sorted as written if and only if those pops keep the order |
| HeapProperties.FewAsWrittenSorted | coro/minheap.c:57-85 | a heap of four entries drains sorted if and only if the keys of slots 2, 3, 4 are in order, one of three if and only if the key of slot 3 is at most that of slot 2, smaller ones always |
| HeapProperties.DrainAsWrittenCounterexample | coro/minheap.c:62-77 | as written 1, 2, 3 come out as 1, 3, 2 |
| HeapSpec.InsertFitsIff | coro/minheap.c:8 | an insertion into a heap that is not full stays inside data as written if and only if it does not fill the heap, and always with one slot more |
| HeapSpec.RemoveFitsIff | coro/minheap.c:95 | the elements that stay fit into back as written if and only if there are none, and always with two slots more |
| MinHeaps.MinHeap.ViewIsMembers | coro/minheap.h:20-31 | slots and element indices point at each other, so that the slots list every member once |
| MinHeaps.MinHeap.Swap | coro/minheap.c:15-22 | two slots exchanged, their elements' indices too |
| MinHeaps.MinHeap.Up | coro/minheap.c:39-55 | the loop in place computes Up |
| MinHeaps.MinHeap.Down | coro/minheap.c:57-85 | the recursion in place computes Down with the limit of its version |
| MinHeaps.MinHeap.Insert | coro/minheap.c:119-129 | a member is re-sifted, a full heap is left as it was, otherwise the element joins; inside is false exactly where data is too short, as written where the heap would become full |
| MinHeaps.MinHeap.Change | coro/minheap.c:112-117 | computes Change at the element's own index |
| MinHeaps.MinHeap.ChangeKey | coro/minheap.c:112-117 | a member whose key changes goes where Change puts it |
| MinHeaps.MinHeap.Min | coro/minheap.c:132-137 | the element in slot 1, or null |
| MinHeaps.MinHeap.PopMin | coro/minheap.c:140-153 | the element of slot 1 leaves with index 0 and the rest is Pop; null on an empty heap |
| MinHeaps.MinHeap.Remove | coro/minheap.c:93-110 | the element leaves with index 0 and the others are inserted again in slot order; inside is false exactly where back is too short for the others |
| MinHeaps.InsertOverflows | coro/minheap.c:119-129 | as written the second insertion into a heap for two is outside data |
| MinHeaps.RemoveOverflows | coro/minheap.c:93-110 | as written removing one of two elements is outside back |
| SchedulerProperties.StepInv | coro/co_sche.c:18-128 | every step keeps statuses, places, counts and the timers' order in agreement, and fails exactly where line 70 takes the scheduler's own coroutine off the head of active_list or a sleep writes past the end of the timer heap's array |
| SchedulerRuns.OnePlace | coro/co_sche.c:18-127 | in every reachable state a live coroutine is in exactly one of running, active_list, timer heap, handed over dead; but for one lost by a full heap |
| SchedulerRuns.LostIff | coro/minheap.c:123-124 | a coroutine is lost if and only if it goes to sleep while the heap is full |
| SchedulerRuns.NothingLost | coro/co_sche.c:164-172 | no run whose spawns respect max_coro loses a coroutine; where the array is short, no run that gets that far |
| SchedulerRuns.LostCounterexample | coro/minheap.c:123-124 | a run as written that loses a coroutine |
| SchedulerRuns.RoomToSleep | coro/co_sche.c:89-95 | whoever runs, fewer coroutines have timers than there are |
| SchedulerRuns.OverflowsIff | coro/minheap.c:8 | a sleep is outside the timer heap's array as written if and only if it would fill the heap, and never with one slot more |
| SchedulerRuns.StaysInside | coro/co_sche.c:89-95 | no run that has fewer than max_coro coroutines throughout gets there |
| SchedulerRuns.OverflowCounterexample | coro/co_sche.c:136 | as written, with max_coro 1 the first sleep does |
| SchedulerRuns.RepairedNeverFails | coro/co_sche.c:60-74 | with a start status of its own for the scheduler's coroutine and a long enough array, co != next at every dispatch of every run and every write is inside |
| SchedulerRuns.RepairedRuns | coro/co_sche.c:32-128 | the scheduler with all five slips repaired: no run fails, and the timers are a heap by timeout in every state reached |
| SchedulerRuns.FailsIff | coro/co_sche.c:66-70 | a run fails if and only if it reaches a turn of the loop with the scheduler's own coroutine first in line, or a sleep that the array is too short for |
| SchedulerRuns.OwnOutNeverFails | coro/co_sche.c:60-74 | once the scheduler's own coroutine is out of line and not in status CORO_YIELD, no run fails the assertion, in any version |
| SchedulerRuns.DoomedStep | coro/co_sche.c:25-27 | it comes to be first in line with the scheduler running exactly by a coroutine's return while it is first in line, and spawning or collecting leave that so |
| SchedulerRuns.FailureIsFromFinish | coro/co_sche.c:25-27 | every run that fails the assertion has had a coroutine return while the scheduler's own was first in line |
| SchedulerRuns.AsWrittenFails | coro/co_sche.c:138 | a run of the code as written that fails it |
| SchedulerRuns.CurrentStep | coro/co_sche.c:71 | a switch makes current_coro who runs; between switches it refers to a destroyed coroutine exactly from when that one is collected |
| SchedulerRuns.CurrentDangles | coro/co_sche.c:118-124 | a run after which it does |
| SchedulerRuns.StopStep | coro/co_sche.c:118-123 | stop means spawned and all destroyed; every step keeps this if and only if it is not a spawn after stop |
| SchedulerRuns.StopsWithTheLast | coro/co_sche.c:118-123 | so over every run that does not spawn after stop |
| SchedulerRuns.MovesUp | coro/co_sche.c:60-74 | whatever else happens, n dispatches move a coroutine from place d + n of active_list to place d |
| SchedulerRuns.BoundedBypass | coro/co_sche.c:60-127 | the coroutine at place k is resumed after exactly k other dispatches |
| SchedulerTime.EverySleeperWakes | coro/co_sche.c:32-128 | with lines 10 and 41 and the sift repaired, in every run a sleeper not lost is awake by the first reading of the clock after switches and 50 times idle turns reach 100, if from when it sleeps the clock shows at least its timeout and 200 more than it ever did before |
| SchedulerTime.WakesIff | coro/co_sche.c:32-57 | so repaired, a sleeper is woken by a step if and only if that is a turn of the loop or a yield, ti has reached 100, nextCheck has come and its timeout too |
| SchedulerTime.AsWrittenWakesIff | coro/co_sche.c:41-42 | with line 41 as written and timeouts compared, if and only if ti has reached 100, nextCheck has come and nobody's timeout is past |
| SchedulerTime.ClockStep | coro/co_sche.c:60-128 | in every version a switch counts 1 and an idle turn 50, only a turn of the loop or a yield starts again from 0, and a look puts the next one off by 200 |
| SchedulerTime.IdleWakes | coro/co_sche.c:97-128 | an idle scheduler wakes whoever is due in at most three turns |
| SchedulerTime.TimersStep | coro/co_sche.c:32-95 | no step but a look or a sleep changes the timers |
| SchedulerTime.SleepAdds | coro/co_sche.c:203-207 | a sleep adds one timer if there is room, keyed by the timeout asked for, or as written by the coroutine's word, and takes none |
| SchedulerTime.StepTimeouts | coro/co_sche.c:203-207 | a coroutine's timeout is the one it last asked for |
| SchedulerTime.GoesOn | coro/co_sche.c:97-128 | whoever has control can go on: a coroutine always, the scheduler until stop |
| SchedulerRuns.RepairedWakesDue | coro/co_sche.c:32-57 | with lines 10 and 41 and the sift repaired, check_time_out moves exactly the sleepers with timeout <= now to the back of active_list, earliest first, and leaves a heap of the others |
| SchedulerProperties.CheckTimeOutMoves | coro/co_sche.c:32-57 | in either version the sleepers popped join active_list in the order popped |
| SchedulerProperties.PoppedIsPrefix | coro/co_sche.c:35-43 | in every version, those popped are what the heap gives up to the first on which the test stops |
| SchedulerProperties.AllOrNothingIff | coro/co_sche.c:41-42 | with line 41 as written, every look at the timers wakes all or nobody if and only if the earliest sleeper is at the root |
| SchedulerProperties.NoneLeftDueIff | coro/co_sche.c:8-11 | with line 41 repaired, whatever _less compares, no look leaves anyone who is due if and only if the heap gives up sleepers in the order of their timeouts |
| SchedulerProperties.CastCounterexample | coro/co_sche.c:8-11 | as written, of two sleepers until 9 and 5 with the same word only the later is woken at 7 |
| SchedulerProperties.CastBreaksOrder | coro/co_sche.c:8-11 | as written, a look at the timers can leave the heap out of order |
| SchedulerProperties.AsWrittenPops | coro/co_sche.c:41-42 | with line 41 as written and the earliest sleeper at the root, nobody is popped if some timeout is past, and everybody otherwise |
| SchedulerProperties.AsWrittenPopsDueIff | coro/co_sche.c:41-42 | with line 41 as written, whatever _less compares, those popped are those due if and only if every timeout is this very tick |
| SchedulerProperties.ReversedTestCounterexample | coro/co_sche.c:41-42 | with line 41 as written and timeouts compared, of two sleepers due at 5 and 9 none is woken at 7, and both are at 3 |
| SchedulerProperties.LeftOrdered | coro/co_sche.c:35-55 | the loop leaves a heap, with the sift repaired, or with line 41 as written and timeouts compared |
| SchedulerProperties.DispatchInv | coro/co_sche.c:60-74 | a switch fails if and only if the one who leaves is first in line, and otherwise puts both in their places |
| SchedulerProperties.YieldInv | coro/co_sche.c:198-201 | coro_yield never fails the assertion and keeps the invariant, in either version |
| SchedulerProperties.SleepInv | coro/co_sche.c:203-207 | coro_sleep keeps the invariant, though a full heap may drop the sleeper, and fails if and only if the array is too short for one more timer |
| SchedulerProperties.LoopInv | coro/co_sche.c:102-117 | a turn of the loop fails if and only if the scheduler's own coroutine is first in line |
| HeapRenaming.RenamedPop | coro/co_sche.c:37-43 | popping elements pops their coroutines: the heap compares keys and nothing else |
| HeapRenaming.RenamedInsert | coro/co_sche.c:92-93 | inserting an element inserts its coroutine |
| Coroutines.Coros.TimerOwners | coro/co_sche.c:118 | index == 0 in a coroutine's heap element if and only if it has no timer |
| Coroutines.Coros.New | coro/co_sche.c:174-182 | a coroutine joins, the others and the timers stay |
| Coroutines.Coros.Destroy | coro/co_sche.c:184-191 | one without a timer goes, the others and the timers stay |
| Coroutines.Coros.SetStatus | coro/co_sche.h:42 | one status changes |
| Coroutines.Coros.AddTimer | coro/co_sche.c:89-93 | in the array, a full heap is left as it was and otherwise the coroutine's element joins with the word that _less compares; false exactly where the array is too short |
| Coroutines.Coros.PopTimer | coro/co_sche.c:37-43 | in the array, the first timer goes |
| Schedulers.Scheduler.constructor | coro/co_sche.c:130-141 | the initial state |
| Schedulers.Scheduler.CheckTimeOut | coro/co_sche.c:32-57 | the loop over the heap array and active_list computes CheckTimeOut |
| Schedulers.Scheduler.Tick | coro/co_sche.c:79-85 | in place, the look at the timers that a turn of the loop or a yield begins with, every hundredth switch and only when due |
| Schedulers.Scheduler.Next | coro/co_sche.c:60-74 | makes the step Dispatch; false where the assertion fails |
| Schedulers.Scheduler.Spawn | coro/co_sche.c:164-172 | a new coroutine, live and in line |
| Schedulers.Scheduler.Yield | coro/co_sche.c:198-201 | makes the step DoYield; false where that fails |
| Schedulers.Scheduler.Sleep | coro/co_sche.c:203-207 | makes the step DoSleep; false where that fails |
| Schedulers.Scheduler.Finish | coro/co_sche.c:25-27 | dead, and the scheduler runs |
| Schedulers.Scheduler.Turn | coro/co_sche.c:102-117 | makes the step Loop; false where that fails |
| Schedulers.Scheduler.Collect | coro/co_sche.c:118-124 | a dead coroutine is destroyed; the last one stops the scheduler |
| SchedulerProperties.Ready | coro/co_sche.c:184-191 | in every state of the invariant what the code goes on to use is not destroyed, and who runs has no timer |
| Schedulers.Do | coro/co_sche.c:18-128 | any operation that the context allows, done to the scheduler's memory, makes the step and keeps the invariant, or fails exactly where StepInv says; repaired, it wakes exactly those due if it looks, and nobody otherwise |
| AllocatorRuns.ExecInv | src/block_obj_allocator.c:116-177 | no run of allocations and legal frees follows a null pointer or fails an assertion, and the joint invariant of all lists holds throughout |
| AllocatorRuns.NeverFailsIff | src/block_obj_allocator.c:65-81 | that is so if and only if objects fit into a block |
| AllocatorRuns.AllocReturnsUnused | src/block_obj_allocator.c:116-146 | in every run, what alloc returns was not in use and lies inside a block |
| AllocatorRuns.NoOverlap | src/block_obj_allocator.c:73-78 | two different objects in use never overlap |
| AllocatorRuns.CacheBounded | src/block_obj_allocator.c:148-177 | free_size < 3 * init_size, _free_list has at most two lists, none over init_size, and those in the central pool are full |
| AllocatorRuns.DestroyFreesEachBlockOnce | src/block_obj_allocator.c:249-272 | in every run, the blocks of the three lists that destruction walks are all that were created, each once |
| AllocatorProperties.ReleasedAll | src/block_obj_allocator.c:249-272 | those lists have no block twice, and a block if and only if it was created |
| Allocators.ReleaseFreeList | src/block_obj_allocator.c:179-199 | the loop frees the block of every list in the queue, all of them allocated |
| Allocators.BlockObjAllocator.Destroy | src/block_obj_allocator.c:249-272 | the loops free every block that was created, each while it is allocated, and leave none |
| AllocatorRuns.NewBlockOnlyWhenAllInUse | src/block_obj_allocator.c:83-101 | a block is only created when the slots in use are all the slots there are |
| AllocatorRuns.FreeingAll | src/block_obj_allocator.c:148-177 | freeing all that is in use, in any order, never fails and leaves at most two blocks with the thread, the others being back in the pool, full |
| AllocatorProperties.AllocInv | src/block_obj_allocator.c:116-146 | allocation keeps the invariant: slots in use and slots in chains partition the slots carved, blocks are each in one list, sizes add up |
| AllocatorProperties.DeallocInv | src/block_obj_allocator.c:148-177 | freeing what is in use keeps it and fails nowhere |
| AllocatorProperties.AllocExact | src/block_obj_allocator.c:83-146 | which list gives the object and where it goes then: the pool's oldest or a new block if nothing is cached, else the heads of _free_list or _recover; the first object of it |
| AllocatorProperties.DeallocExact | src/block_obj_allocator.c:148-177 | which list takes the object, at its end, and where that goes if it is full |
| AllocatorProperties.GivesBackIff | src/block_obj_allocator.c:157-170 | the pool gets a list if and only if the free fills the head of _recover and (free_size + 2) * obj_size > 2 * 2^20; at least a block's worth then stays cached |
| AllocatorProperties.SelectedInv | src/block_obj_allocator.c:120-136 | whatever is cached, the list an object is taken from is at the head of _free_list and not empty |
| AllocatorProperties.TakeInv | src/block_obj_allocator.c:137-144 | the object is nobody's, and the list it exhausts is the one popped |
| AllocatorProperties.BringBackInv | src/block_obj_allocator.c:130-135 | with _free_list empty all that is cached is in the head of _recover |
| AllocatorProperties.HasRoom | src/block_obj_allocator.c:170-176 | with nothing in _recover and an object out, _free_list has a head and that is not full |
| AllocatorProperties.BlockHasSlots | src/block_obj_allocator.c:67 | a block has a slot if and only if objects fit, and collect_factor is 2 * init_size or one more |
| AllocatorProperties.NewBlock | src/block_obj_allocator.c:73-78 | the loop carves exactly the new block's slots, each once |
| Allocators.FreeList.constructor | src/block_obj_allocator.c:65-81 | the carving loop builds a chain of all the slots |
| Allocators.FreeList.Get | src/block_obj_allocator.c:39-47 | the head node leaves the chain |
| Allocators.FreeList.Put | src/block_obj_allocator.c:49-61 | the node joins the chain at its tail |
| Allocators.BlockObjAllocator.Alloc | src/block_obj_allocator.c:116-146 | on pointers, the step AllocStep with the object that was not in use, from the list that Handed says |
| Allocators.BlockObjAllocator.Dealloc | src/block_obj_allocator.c:148-177 | on pointers, the step DeallocStep, into the list that Returned says; a list filled goes back to the pool if and only if two blocks' worth is cached |
| SpinLock.ExecInv | src/spinlock.c:32-107 | the invariant holds after any steps of any threads in any order |
| SpinLock.StepInv | src/spinlock.c:32-107 | every single read, compare-and-swap and write of any thread keeps the invariant, and the compare-and-swap takes the lock if and only if it is free |
| SpinLock.MutualExclusion | src/spinlock.c:32-107 | in every run at most one thread is between the swap and the last write, it is the owner, lock_count is its nesting at every point between, and whoever holds the lock is there |
| SpinLock.FreeIsClean | src/spinlock.c:94-103 | owner == 0 implies lock_count == 0 and no holder |
| SpinLock.NoLostUpdates | testspinlock.c:10-32 | in every interleaving the counter is the number of increments made under the lock |
| SpinLock.UnlockByOthers | src/spinlock.c:87-107 | unlock returns -1 and changes nothing exactly for a thread that does not hold the lock |
| SpinLock.FreedByOutermost | src/spinlock.c:92-104 | whichever thread steps, the lock becomes free by exactly one kind of step: the owner's last write in the spin_unlock that matches its outermost spin_lock |
| SpinLock.WaysOut | src/spinlock.c:92-104 | past the decrement, other threads' steps change nothing of the lock; an inner spin_unlock returns and the outermost goes on to free it |
| SpinLock.CallsReturn | src/spinlock.c:32-107 | in every interleaving, a call that does not wait for the lock returns after a fixed number of the caller's own turns, with the depth and the result that are stated |
| SpinLock.CallReturns | src/spinlock.c:32-107 | a holder's spin_lock makes the depth one more, spin_unlock one less and returns 0, and to anyone else -1 |
| SpinLock.SwapTakes | src/spinlock.c:45-51 | the compare-and-swap takes a free lock, and leaves another's alone |
| SpinLock.SomebodyGetsIn | src/spinlock.c:42-54 | in every interleaving a free lock has been taken, by somebody, by the time a waiting thread has had three turns |
| SpinLock.LocksAlone | src/spinlock.c:32-59 | left alone, spin_lock on a free lock returns after seven turns, owner and lock_count set |
| SpinLock.UnlocksAlone | src/spinlock.c:87-107 | left alone, the holder's spin_unlock returns 0 and frees the lock if it was the outermost |
| Barrier.ExecInv | src/sync.c:113-128 | the invariant holds after any steps of any threads in any order |
| Barrier.StepInv | src/sync.c:113-128 | any thread's step keeps the invariant, spurious wakeups included |
| Barrier.NoEarlyReturn | src/sync.c:113-128 | nobody returns before waitcount threads have arrived |
| Barrier.NobodyForgotten | src/sync.c:117-126 | once they have and the broadcast is done nobody is asleep |
| Barrier.StepDecreases | src/sync.c:122-127 | from then on every step of every thread lowers one measure |
| Barrier.RunsEnd | src/sync.c:113-128 | so a run is no longer than the measure |
| Barrier.StuckIsOut | src/sync.c:113-128 | and ends only with every arrived thread returned |
| Barrier.DeadlockFree | src/sync.c:113-128 | where nobody can go on but by a spurious wakeup, every thread has returned if there are waitcount of them, and every thread sleeps otherwise |
| Barrier.EveryStepCounts | src/sync.c:113-128 | from the start on every step lowers one measure, but for a spurious wakeup, which raises it by three at most |
| Barrier.AllRunsEnd | src/sync.c:113-128 | so every run is bounded by the measure and its spurious wakeups |
| Barrier.EveryoneReturns | src/sync.c:113-128 | every run of n threads has at most 20 * n + 1 steps and four for each spurious wakeup, and ends with all returned if n >= waitcount, and with all asleep if not |
| BufferSpec.ReleaseExact | src/buffer.c:7-14 | releasing ends, uses nothing freed, and leaves every count equal to the references there are |
| BufferRuns.ExecInv | src/buffer.c:7-57 | no run of create, acquire, release, link and fill uses freed memory; counts are exact and chains acyclic throughout |
| BufferRuns.AcquireInv | src/buffer.c:38-47 | moving a reference keeps this, and never frees the buffer moved to |
| BufferRuns.MoveAlong | src/buffer.c:38-47 | acquire(b, b->next) keeps b->next and all it leads to |
| BufferRuns.LiveIffReachable | src/refbase.c:11-23 | a buffer is allocated if and only if some reference held by a caller leads to it |
| BufferRuns.NoLeak | src/refbase.c:11-23 | when callers hold nothing, nothing is allocated |
| BufferRuns.ReleasingAll | src/buffer.c:49-56 | releasing every reference, in any order, never fails and empties memory |
| BufferRuns.LinkInv | src/buffer.c:10-11 | storing a reference in a null next field keeps counts exact and chains acyclic |
| BufferRuns.CreateInv | src/buffer.c:16-36 | a new buffer has count one, the capacity asked for, no data and no next, and the reference it replaces is given up |
| BufferRuns.RestIsTail | src/buffer.c:59-79 | what the read starts from is the flattened chain from pos on |
| BufferRuns.RestStep | src/buffer.c:66-77 | a chunk, then the rest of the same buffer or the next buffer, is the rest of the chain |
| Buffers.Memories.RefIncrease | src/refbase.c:3-9 | the count goes up by one and nothing else changes |
| Buffers.Memories.RefDecrease | src/refbase.c:11-23 | does what Release does on values, destroyer included |
| Buffers.Memories.Destroy | src/buffer.c:7-14 | the next buffer is released, then this one freed |
| Buffers.Memories.Release | src/buffer.c:49-56 | does what Release does on values, and clears the variable |
| Buffers.Memories.Acquire | src/buffer.c:38-47 | does what Acquire does on values and returns the second |
| Buffers.Memories.CreateAndAcquire | src/buffer.c:16-36 | a fresh buffer takes the place of the reference given |
| Buffers.Memories.Link | src/buffer.c:10-11 | p->next, null before, becomes a counted reference |
| Buffers.Memories.Read | src/buffer.c:59-79 | ends on every acyclic chain; 0 if and only if size bytes remain from pos, out then starts with them, otherwise -1 and out starts with what there was; from past the data it copies size bytes of the buffer's storage, inside it if and only if pos + size <= capacity; nothing else of out or the buffers changes |
| Lookup8.MixReversible | src/lookup8.c:40-54 | mix64 is a bijection: undoing inverts it on both sides |
| Lookup8.LinesReversible | src/lookup8.c:40-54 | so is any sequence of such lines, whatever they shift by |
| Lookup8.Mix64 | src/lookup8.c:40-54 | the twelve assignments compute Mix, which is said of their bits with literal shifts |
| Lookup8.MixByBits | src/lookup8.c:40-54 | u is Mix of s if and only if twelve lines lead there, each subtracting modulo 2^64 and then complementing bit i where bit i + n, or i - n, of the word shifted is set, n being the twelve literals |
| Words.LeftBit | src/lookup8.c:43 | bit i of x << n is bit i - n of x, and 0 below n |
| Words.RightBit | src/lookup8.c:42 | bit i of x >> n is bit i + n of x, and 0 from 64 - n on |
| Words.XorBit | src/lookup8.c:42 | bit i of x ^ y is set if and only if just one of theirs is |
| Words.BitsDecide | src/lookup8.c:40-54 | words are equal if and only if their 64 bits are |
| Lookup8Value.HashOfBytes | src/lookup8.c:85-164 | the bytes 1 to 23 hash at level 1 to 0x8de0ee32eb70fb46 |
| Lookup8.NoFunnelInBlock | src/lookup8.c:98-131 | for any reversible mixing, level, prefix and suffix, each final (a,b,c) comes from exactly one 24-byte block |
| Lookup8.NoFunnelInTail | src/lookup8.c:133-161 | after the same blocks, tails of any lengths give the same final words if and only if they are equal |
| Lookup8.NoFunnelInLevel | src/lookup8.c:93-96 | different levels give different final words, for every key |
| Lookup8.ShortKeysApart | src/lookup8.c:133-161 | keys shorter than 24 bytes have pairwise different final words |
| Lookup8.BurtleHasNoFunnels | src/lookup8.c:85-164 | with mix64, equally long keys that differ in one block or in the tail only end in different words |
| Lookup8.LengthApart | src/lookup8.c:134-144 | the low byte of c, left free by the tail, tells lengths apart |
| Lookup8.BurtleHash | src/lookup8.c:85-164 | the loop and the fall-through switch return c of the block-wise definition with a zero-padded tail |
| Lookup8.TakeBlock | src/lookup8.c:101-130 | the shifted sums are little-endian loads of 24 bytes |
| Lookup8.TakeTail | src/lookup8.c:134-162 | the switch adds the zero-padded little-endian remainder, c's from its second byte on |
| Split.StringSplit | src/kstring.c:183-215 | adds Tokens to the vector, or nothing for a null string or no delimiters |
| Split.TokensCut | src/kstring.c:183-215 | tokens and consumed delimiters rebuild the string; only the last token may be empty; no token has a delimiter after its first character |
| Split.OnlyCut | src/kstring.c:196-214 | there is no other way to cut a string like that |

## Left out

- Sockets, engines, epoll and connections (`src/Acceptor.c`, `src/Engine.c`, `src/KendyNet.c`, `src/Connection.c`): plumbing of system calls; of these only that a buffer is stored in a next field that is null.
- Context switching in assembly (`src/uthread.c`) and exceptions by longjmp (`src/except.c`): a switch is an atomic change of who runs.
- The allocator's multi-threaded mode: thread keys, frees from other threads and the unlocked push at `src/block_obj_allocator.c:210`. GetK is not part of this model; the object size is the rounded one, and any positive one is covered.
- spin_lock with a count (`src/spinlock.c:60-84`): it falls back to a mutex without becoming owner, so it does not exclude the spinning path.
- Weak memory ordering: the steps of the spin lock and the barrier are sequentially consistent.
- Integer widths but for the hash and the position of a buffer read: 32-bit counts, sizes and milliseconds are unbounded, so that wrap-around of the clock, of lock_count and of refcounts is not modelled.
- What a write past the end of an array does: a model stops there and says so. Which bytes of a coroutine's `arg` line 10 of `coro/co_sche.c` compares depends on the layout of structures; the word is a parameter of each spawn.
- `src/link_list.c`: a queue is a sequence, pushed at the back and popped at the front; a push of a node that is already linked, which that file ignores, does not occur.
- `src/lookup8.c` words are numbers below 2^64 with wrapping sums and differences; the shifts multiply and divide by powers of two, and what that does to bits is proved.
- Schedulers.Scheduler: active_list, running and the like name coroutines by number instead of by pointer, and active_list is a sequence, so that the list node embedded in a coroutine is not modelled; the embedded heap element is.
- Spawning from inside a coroutine, sche_destroy, printing and usleep: spawns come from the scheduler's own context.
- Memory of buffers: addresses are given by the allocator as parameters, and calloc's clearing of next is assumed, as `include/allocator.h` does it; failure of any allocation is not modelled.
- Buffers.Memories.Read: where it reads past the end of a buffer's storage the model stops; out's own overflow is excluded by requires, as memcpy leaves it to callers.
- Atomic increments of `src/refbase.c` (mt set): the counts are those of one thread.
- A barrier's second use: wait_count is not reset, so later calls return at once, which the model includes, but no property is stated of it.
- Split.StringSplit: strings are sequences of characters without a zero, the pointers b and cur are positions, and string_create_n is copying.
- String assignment and concatenation (`src/kstring.c:90-163`), `src/map.c`, `src/tls.c`, logging, timers and test programs: little state, or wrappers of code that is not shown.
