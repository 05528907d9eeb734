# A verified model of the concurrency and I/O programs of serversidedev

The repository is a collection of small C++ programs about threads, signals and sockets. This project models
the ones whose correctness is a real argument and proves what they are meant to guarantee, for all parameters,
all inputs and all interleavings.

| file | models |
|---|---|
| `BoundedRing.dfy` | the ring buffer of `pthread/concurrent_array.cpp`, as a value and as the mutable class |
| `ProducerConsumer.dfy`, `ProducerConsumerInv.dfy`, `ProducerConsumerTheorems.dfy` | its producer and consumer threads and `main`, as a state machine; the inductive invariants; the theorems |
| `QuickSort.dfy` | the in-place quicksort of `basic/qsort.cpp` |
| `Countdown.dfy` | the compare-and-swap and the mutex countdown of `atomic/`, against one atomic specification |
| `Reaping.dfy` | SIGCHLD handling in `css_echo.cpp` and `test_fork_and_waitpid.cpp` |
| `SelectServer.dfy` | the select server `io/css_echo_select.cpp` |
| `EpollServer.dfy` | `full_write` of `lib/lhf.cpp`, `io/socketio.cpp`, and the loop of `io/css_echo_epoll.cpp` |
| `EchoPair.dfy` | the conversation of `csc_echo.cpp` with the connection loop of `css_echo.cpp` |
| `Tally.dfy`, `Wrappers.dfy` | sums of per-thread weights; `Option` and bytes |

## How the programs are modelled

Code that one thread of control runs on its own data is imperative Dafny: the ring class, the quicksort on an
array, the select server with its table and the epoll server are methods with loops, each proved equal to a
function on values about which the theorems are proved. Code whose point is interleaving (threads on shared
counters, a handler interrupting `main`, two processes on two channels) is a step function on states: an action
names who moves and what the scheduler or the kernel chose, `Step` gives the next state or `None` if the action
is not enabled, and a run is a list of actions. Theorems quantify over all such lists.

Failing asserts, reads outside an array, error exits, null dereferences and unbounded recursion are outcomes of
the models, so "it does not happen" and "it happens exactly when" are statements that are proved.

Where the code does less than its shape promises, the exact condition is proved:

- The producer/consumer program ends well if and only if there is nothing to produce, there are no threads, or
  there is at least one thread on each side; otherwise its final assert fails if there are no consumers and
  everything fits in the ring, and it deadlocks in all other cases (`FinishesExactly`).
- `partition` passes its assert if and only if a pivot sits at the boundary of the smaller cells of its range, or
  just outside a one-sided range (`PartitionPassesExactly`, for any array); on distinct cells, if and only if the
  middle cell has as many smaller cells as there are cells to its left (`PartitionOfDistinct`). For the whole sort
  on any array the condition to return, to fail and to recurse forever is exact (`OutcomeExactly`): `[3, 1, 2]`
  fails and `[1, 5, 0, 5, 9, 9, 9]` recurses forever. Every run that does return has sorted.
- The mutex countdown copies a `long long` into an `int`: it works if and only if the start is at least 0 and
  below 2^32 (`CountsToZeroExactly`), which is more than an `int` holds, because only zero-ness of the copy matters.
- The echo client completes every line if and only if no line starts with a NUL (`EchoPair.FinishesExactly`).

## Assumptions

- Plain reads of shared numbers and `__sync_bool_compare_and_swap` are atomic and sequentially consistent.
- `pthread_cond_wait` releases the mutex and blocks in one step, `pthread_cond_signal` unblocks at least one
  waiter, spurious wake-ups can happen (POSIX.1-2017 System Interfaces, `pthread_cond_wait`, `pthread_cond_signal`).
- A pending signal is one bit (POSIX.1-2017 System Interfaces, section 2.4.1), as `css_echo.cpp:52` assumes.
- The ring has at least one slot; `accept` returns a descriptor that is not open; descriptors are below
  `FD_SETSIZE`, and `FD_ISSET` of the free-slot mark -1 is false; `epoll_wait` reports a descriptor at most once
  per call and only events asked for or errors; `select` reports the ready members of its set below its bound.
- `waitpid` with `WNOHANG` fails only for want of children; `pthread_create`, `pthread_join` and `fork` succeed.

## Model

| member | source | states |
|---|---|---|
| BoundedRing.FullAndEmptyAreExact | pthread/concurrent_array.cpp:43-49 | with the ring holding a queue, equal indices and the null-ness of slot 0 alone decide exactly whether it is full and whether it is empty, for every size from 1 |
| BoundedRing.HoldsIsFunctional | pthread/concurrent_array.cpp:43-49 | the two indices and the slots determine the queue the ring stands for |
| BoundedRing.StoreEnqueues | pthread/concurrent_array.cpp:59-63 | on a ring that is not full the empty-slot assert passes and the item joins the back of the queue |
| BoundedRing.TakeDequeues | pthread/concurrent_array.cpp:74-76 | on a ring that is not empty the pointer handed out is the front of the queue, which loses exactly that item |
| BoundedRing.GuardsAreNeeded | pthread/concurrent_array.cpp:60-76 | the empty-slot assert would fire exactly on a full ring, and a null pointer would be handed out exactly by an empty one |
| BoundedRing.ConcurrentArray.constructor | pthread/concurrent_array.cpp:21-27 | a new array stands for the empty queue |
| BoundedRing.ConcurrentArray.CheckFull | pthread/concurrent_array.cpp:43-45 | true if and only if the queue has size items |
| BoundedRing.ConcurrentArray.CheckEmpty | pthread/concurrent_array.cpp:46-49 | true if and only if the queue is empty |
| BoundedRing.ConcurrentArray.Append | pthread/concurrent_array.cpp:50-67 | rejects exactly null, waits exactly when full, otherwise enqueues at the position returned; nothing else changes |
| BoundedRing.ConcurrentArray.Get | pthread/concurrent_array.cpp:68-81 | waits exactly when empty, otherwise returns and removes the oldest item; nothing else changes |
| ProducerConsumerInv.StepHasEffect | pthread/concurrent_array.cpp:50-124 | every action moves one thread along its program, wakes only waiters of the other side, and changes counters, lists and mutex accordingly |
| ProducerConsumerInv.ThreadsRunFreely | pthread/concurrent_array.cpp:99-156 | every interleaving is covered: a started thread can step whenever it is not waiting, not done, and not in need of a mutex that is held |
| ProducerConsumerInv.SignalWakesAnyWaiters | pthread/concurrent_array.cpp:64-77 | a signal may wake any nonempty set of the threads blocked on the other side, a single one included, and moves nobody else |
| ProducerConsumerInv.SpuriousWakeUps | pthread/concurrent_array.cpp:56-72 | any blocked thread may wake up at any time without a signal |
| ProducerConsumerInv.UnguardedMoveFails | pthread/concurrent_array.cpp:60-76 | storing into a full ring would trip the assert and taking from an empty one would give null, so the absence of these failures says something |
| ProducerConsumerInv.MoveKeepsFifo | pthread/concurrent_array.cpp:59-76 | a store or take inside the mutex neither aborts nor breaks "buffer = appended minus taken, in order" |
| ProducerConsumerInv.MutualExclusionPreserved | pthread/concurrent_array.cpp:55-78 | one thread at a time is inside the mutex, and what its wait loop established still holds when it moves an item |
| ProducerConsumerInv.TicketsPreserved | pthread/concurrent_array.cpp:102-115 | each counter stays the number of items moved plus the claims still on their way |
| ProducerConsumerInv.NoLostWakeupPreserved | pthread/concurrent_array.cpp:56-77 | if anybody waits, no more items (or free slots) are available than threads already woken, inside, or about to signal |
| ProducerConsumerInv.ClaimedOncePreserved | pthread/concurrent_array.cpp:102-106 | each number claimed so far is held by one producer or has been appended, not both and not twice |
| ProducerConsumerInv.TakenOncePreserved | pthread/concurrent_array.cpp:113-119 | each number is held by consumers and printed as often as it was taken |
| ProducerConsumerInv.InvAlways | pthread/concurrent_array.cpp:99-156 | all of these hold in every state of every run |
| ProducerConsumerTheorems.NeverFails | pthread/concurrent_array.cpp:60-61 | no run trips the empty-slot assert or prints through a null pointer |
| ProducerConsumerTheorems.ExactlyOnePlace | pthread/concurrent_array.cpp:99-124 | at any moment every claimed number is in exactly one of: a producer, the buffer, a consumer, the output; no other number is anywhere |
| ProducerConsumerTheorems.FirstInFirstOut | pthread/concurrent_array.cpp:50-81 | in every run the numbers taken are a prefix of the numbers appended, both in mutex order, and the rest fills the buffer |
| ProducerConsumerTheorems.FinalAssertExact | pthread/concurrent_array.cpp:154 | after all joins the buffer is empty if and only if the parameters allow completion |
| ProducerConsumerTheorems.OutputIsComplete | pthread/concurrent_array.md:3-9 | when main returns, the output is a permutation of 0, ..., products - 1, or empty if there is no producer |
| ProducerConsumerTheorems.InOrderWithOneOfEach | pthread/concurrent_array.cpp:99-124 | with one producer and one consumer the output is 0, 1, 2, ... in order at every moment |
| ProducerConsumerTheorems.NobodyWaitsForever | pthread/concurrent_array.cpp:56-77 | with threads on both sides, or without consumers when everything fits in the ring, it never comes to every live thread waiting |
| ProducerConsumerTheorems.NoDeadlock | pthread/concurrent_array.cpp:99-156 | with such parameters, until main is done some step other than a spurious wake-up is enabled, although wake-ups use signal and not broadcast |
| ProducerConsumerTheorems.MeasureDecreases | pthread/concurrent_array.cpp:99-124 | every step lowers a measure, and a spurious wake-up raises it by two |
| ProducerConsumerTheorems.RunsAreBounded | pthread/concurrent_array.cpp:99-156 | the length of any run is bounded by the parameters plus three per spurious wake-up |
| ProducerConsumerTheorems.FinishesExactly | pthread/concurrent_array.cpp:125-156 | how a run that cannot go on has ended: main has returned past its final assert if and only if nothing is to be produced, there are no threads, or both sides have one; the final assert has failed if and only if otherwise there are no consumers and everything fits in the ring; in all other cases it is a deadlock |
| ProducerConsumerTheorems.CanAlwaysFinish | pthread/concurrent_array.cpp:125-156 | under that condition every run can be continued to the end without further spurious wake-ups |
| QuickSort.Partition | basic/qsort.cpp:19-48 | the loop on the array computes the partition function, including its failing asserts and its read outside the array |
| QuickSort.QSort | basic/qsort.cpp:58-73 | the recursion on the array computes the sort function, including failures and unbounded depth |
| QuickSort.IsIncrease | basic/qsort.cpp:74-81 | comparing neighbours returns 1 if and only if the whole range is in order |
| QuickSort.SortAndCheck | basic/qsort.cpp:98-106 | a run that returns is always judged "sort ok", and the array is a permutation of the input |
| QuickSort.ScanSplits | basic/qsort.cpp:25-33 | the loop splits the range around the meeting point, never moves a cell equal to the pivot, and leaves other cells alone |
| QuickSort.ScanEndsAbove | basic/qsort.cpp:25-41 | the loop ends on a cell not above the pivot only if the range had none, and then it changed nothing and ran to the right end |
| QuickSort.ScanSwapsPartners | basic/qsort.cpp:25-33 | which cells the loop swaps, in terms of the input: the first larger one with the last smaller one, the second with the last but one, and so on as long as the larger one is on the left |
| QuickSort.ScanKeepsUnpartnered | basic/qsort.cpp:25-33 | every other cell stays where it is |
| QuickSort.PartitionPassesExactly | basic/qsort.cpp:35-46 | on any array, duplicates included, the final assert passes if and only if a pivot is at the boundary of the smaller cells or just outside a one-sided range |
| QuickSort.PartitionOfDistinct | basic/qsort.cpp:19-48 | on distinct cells it passes if and only if the middle cell is the middle by rank, and then returns the midpoint |
| QuickSort.PartitionFailsExactly | basic/qsort.cpp:35-46 | a call on a nonempty range reads outside the array exactly if it would look before the first or after the last cell; every other failure is the assert on the pivot |
| QuickSort.PartitionSplits | basic/qsort.cpp:19-48 | a passing partition rearranges only its range and has the pivot at the index returned, nothing larger before and nothing smaller after |
| QuickSort.ReturnedMeansSorted | basic/qsort.cpp:58-73 | every returning run on any array sorts its range, permutes it, and touches nothing else |
| QuickSort.DeeperIsSame | basic/qsort.cpp:58-73 | the outcome does not depend on how much nesting is allowed once it suffices |
| QuickSort.PartitionIndexExactly | basic/qsort.cpp:35-47 | which index it returns: the last pivot at that boundary, or the index just outside |
| QuickSort.OutcomeExactly | basic/qsort.cpp:58-73 | on any array the run returns if and only if every range it meets has, strictly inside, a last pivot at the boundary of its smaller cells; it recurses forever if and only if it meets a range whose pivot is found just after it; otherwise an assert fails or a cell outside the array is read |
| QuickSort.SortableLocal | basic/qsort.cpp:70-71 | whether a range will be sorted depends on its own cells, so sorting one side cannot spoil the other |
| QuickSort.DivergesLocal | basic/qsort.cpp:37-71 | whether the recursion ends depends on those and the cell after the range only |
| QuickSort.DistinctReturnsExactly | basic/qsort.cpp:58-73 | the special case of distinct cells, with its depth: the run returns if and only if the median sits in the middle of every range it meets, fails otherwise, and never nests deeper than floor(log2 n) + 1 calls |
| QuickSort.SortableOfDistinct | basic/qsort.cpp:58-73 | on distinct cells the general condition says just that, and the recursion always ends |
| QuickSort.BalancedLocal | basic/qsort.cpp:70-71 | the condition on medians depends on the range's own cells |
| QuickSort.IncreasingReturns | basic/qsort.cpp:58-73 | a strictly increasing array is returned unchanged within that depth |
| QuickSort.PivotJustAfterNeverReturns | basic/qsort.cpp:37-71 | if the pivot is found just after the range, the recursion never ends |
| QuickSort.SomeDistinctArrayFails | basic/qsort.cpp:46 | [3, 1, 2] trips an assert |
| QuickSort.SomeArrayRecursesForever | basic/qsort.cpp:69-71 | [1, 5, 0, 5, 9, 9, 9] exceeds every depth |
| CasCountdown.StepRefines | atomic/atomic_basic.cpp:10-42 | every step is nothing or one atomic "if positive then claim and decrement" |
| CasCountdown.StepExactly | atomic/atomic_basic.cpp:10-42 | a thread that has not exited can step at any time, so every interleaving is covered; only a swap that finds the value read counts down, and only a thread that saw no positive number exits |
| CasCountdown.ClaimsCountDown | atomic/test_gcc_atomic.cpp:13-19 | in every run the claims are start, start - 1, ... without gap or repetition and zero is never passed |
| CasCountdown.HandedOnce | atomic/atomic_basic.cpp:13-18 | every claimed value is handed to the work function once or is about to be, and no other value ever is |
| CasCountdown.AllWorkDone | atomic/atomic_basic.cpp:29-42 | when all threads have exited the number is zero and the work function had each of 1, ..., start once |
| CasCountdown.RetryBound | atomic/atomic_basic.cpp:13-19 | failed swaps never exceed start times the number of other threads |
| CasCountdown.RetryBoundAttained | atomic/atomic_basic.cpp:13-19 | for every start and thread count some run has exactly that many, so the bound is sharp |
| CasCountdown.NoDeadlock | atomic/atomic_basic.cpp:29-42 | until all threads have exited some thread can step, whatever the others do |
| CasCountdown.RunsAreBounded | atomic/atomic_basic.cpp:29-42 | every run is finite, with an explicit bound |
| CasCountdown.CanFinish | atomic/atomic_basic.cpp:29-42 | every run can be continued until all threads have exited, and then all the work has been done |
| LockCountdown.StepRefines | atomic/test_gcc_atomic_use_lock.cpp:10-21 | the mutex loop refines the same atomic specification |
| LockCountdown.StepExactly | atomic/test_gcc_atomic_use_lock.cpp:10-21 | a thread that has not exited can step unless it has to wait for the mutex, so every interleaving is covered; the number changes only inside the mutex |
| LockCountdown.ExitsAtZero | atomic/test_gcc_atomic_use_lock.cpp:11-19 | for a start below 2^32 all threads leave only at zero, with all claims made |
| LockCountdown.NoDeadlock | atomic/test_gcc_atomic_use_lock.cpp:12-19 | some thread can step until all have exited |
| LockCountdown.RunsAreBounded | atomic/test_gcc_atomic_use_lock.cpp:12-19 | for such a start every run is finite, with an explicit bound |
| LockCountdown.CanFinish | atomic/test_gcc_atomic_use_lock.cpp:10-21 | for such a start every run can be continued until all threads have exited |
| LockCountdown.LeavesWork | atomic/test_gcc_atomic_use_lock.cpp:11-17 | from 2^32 on, some run has all threads leaving with a positive number left |
| LockCountdown.CountsToZeroExactly | atomic/test_gcc_atomic_use_lock.cpp:10-21 | the threads can finish and always finish at zero if and only if the start is in 0, ..., 2^32 - 1 |
| Reaping.EnabledExactly | css_echo.cpp:32-48 | the interleavings covered: exits at any time, delivery whenever the signal is pending and unblocked, any zombie returned by waitpid, main at any time the handler is not running |
| Reaping.ChildrenMove | test_fork_and_waitpid.cpp:28-61 | a fork adds a running child, an exit makes a zombie and a pending signal unless SIGCHLD is ignored, a call of waitpid takes the zombie it returns, and nothing else moves a child |
| Reaping.InvAlways | test_fork_and_waitpid.cpp:28-61 | in every state every forked child is running, a zombie or reaped once, and zombies mean a pending signal or a handler about to look |
| Reaping.NoZombieSurvivesQuiescence | css_echo.cpp:32-48 | for any coalescing of signals, whatever is still running and however many children are forked meanwhile: once exits pause, the process can always step while there is a zombie, and after a bounded number of its steps there is none and every exited child was reaped once |
| Reaping.RestsExactly | test_fork_and_waitpid.cpp:47-61 | once exits pause, a server comes to rest in a bounded number of its own steps, and so does a batch program that has done its forks and has no running child; any other batch program always has a step to take, as it forks on, sleeps and then polls |
| Reaping.DoneMeansAllReaped | test_fork_and_waitpid.cpp:47-61 | the polling loop ends only with no child left, and each of the n was reaped once, by the handler or the loop |
| Reaping.BatchFinishes | test_fork_and_waitpid.cpp:76-101 | the program can come to rest only at its end |
| Reaping.IgnoredNeedsNoHandler | css_echo.cpp:54-59 | if SIGCHLD was ignored at the start and the handler not installed, there is still never a zombie |
| SelectServer.Server.constructor | io/css_echo_select.cpp:54-61 | the initial table, set and bounds satisfy the invariant |
| SelectServer.Server.RunRound | io/css_echo_select.cpp:63-125 | one turn of the loop on the array computes the round function and keeps the invariant |
| SelectServer.EachReadyClientOnce | io/css_echo_select.cpp:96-121 | a full scan handles every ready client of the table exactly once, echoing its bytes or closing it, and no other descriptor |
| SelectServer.ScanCompletes | io/css_echo_select.cpp:96-121 | in spite of the early exit, and of closes not counting, the scan does all a full scan does, or exits exactly if a ready client fails |
| SelectServer.MaxfdStillBounds | io/css_echo_select.cpp:104-108 | although it goes down by one at most per close, the bound stays above every descriptor left |
| SelectServer.MaxfdExactly | io/css_echo_select.cpp:104-108 | the exact bound after a scan: all descriptors above it were closed, in descending order, and it was not closed after the one above it |
| SelectServer.EventsInSlotOrder | io/css_echo_select.cpp:96-121 | a scan handles its clients in the order of their slots |
| SelectServer.SelectMissesNone | io/css_echo_select.cpp:64-66 | because of the bound, select reports every ready member of the set |
| SelectServer.AcceptedExactly | io/css_echo_select.cpp:71-91 | a new connection joins the set, raises the bound, and takes the first free slot if there is one; no other slot changes |
| SelectServer.RoundIsComplete | io/css_echo_select.cpp:63-125 | a round exits exactly on an error of select, of accept or of a ready client; otherwise table, set, bounds and log are those of a full scan and the invariant holds again |
| SelectServer.RoundExactly | io/css_echo_select.cpp:63-125 | after a round the set is the old one with the new connection and without the ready clients at end of file, and each slot is freed, taken or unchanged accordingly |
| SelectServer.TableOkAlways | io/css_echo_select.cpp:54-125 | after every round of every run slots are distinct, maxi is -1 or the last used slot, maxfd bounds the set, which holds the server and the table |
| SelectServer.SetIsAccountedFor | io/css_echo_select.cpp:71-110 | after every run the set is exactly the server, the clients in the table and the connections accepted in rounds that found the table full; the three do not overlap |
| SelectServer.ServesAsExpected | io/css_echo_select.cpp:54-125 | over every run the table holds exactly the clients that came while fewer than 500 were served and have not ended, and the set those, the server and the connections turned away |
| SelectServer.EachRoundServesReadyClientsOnce | io/css_echo_select.cpp:64-121 | in every round of every run each ready table client is handled once, and no newly accepted or non-ready one |
| EpollServer.DeliversPrefix | lib/lhf.cpp:118-137 | whatever the writes return, a prefix goes out in order, and for a nonempty buffer success is returned if and only if all of it did |
| EpollServer.DeliversExactly | lib/lhf.cpp:118-137 | what goes out and which end it comes to, in terms of what the writes return: everything if they take it all before one fails, otherwise what they took before, and then the sign of the failing result decides |
| EpollServer.Server.FullWrite | lib/lhf.cpp:118-137 | the loop delivers exactly those bytes to its descriptor and no others change |
| EpollServer.Server.ReadWrite | io/socketio.cpp:87-107 | success means that what was read went out whole and in order, or end of file; no other connection changes |
| EpollServer.Server.ReadWriteShutdownIfReadEof | io/socketio.cpp:108-127 | it succeeds exactly if its calls do; bytes read are recorded and written back as far as the writes took them; at end of file both descriptors are closed, once if they are the same; a success keeps the invariant and no other connection changes |
| EpollServer.Server.DealEpollEvent | io/socketio.cpp:29-53 | an input event succeeds exactly if its calls do, and then its bytes are read and written back or the connection is closed; other events read and write nothing; a success keeps the invariant unless the event is a mere hang-up, and no other connection changes |
| EpollServer.Server.AcceptEpollCtl | io/socketio.cpp:8-19 | a success adds an empty connection and its interest; with a fresh descriptor it keeps the invariant, and no other connection changes |
| EpollServer.Server.RunBatch | io/css_echo_epoll.cpp:45-55 | the loop over the events computes the batch function and keeps the invariant unless it exits |
| EpollServer.Server.RunTurn | io/css_echo_epoll.cpp:40-56 | one turn of the endless loop exits on a failing epoll_wait or event and otherwise keeps the invariant |
| EpollServer.NoStaleEvent | io/css_echo_epoll.cpp:41-55 | no event of a batch is stale: when it is handled its descriptor is open and is the connection it was reported for, although earlier events closed and accepted others |
| EpollServer.EchoesWhileRunning | io/css_echo_epoll.cpp:40-56 | between batches of any run each connection, open or closed, was sent exactly what was read from it, the interest set is the server and the open connections, and none was closed twice |
| EpollServer.EventsDecide | io/css_echo_epoll.cpp:40-56 | a run is decided by its events: the server is alive exactly if every call succeeded, its connections are the clients that came and have not ended, and what was read from each, open or ended, is exactly what its events brought |
| EpollServer.PrefixEvenOnExit | io/css_echo_epoll.cpp:40-56 | even when an error ends the server, every client's output is a prefix of its input |
| EchoPair.ClientReadsAnyAmount | csc_echo.cpp:42-53 | the client's read may take any number of bytes up to 1023 of those there, the first ones, and waits when there are none; it goes on until it has as many as it sent and would exit on more |
| EchoPair.ServerReadsAnyAmount | css_echo.cpp:103-109 | the server's read likewise, so the theorems hold for every chunking |
| EchoPair.BytesAreConserved | csc_echo.cpp:32-53 | at any moment bytes sent are bytes received, then those in the channel back, the server's buffer and the channel out, in order |
| EchoPair.EachLineEchoedExactly | csc_echo.cpp:32-50 | whenever the client is back at fgets it has printed exactly the lines taken so far and nothing is in flight |
| EchoPair.NeverTooMany | csc_echo.cpp:50-52 | the exit for cnt>len is unreachable, for every chunking of the reads |
| EchoPair.RunsAreBounded | css_echo.cpp:103-109 | every run is finite: three moves per byte and two per line at most |
| EchoPair.StuckExactly | csc_echo.cpp:43-53 | a state without a next step is the end of the conversation, or the client waiting for the echo of an empty text |
| EchoPair.FinishesExactly | csc_echo.cpp:32-58 | a run that cannot go on has every line echoed and both programs finished if and only if no line starts with a NUL |

## Left out

- The destructor of `concurrent_array`: `main` never runs it.
- The width of `int` in the producer/consumer counters and in `(left+right)/2`: the counters stay within `products`, which fits, and the index sum is assumed to.
- Negative thread counts for the producer/consumer program, which `atoi` could return: `producers` and `consumers` are naturals.
- Sizes below 1 for the ring: the code then divides by zero or reads outside the array.
- SelectServer.RunRound: a write is taken whole, as the code assumes by not looking at its result; an error of read or write ends the server.
- EchoPair.FinishesExactly: writes are taken whole and stay within the channel's capacity, and the input ends between lines, as the code assumes.
- Lines are not bound to the 1023 bytes of the client's buffer; the theorems hold for any length.
- `io/css_echo_poll.cpp`: its scan starts at the listening slot and can see stale results; the select and epoll servers cover the same ground.
- `atomic/test_gcc_atomic_no_protect.cpp`: a deliberate data race.
- The handler's printing, `SA_NOCLDWAIT`, `errno` values, signal interruption of `accept` and `sleep`, and the grandchildren of `css_echo.cpp`, which are not children of the server.
- Option parsing, logging, timing, UDP programs, name lookup, daemon setup, the client drivers in `io/`, and `my_string.cpp`.
