# Pool: merge sort over a work-stealing thread pool, modelled in Dafny

The repository sorts a vector of `int` with a top-down merge sort (`MergeSort` in
`main.cpp`). The sort can run in one of three ways:

- all on the calling thread;
- with `std::async` for both halves;
- with the left half handed to a home-grown thread pool.

The pool (`OptimizedThreadPool`, reached through `RequestHandler`) keeps one
`BlockedQueue` per worker. `push_task` places jobs round robin. Each worker scans
every queue with `fast_pop`, starting at its own, and falls back to a blocking `pop`
on its own queue. `stop` pushes one empty task per queue.

The model has five modules:

| module | file | what it holds |
|---|---|---|
| `Merging` | `merge.dfy` | `std::merge`, in its usual two-pointer implementation, as the function `Merge`, its interleaving, stability and sortedness lemmas, and `MergeInto`, the merge loop over two indices that writes into an array |
| `Sorting` | `merge_sort.dfy` | `MergeSort` as a method on an `array<int>` range, proved to leave `MergeSortOf` of the old range and to write nothing outside it; lemmas about `MergeSortOf` under each policy |
| `Queue` | `blocked_queue.dfy` | `BlockedQueue<T>` as a class over a `seq<T>`; `Run`, the effect of any run of pushes, `pop`s and `fast_pop`s, with a FIFO lemma about it; and `Apply`, which makes such a run through the class's methods and is proved to have the effect `Run` gives |
| `PoolSteps` | `pool_steps.dfy` | the pool's state as a value and every pool operation as a function on it, with the lemmas: round robin, promise bookkeeping, blocking and shutdown |
| `Pool` | `thread_pool.dfy` | the classes `ThreadPool` and `RequestHandler`, whose methods change the queues in place and are proved to follow the `PoolSteps` functions |

A queued task is either the empty task (`Sentinel`) or `Job(id)`. Futures are
numbered in the order `push_task` hands them out. The pool keeps:

- `issued`: how many futures have been handed out;
- `fulfilled`: the set of futures whose promise has been set.

`Accounted` is the invariant the pool's methods preserve:

- every future still pending has exactly one job in the queues;
- every set promise belongs to a future that was handed out;
- so no promise is set twice.

### What the code does

- The pooled branch does not sort its left half. The worker evaluates `task_to_do.task;`
  (`optimized_thread.cpp:43`) without calling it and then sets the promise. `MergeSort`
  therefore merges the left half exactly as copied. The model follows the code:
  - `MergeSortOf` leaves the pooled left half unsorted;
  - `Sorting.PooledBranchSortedIff` says when the result is still sorted;
  - `Sorting.PooledSortLeavesReversedRangeUnsorted` shows an input of 10001
    elements that stays unsorted.

  The driver's checks (`main.cpp:103`, `main.cpp:115`) hold anyway, because the vector
  they re-sort is already sorted (`Sorting.DriverComparisonsHold`).
- An empty task found by the scan is pushed back to the queue it was taken from, whether that is the
  worker's own queue or a peer's, and the worker returns. An empty task taken by the blocking `pop` is
  consumed, and the worker returns (`optimized_thread.cpp:31-42`).
- `m_qindex` is an `unsigned` that the constructor never initialises. The program's only pool lives
  in the global `rh` (`main.cpp:18`), which has static storage, so there the counter starts at 0. The
  model generalises this: the first value is a constructor parameter. The increment wraps at 2^32.
  While the counter does not wrap, any n successive calls of `push_task` put one job on each of the
  n queues (`PoolSteps.RoundRobinPushes`). At the wrap, when 2^32 is not a multiple of the thread
  count, the calls around it are placed unevenly (`PoolSteps.RoundRobinBreaksAtWrap`).

## Model

| member | source | states |
|---|---|---|
| Merging.Merge | main.cpp:60 | the merged output is as long as both runs together |
| Merging.MergePermutes | main.cpp:60 | the merge writes every element of both runs exactly once: the multiset of the output is the sum of the runs' multisets |
| Merging.MergeInterleaves | main.cpp:60 | the output positions taken from the first run spell out that run exactly, and likewise for the second run: no element is lost, duplicated or reordered within its run |
| Merging.MergeSourcesAttribute | main.cpp:60 | every output element attributed to a run is an element of that run |
| Merging.MergeStable | main.cpp:60 | on ascending runs, an element of the second run is written before one of the first run only when it is strictly smaller, so of equal elements the first run's go first |
| Merging.MergeSorted | main.cpp:60 | merging two ascending runs gives an ascending run |
| Merging.MergeSortedOnlyFromSortedRuns | main.cpp:60 | conversely, an ascending merge result means both runs were ascending: the merge cannot repair an unsorted run |
| Merging.PickSorted | main.cpp:60 | any subsequence of an ascending sequence is ascending |
| Merging.MergeOfSortedConcat | main.cpp:60 | merging the two halves of an ascending sequence gives that sequence back |
| Merging.MergeTakesFirst | main.cpp:60 | the first run's head is written next unless the second run's head is strictly smaller |
| Merging.MergeTakesSecond | main.cpp:60 | the second run's head is written next when it is strictly smaller or the first run is used up |
| Merging.MergeStepFirst | main.cpp:60 | writing the first run's head when the second run's head is not smaller keeps the merge loop's output a prefix of the merge |
| Merging.MergeStepSecond | main.cpp:60 | writing the second run's head when it is strictly smaller keeps the merge loop's output a prefix of the merge |
| Merging.MergeInto | main.cpp:60 | std::merge of the two halves of the buffer into dst[lo..hi]: that range ends up equal to the merge of the buffer's old halves, and every other position of dst keeps its value |
| Sorting.Split | main.cpp:37 | the halves concatenate back to the range; the left half has n/2 elements, the right n - n/2, and they differ in length by at most one |
| Sorting.BranchFor | main.cpp:39-57 | the async branch is taken exactly when multithreading is on and the range has more than 10000 elements; the pooled branch exactly when multithreading is off, the pool is on and the range is that long; otherwise the range is sorted on the calling thread |
| Sorting.MergeSortOf | main.cpp:24-61 | the result of each policy has the length of its input |
| Sorting.MergeSortPermutes | main.cpp:33-60 | under every policy the range ends up a permutation of what it held |
| Sorting.MergeSortSorts | main.cpp:39-60 | on the sequential and async paths, and for ranges of at most 10000 elements, the range ends up ascending |
| Sorting.MergeSortIsTheSortedPermutation | main.cpp:39-60 | on those paths the result is the unique ascending rearrangement of the input |
| Sorting.SortedPermutationUnique | main.cpp:39-60 | two ascending sequences with the same elements are equal |
| Sorting.MergeSortKeepsSorted | main.cpp:27-60 | an ascending range, including any range shorter than 2, is left unchanged under every policy, the pooled one included |
| Sorting.AsyncMatchesSequential | main.cpp:39-46 | the async branch gives exactly the sequential result |
| Sorting.PooledBranchSortedIff | main.cpp:47-52 | in the pooled branch the result is ascending if and only if the unsorted left half was ascending and the sorted right half is |
| Sorting.PooledSortLeavesReversedRangeUnsorted | main.cpp:47-52 | the pooled sort of the descending range 10001, ..., 1 is not ascending |
| Sorting.DriverComparisonsHold | main.cpp:79-115 | re-sorting the sequentially sorted vector sequentially, under the async policy and under the pooled policy each leaves it equal to the sorted vector, so both of the driver's comparisons hold |
| Sorting.CopyRange | main.cpp:33 | the temporary buffer is a fresh array holding a copy of the range |
| Sorting.MergeSort | main.cpp:24-61 | the range a[lo..hi] ends up holding MergeSortOf of its old contents under the current policy; no position outside it changes |
| Sorting.SortHalves | main.cpp:39-57 | after the branch, the right half of the buffer is sorted recursively; the left half is sorted on the async and sequential paths and left as copied on the pooled path |
| Queue.BlockedQueue.constructor | optimized_thread.h:47 | a new queue is empty |
| Queue.BlockedQueue.Push | optimized_thread.h:16-21 | the item joins the back and every earlier item keeps its place |
| Queue.BlockedQueue.Pop | optimized_thread.h:22-31 | once the queue is non-empty, pop hands out the front and leaves the rest in order |
| Queue.BlockedQueue.FastPop | optimized_thread.h:33-43 | returns true exactly when the queue was non-empty; then it hands out the front and leaves the rest; otherwise the queue and the caller's item are unchanged |
| Queue.Pushed | optimized_thread.h:16-21 | the items a run of calls pushes, in call order, one per push and none per pop or fast_pop; its contract bounds them by the number of calls |
| Queue.Run | optimized_thread.h:16-43 | the effect of a run of calls on a queue: a push appends its item, a pop takes the front, a fast_pop takes the front of a non-empty queue and does nothing on an empty one; the result is the items handed out, in order, and the items left; it hands out at most one item per call |
| Queue.Apply | optimized_thread.h:16-43 | making the calls one after the other through push, pop and fast_pop on a queue object hands out exactly the items Run says and leaves the queue holding what Run says, so FifoOrder holds for the class itself |
| Queue.FifoOrder | optimized_thread.h:16-43 | for any run of pushes, pops and fast_pops in which every pop finds an item, the items handed out followed by those still queued are exactly the items first queued followed by those pushed, in order; with Apply this holds for the queue object itself |
| Queue.FifoOrderTake | optimized_thread.h:22-43 | the same for a run that starts with a pop or fast_pop taking the front of a non-empty queue |
| PoolSteps.ThreadCount | optimized_thread.cpp:4 | the thread count is hardware_concurrency() when that is non-zero and 4 when it is 0, so at least 1 in every case |
| PoolSteps.NextIndex | optimized_thread.cpp:65 | m_qindex++ on an unsigned counter: one more, or 0 after 2^32 - 1 |
| PoolSteps.Targets | optimized_thread.cpp:65 | the next k calls of push_task pick k queues, each a valid queue index |
| PoolSteps.TargetsAreConsecutive | optimized_thread.cpp:65 | while the counter does not wrap, call i of push_task picks queue (c + i) % n |
| PoolSteps.RoundRobinFair | optimized_thread.cpp:65 | without a wrap, n consecutive calls of push_task place one job on each of the n queues, each on a different one |
| PoolSteps.PushTasks | optimized_thread.cpp:62-74 | after k calls of push_task the pool still has its n queues, k more futures are issued, and the counter is a valid unsigned value |
| PoolSteps.JobsFor | optimized_thread.cpp:65-72 | the jobs that a run of push_task calls with the given queue picks sends to queue q, in call order, the i-th call carrying job first + i; its contract bounds them by the number of calls |
| PoolSteps.JobsForNone | optimized_thread.cpp:65-72 | a queue that no call picks receives no job |
| PoolSteps.PushTasksQueues | optimized_thread.cpp:62-74 | k calls of push_task append to each queue, in call order, exactly the jobs of the calls that pick that queue |
| PoolSteps.JobsForSingle | optimized_thread.cpp:65-72 | a queue picked by exactly one call, call i, receives exactly that call's job |
| PoolSteps.TargetsDistinct | optimized_thread.cpp:65 | without a wrap, n successive calls on n queues never pick the same queue twice |
| PoolSteps.TargetOf | optimized_thread.cpp:65 | without a wrap, each of the n queues is picked by one of n successive calls |
| PoolSteps.RoundRobinPushOne | optimized_thread.cpp:62-74 | without a wrap, call i of n picks queue (m_qindex + i) % n, and after the n calls that queue has gained exactly job issued + i at its back |
| PoolSteps.RoundRobinCovers | optimized_thread.cpp:62-74 | without a wrap, n calls make every queue exactly one task longer |
| PoolSteps.RoundRobinPushes | optimized_thread.cpp:62-74 | without a wrap, n calls of push_task on a pool of n queues add exactly one job to every queue; call i puts job issued + i at the back of queue (m_qindex + i) % n |
| PoolSteps.RoundRobinBreaksAtWrap | optimized_thread.cpp:65 | with 3 threads, the two calls around the wrap of the counter both pick queue 0 |
| PoolSteps.Slot | optimized_thread.cpp:26 | the queue probed at scan step j is a valid queue index |
| PoolSteps.SlotIsMod | optimized_thread.cpp:26 | it is queue (qindex + j) % m_thread_count |
| PoolSteps.FirstNonEmpty | optimized_thread.cpp:23-30 | the scan stops at the first probe whose queue is non-empty, every queue probed before it being empty, or runs through all n probes |
| PoolSteps.Initial | optimized_thread.cpp:3-7 | a new pool holds n empty queues, the given counter, no future handed out and no promise set |
| PoolSteps.PushTaskStep | optimized_thread.cpp:62-74 | push_task appends job issued to the back of queue m_qindex % n, leaves every other queue as it was, advances the counter with 32-bit wrap, hands out one more future and returns the new job's number |
| PoolSteps.StopStep | optimized_thread.cpp:49-55 | stop() appends one empty task to the back of every queue and changes nothing else |
| PoolSteps.Complete | optimized_thread.cpp:39-44 | after a task is taken: an empty task ends the worker with no promise set; a job's id joins the set promises and the pass reports it; the queues, the counter and the futures handed out are unchanged |
| PoolSteps.ScanStep | optimized_thread.cpp:18-44 | the first non-empty queue in probe order (w + i) % n loses its front; an empty task is re-queued at that queue's back and the pass ends Exited; a job's id joins the set promises; every other queue is unchanged; all queues empty gives Blocked with nothing changed |
| PoolSteps.ResumeStep | optimized_thread.cpp:31-44 | the blocking pop takes the front of the worker's own queue and leaves the other queues unchanged; an empty task is consumed and ends the worker; a job's id joins the set promises |
| PoolSteps.InitialAccounted | optimized_thread.cpp:3-7 | a new pool satisfies the promise bookkeeping |
| PoolSteps.PushTaskKeepsAccounted | optimized_thread.cpp:62-74 | push_task keeps the bookkeeping and hands out a future whose promise is unset; no promise is set by it |
| PoolSteps.StopKeepsAccounted | optimized_thread.cpp:49-55 | stop() queues no job and sets no promise |
| PoolSteps.SentinelsUpToAccounted | optimized_thread.cpp:51-55 | pushing empty tasks to the first i queues keeps the bookkeeping |
| PoolSteps.TakeCount | optimized_thread.cpp:26-38 | taking the front task off a queue (and putting an empty task back) removes exactly that one task from the pool's count of each job |
| PoolSteps.TakeKeepsAccounted | optimized_thread.cpp:31-44 | a job taken off a queue is one whose promise is unset, and setting it keeps the bookkeeping |
| PoolSteps.ScanKeepsAccounted | optimized_thread.cpp:18-44 | a pass of threadFunc that takes a job from the scan sets a promise that was unset, adds only that one to the set promises, and keeps the bookkeeping |
| PoolSteps.ResumeKeepsAccounted | optimized_thread.cpp:31-44 | the same for a task taken by the blocking pop |
| PoolSteps.ScanBlocksOnlyWhenAllEmpty | optimized_thread.cpp:23-34 | a worker falls back to the blocking pop if and only if every queue is empty |
| PoolSteps.PushTaskKeepsSentinelsLast | optimized_thread.cpp:62-74 | a push_task onto a queue holding no empty task keeps every job ahead of every empty task |
| PoolSteps.StopKeepsSentinelsLast | optimized_thread.cpp:49-55 | stop() puts its empty tasks behind everything queued, and adds no job to a queue that has none |
| PoolSteps.ScanExitLeavesNoOwnJob | optimized_thread.cpp:35-42 | a worker that returns after its scan leaves no job in its own queue, and the pass neither adds a job to a job-free queue nor lets a job overtake an empty task |
| PoolSteps.ResumeExitLeavesNoOwnJob | optimized_thread.cpp:31-42 | the same for a worker returning after the blocking pop |
| PoolSteps.NoJobsNoOccurrences | optimized_thread.cpp:39-44 | queues holding only empty tasks hold no job |
| PoolSteps.DrainedMeansAllFulfilled | optimized_thread.cpp:39-44 | once no queue holds a job, every future handed out has had its promise set |
| Pool.ThreadPool.constructor | optimized_thread.cpp:3-7 | m_thread_count fresh empty queues, nothing handed out, the bookkeeping established |
| Pool.ThreadPool.PushTask | optimized_thread.cpp:62-74 | the job goes to the back of queue m_qindex % m_thread_count, every other queue is unchanged, the counter advances with 32-bit wrap, and the future returned is the new job's; the pool's invariant is kept |
| Pool.ThreadPool.Stop | optimized_thread.cpp:49-55 | one empty task is pushed to the back of each queue; nothing else changes and the invariant is kept |
| Pool.ThreadPool.Scan | optimized_thread.cpp:20-30 | fast_pop from queue (w + i) % n for i = 0, 1, ... stops at the first non-empty queue and takes its front; all other queues are unchanged, and nothing changes when every queue is empty |
| Pool.ThreadPool.ThreadFuncIteration | optimized_thread.cpp:16-46 | one pass of threadFunc: the pool's state and the outcome are those of ScanStep (block, return after pushing an empty task back, or set the promise of the job taken), and the invariant is kept |
| Pool.ThreadPool.ResumeBlockedPop | optimized_thread.cpp:31-44 | the blocking pop completing on the worker's own queue: the front is taken, an empty task ends the worker without being pushed back, and a job has its promise set; the invariant is kept |
| Pool.RequestHandler.constructor | optimized_thread.cpp:76-79 | the handler owns a freshly built pool in its initial state |
| Pool.RequestHandler.PushRequest | optimized_thread.cpp:87-90 | push_request has exactly the effect of push_task |
| Pool.RequestHandler.Close | optimized_thread.cpp:82-85 | the destructor has exactly the effect of stop() |

## Left out

- Threads are not modelled. This covers `std::thread` creation in `start()`, the joins in `stop()`, the mutexes, the condition variable and `notify_one`. Every queue and pool method is one atomic step, and which worker runs next is the caller's choice.
- Pool.ThreadPool.ResumeBlockedPop: the blocking `pop` is modelled as the step in which it completes, so it requires the worker's own queue to be non-empty. The wait itself is not a step.
- Pool.ThreadPool.ThreadFuncIteration: the scan is treated as one atomic step. In the code, other threads may push between two `fast_pop`s.
- `threadFunc`'s `while (true)` loop is modelled one pass at a time (`ThreadFuncIteration`, then possibly `ResumeBlockedPop`). Liveness is not claimed: no claim that a worker eventually runs or that `stop()` returns.
- `std::promise`/`std::future` are reduced to a future number and the set of numbers whose promise is set. `wait()` and `get()` are not modelled.
- A job's callable (`std::function`, the captured iterators and function pointer) is not modelled, because no worker ever calls it. A task is a `Sentinel` or a numbered `Job`.
- Sorting.SortHalves: the two `std::async` calls run one after the other, which is their observable effect, since both are awaited before the merge. Their concurrent execution is not modelled.
- Sorting.SortHalves: in the pooled branch the `push_request` is not modelled, because its task is never run. That branch leaves the left half as copied.
- `std::thread::hardware_concurrency()` is a parameter of the constructor. So is the first value of `m_qindex`, which the code never initialises; in the program it is 0, because the pool sits in a global.
- PoolSteps.ThreadCount: the conversion of the `unsigned` thread count to `int m_thread_count` is not modelled; the count is taken to be below 2^31.
- `main`'s driver work is not modelled: the random data, the timing and the console output. Its re-sorting checks are stated as `Sorting.DriverComparisonsHold`.
- `PrintRange` is not modelled; it only prints.
- Merging.Merge: on runs that are not ascending, the C++ standard leaves the result of `std::merge` undefined, and debugging builds of the standard library may stop the program. The model gives the result of the usual two-pointer implementation there. The pooled branch merges an unsorted left half, so `Sorting.PooledBranchSortedIff`, `Sorting.PooledSortLeavesReversedRangeUnsorted` and `Merging.MergeSortedOnlyFromSortedRuns` describe that implementation, not a guarantee of the standard.
- Elements are `int` compared with `<`. The element type of the template is not modelled beyond that.
