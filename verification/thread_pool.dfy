/**
 * OptimizedThreadPool and RequestHandler: one BlockedQueue per worker, a
 * round-robin counter for push_task, and the work-stealing loop of
 * threadFunc.  Each method is one atomic step of the pool and is proved to
 * take the pool's state (as a value) to what the matching function of
 * PoolSteps says, while keeping the promise bookkeeping (Accounted).
 */
module Pool {
  import opened Queue
  import opened PoolSteps

  class ThreadPool {
    const threadCount: nat                    // m_thread_count
    const queues: seq<BlockedQueue<Task>>     // m_thread_queues
    var qindex: nat                           // m_qindex
    var issued: nat                           // futures handed out so far
    var fulfilled: set<nat>                   // futures whose promise is set

    /** The contents of every queue, in order. */
    function Contents(): (c: seq<seq<Task>>)
      reads queues
      ensures |c| == |queues|
      ensures forall k :: 0 <= k < |queues| ==> c[k] == queues[k].items
    {
      seq(|queues|, k requires 0 <= k < |queues| reads queues => queues[k].items)
    }

    function State(): PoolState
      reads this, queues
    {
      PoolState(Contents(), qindex, issued, fulfilled)
    }

    ghost predicate Valid()
      reads this, queues
    {
      |queues| == threadCount >= 1 &&
      (forall i, j :: 0 <= i < j < |queues| ==> queues[i] != queues[j]) &&
      qindex < UnsignedLimit &&
      Accounted(State())
    }

    /**
     * The constructor: hardware_concurrency() queues (4 when it reports 0).
     * m_qindex is left uninitialised by the source, so its first value is a
     * parameter here.
     */
    constructor(hardwareConcurrency: nat, initialIndex: nat)
      requires initialIndex < UnsignedLimit
      ensures Valid()
      ensures threadCount == ThreadCount(hardwareConcurrency)
      ensures State() == Initial(threadCount, initialIndex)
      ensures forall k :: 0 <= k < |queues| ==> fresh(queues[k])
    {
      var n := ThreadCount(hardwareConcurrency);
      var qs: seq<BlockedQueue<Task>> := [];
      while |qs| < n
        invariant |qs| <= n
        invariant forall k :: 0 <= k < |qs| ==> fresh(qs[k]) && qs[k].items == []
        invariant forall i, j :: 0 <= i < j < |qs| ==> qs[i] != qs[j]
      {
        var q := new BlockedQueue<Task>();
        qs := qs + [q];
      }
      threadCount := n;
      queues := qs;
      qindex := initialIndex;
      issued := 0;
      fulfilled := {};
      new;
      assert Contents() == Initial(n, initialIndex).queues;
      InitialAccounted(n, initialIndex);
    }

    /**
     * push_task: queue a job on queue m_qindex++ % m_thread_count and return
     * its future.  The job's callable is not modelled: no worker calls it.
     */
    method PushTask() returns (future: nat)
      requires Valid()
      modifies this, queues
      ensures Valid()
      ensures (State(), future) == PushTaskStep(old(State()))
    {
      ghost var before := State();
      var target := qindex % threadCount;
      qindex := NextIndex(qindex);
      future := issued;
      issued := issued + 1;
      queues[target].Push(Job(future));
      assert Contents() == before.queues[target := before.queues[target] + [Job(future)]];
      assert State() == PushTaskStep(before).0;
      PushTaskKeepsAccounted(before);
    }

    /** stop(): an empty task pushed to every queue in turn (the joins are not modelled). */
    method Stop()
      requires Valid()
      modifies queues
      ensures Valid()
      ensures State() == StopStep(old(State()))
    {
      ghost var before := State();
      var i := 0;
      while i < threadCount
        invariant 0 <= i <= threadCount
        invariant forall k :: 0 <= k < threadCount ==>
                    queues[k].items == if k < i then before.queues[k] + [Sentinel] else before.queues[k]
      {
        queues[i].Push(Sentinel);
        i := i + 1;
      }
      assert Contents() == SentinelsUpTo(before.queues, threadCount);
      StopKeepsAccounted(before);
    }

    /**
     * The scan at the top of threadFunc(qindex) for worker `w`: fast_pop from
     * queue (w + i) % m_thread_count for i = 0, 1, ... up to the first that
     * hands out a task.  `task` starts as the default (empty) task, which an
     * unsuccessful fast_pop leaves as it was.
     */
    method Scan(w: nat) returns (res: bool, task: Task, i: nat)
      requires Valid() && w < threadCount
      modifies queues
      ensures var first := FirstNonEmpty(old(Contents()), w, 0);
        res == (first < threadCount) && i == first
      ensures res ==> i < threadCount && task == old(Contents())[Slot(w, i, threadCount)][0]
      ensures res ==> forall k :: 0 <= k < threadCount ==>
                queues[k].items == if k == Slot(w, i, threadCount) then old(queues[k].items)[1..] else old(queues[k].items)
      ensures !res ==> forall k :: 0 <= k < threadCount ==> queues[k].items == old(queues[k].items)
    {
      ghost var before := Contents();
      res, task, i := false, Sentinel, 0;
      while i < threadCount
        invariant 0 <= i <= threadCount && !res
        invariant forall k :: 0 <= k < threadCount ==> queues[k].items == before[k]
        invariant FirstNonEmpty(before, w, i) == FirstNonEmpty(before, w, 0)
      {
        SlotIsMod(w, i, threadCount);
        res, task := queues[(w + i) % threadCount].FastPop(task);
        if res {
          return;
        }
        i := i + 1;
      }
    }

    /**
     * One pass of threadFunc(qindex) for worker `w`, as far as the point
     * where it either takes a task or has to wait in pop on its own queue.
     * If the scan got nothing, the worker goes on to the blocking pop
     * (ResumeBlockedPop) and nothing has changed yet.  An empty task from the
     * scan is pushed back to the queue it came from and the worker returns;
     * for a job, the promise is set.
     */
    method ThreadFuncIteration(w: nat) returns (step: Step)
      requires Valid() && w < threadCount
      modifies this, queues
      ensures Valid()
      ensures (State(), step) == ScanStep(old(State()), w)
    {
      ghost var before := State();
      var res, task, i := Scan(w);
      if !res {
        step := Blocked;
        assert Contents() == before.queues;
        return;
      }
      SlotIsMod(w, i, threadCount);
      var k := (w + i) % threadCount;
      ghost var rest := before.queues[k][1..];
      if task == Sentinel {
        queues[k].Push(task);
        step := Exited;
        assert Contents() == before.queues[k := rest + [task]];
      } else {
        fulfilled := fulfilled + {task.id};
        step := Fulfilled(task.id);
        assert Contents() == before.queues[k := rest] by {
          assert rest + [] == rest;
        }
      }
      assert (State(), step) == ScanStep(before, w) && Accounted(State()) by {
        assert State() == ScanStep(before, w).0;
        ScanKeepsAccounted(before, w);
      }
    }

    /**
     * The blocking pop of threadFunc completing: worker `w` takes the front
     * of its own queue.  An empty task taken here ends the worker without
     * being pushed back; for a job, the promise is set.
     */
    method ResumeBlockedPop(w: nat) returns (step: Step)
      requires Valid() && w < threadCount && queues[w].items != []
      modifies this, queues[w]
      ensures Valid()
      ensures (State(), step) == ResumeStep(old(State()), w)
    {
      ghost var before := State();
      var task := queues[w].Pop();
      if task == Sentinel {
        step := Exited;
      } else {
        fulfilled := fulfilled + {task.id};
        step := Fulfilled(task.id);
      }
      assert Contents() == before.queues[w := before.queues[w][1..]];
      ResumeKeepsAccounted(before, w);
    }
  }

  /** RequestHandler: owns a pool, starts it, and stops it when destroyed. */
  class RequestHandler {
    const pool: ThreadPool

    /** The constructor builds the pool; start() (spawning the workers) is not modelled. */
    constructor(hardwareConcurrency: nat, initialIndex: nat)
      requires initialIndex < UnsignedLimit
      ensures fresh(pool) && pool.Valid()
      ensures pool.State() == Initial(ThreadCount(hardwareConcurrency), initialIndex)
    {
      pool := new ThreadPool(hardwareConcurrency, initialIndex);
    }

    /** push_request: hands the job to the pool's push_task. */
    method PushRequest() returns (future: nat)
      requires pool.Valid()
      modifies pool, pool.queues
      ensures pool.Valid()
      ensures (pool.State(), future) == PushTaskStep(old(pool.State()))
    {
      future := pool.PushTask();
    }

    /** The destructor: stops the pool. */
    method Close()
      requires pool.Valid()
      modifies pool.queues
      ensures pool.Valid()
      ensures pool.State() == StopStep(old(pool.State()))
    {
      pool.Stop();
    }
  }
}
