/**
 * The state of OptimizedThreadPool as a value, and each of its operations as a
 * function from state to state.  The class in thread_pool.dfy is proved to
 * follow these functions; the lemmas here say what the functions guarantee.
 *
 * A queued TaskWithPromise is either the empty task that stop() pushes (a
 * Sentinel) or a job whose promise is number `id`: futures are numbered in
 * the order push_task hands them out, `issued` of them so far, and the set
 * `fulfilled` holds those whose promise has been set.
 */
module PoolSteps {

  /** m_qindex is an `unsigned`: 32 bits, wrapping to 0. */
  const UnsignedLimit: nat := 0x1_0000_0000

  datatype Task = Sentinel | Job(id: nat)

  /** How one pass of threadFunc's loop ends. */
  datatype Step =
    | Blocked          // every queue was empty: the worker now waits in pop
    | Exited           // it met an empty task and returned
    | Fulfilled(id: nat) // it set the promise of job `id` and loops again

  datatype PoolState = PoolState(
    queues: seq<seq<Task>>,  // m_thread_queues, each front first
    qindex: nat,             // m_qindex
    issued: nat,             // futures handed out so far
    fulfilled: set<nat>)     // futures whose promise has been set

  /** m_thread_count: hardware_concurrency(), or 4 when that reports 0. */
  function ThreadCount(hardwareConcurrency: nat): (n: nat)
    ensures n >= 1
    ensures hardwareConcurrency != 0 ==> n == hardwareConcurrency
    ensures hardwareConcurrency == 0 ==> n == 4
  {
    if hardwareConcurrency != 0 then hardwareConcurrency else 4
  }

  /** A freshly built pool: `n` empty queues, nothing handed out. */
  function Initial(n: nat, qindex: nat): (st: PoolState)
    ensures |st.queues| == n && forall k :: 0 <= k < n ==> st.queues[k] == []
    ensures st.qindex == qindex && st.issued == 0 && st.fulfilled == {}
  {
    PoolState(seq(n, _ => []), qindex, 0, {})
  }

  /** m_qindex++ on a 32-bit unsigned counter. */
  function NextIndex(c: nat): (c': nat)
    requires c < UnsignedLimit
    ensures c' < UnsignedLimit
    ensures c' == c + 1 || (c + 1 == UnsignedLimit && c' == 0)
  {
    (c + 1) % UnsignedLimit
  }

  /** The queues the next `k` calls of push_task push to, from counter `c`. */
  function Targets(c: nat, n: nat, k: nat): (r: seq<nat>)
    requires c < UnsignedLimit && n >= 1
    ensures |r| == k && forall i :: 0 <= i < k ==> r[i] < n
    decreases k
  {
    if k == 0 then [] else [c % n] + Targets(NextIndex(c), n, k - 1)
  }

  // ---------------------------------------------------------------------------
  // The operations

  /**
   * push_task: the job goes to the back of queue m_qindex % m_thread_count,
   * the counter moves on, and the caller gets the job's future.
   */
  function PushTaskStep(st: PoolState): (r: (PoolState, nat))
    requires |st.queues| >= 1 && st.qindex < UnsignedLimit
    ensures var target := st.qindex % |st.queues|;
      |r.0.queues| == |st.queues| &&
      r.0.queues[target] == st.queues[target] + [Job(st.issued)] &&
      forall k :: 0 <= k < |st.queues| && k != target ==> r.0.queues[k] == st.queues[k]
    ensures r.0.qindex == NextIndex(st.qindex) && r.0.issued == st.issued + 1
    ensures r.0.fulfilled == st.fulfilled && r.1 == st.issued
  {
    var target := st.qindex % |st.queues|;
    (st.(queues := st.queues[target := st.queues[target] + [Job(st.issued)]],
         qindex := NextIndex(st.qindex),
         issued := st.issued + 1),
     st.issued)
  }

  /** The queues after an empty task has been pushed to each of the first `i`. */
  function SentinelsUpTo(qs: seq<seq<Task>>, i: nat): seq<seq<Task>>
  {
    seq(|qs|, k requires 0 <= k < |qs| => if k < i then qs[k] + [Sentinel] else qs[k])
  }

  /** stop(): one empty task pushed to every queue, in order (the joins are not modelled). */
  function StopStep(st: PoolState): (r: PoolState)
    ensures |r.queues| == |st.queues|
    ensures forall k :: 0 <= k < |st.queues| ==> r.queues[k] == st.queues[k] + [Sentinel]
    ensures r.qindex == st.qindex && r.issued == st.issued && r.fulfilled == st.fulfilled
  {
    st.(queues := SentinelsUpTo(st.queues, |st.queues|))
  }

  /**
   * The queue worker `w` probes at step `j` of its scan: (w + j) % n, written
   * without the division since both are below n (SlotIsMod).
   */
  function Slot(w: nat, j: nat, n: nat): (s: nat)
    requires w < n && j < n
    ensures s < n
  {
    if w + j < n then w + j else w + j - n
  }

  /**
   * The scan of threadFunc: from position `i` on, the first probe `k` whose
   * queue is not empty, or n when all the rest are empty.
   */
  function FirstNonEmpty(qs: seq<seq<Task>>, w: nat, i: nat): (k: nat)
    requires w < |qs| && i <= |qs|
    ensures i <= k <= |qs|
    ensures k < |qs| ==> qs[Slot(w, k, |qs|)] != []
    ensures forall j :: i <= j < k ==> qs[Slot(w, j, |qs|)] == []
    decreases |qs| - i
  {
    if i == |qs| then i
    else if qs[Slot(w, i, |qs|)] != [] then i
    else FirstNonEmpty(qs, w, i + 1)
  }

  /** What a worker does with a task it has taken off a queue. */
  function Complete(st: PoolState, t: Task): (r: (PoolState, Step))
    ensures r.0.queues == st.queues && r.0.qindex == st.qindex && r.0.issued == st.issued
    ensures t == Sentinel ==> r.1 == Exited && r.0.fulfilled == st.fulfilled
    ensures t.Job? ==> r.1 == Fulfilled(t.id) && r.0.fulfilled == st.fulfilled + {t.id}
  {
    match t
    case Sentinel => (st, Exited)
    case Job(id) => (st.(fulfilled := st.fulfilled + {id}), Fulfilled(id))
  }

  /**
   * One pass of threadFunc for worker `w` up to the point where it either
   * blocks in pop on its own queue or has taken a task: the scan fast_pops
   * from its own queue first, then from the following ones.  An empty task
   * found by the scan is pushed back to the queue it came from and the worker
   * returns; a job has its promise set (its function is never called).
   */
  function ScanStep(st: PoolState, w: nat): (r: (PoolState, Step))
    requires w < |st.queues|
    ensures r.0.qindex == st.qindex && r.0.issued == st.issued && |r.0.queues| == |st.queues|
    ensures var i := FirstNonEmpty(st.queues, w, 0);
      (i == |st.queues| ==> r == (st, Blocked)) &&
      (i < |st.queues| ==>
         var k := Slot(w, i, |st.queues|);
         var t := st.queues[k][0];
         (forall j :: 0 <= j < |st.queues| && j != k ==> r.0.queues[j] == st.queues[j]) &&
         (t == Sentinel ==>
            r.1 == Exited && r.0.queues[k] == st.queues[k][1..] + [Sentinel] && r.0.fulfilled == st.fulfilled) &&
         (t.Job? ==>
            r.1 == Fulfilled(t.id) && r.0.queues[k] == st.queues[k][1..] && r.0.fulfilled == st.fulfilled + {t.id}))
  {
    var n := |st.queues|;
    var i := FirstNonEmpty(st.queues, w, 0);
    if i == n then (st, Blocked)
    else
      var k := Slot(w, i, n);
      var t := st.queues[k][0];
      var st' := st.(queues := st.queues[k := st.queues[k][1..] + if t == Sentinel then [t] else []]);
      Complete(st', t)
  }

  /**
   * The blocking pop of worker `w` completing once its own queue holds a
   * task: an empty task taken here is not pushed back.
   */
  function ResumeStep(st: PoolState, w: nat): (r: (PoolState, Step))
    requires w < |st.queues| && st.queues[w] != []
    ensures r.0.qindex == st.qindex && r.0.issued == st.issued && |r.0.queues| == |st.queues|
    ensures r.0.queues[w] == st.queues[w][1..]
    ensures forall j :: 0 <= j < |st.queues| && j != w ==> r.0.queues[j] == st.queues[j]
    ensures var t := st.queues[w][0];
      (t == Sentinel ==> r.1 == Exited && r.0.fulfilled == st.fulfilled) &&
      (t.Job? ==> r.1 == Fulfilled(t.id) && r.0.fulfilled == st.fulfilled + {t.id})
  {
    Complete(st.(queues := st.queues[w := st.queues[w][1..]]), st.queues[w][0])
  }

  // ---------------------------------------------------------------------------
  // Round-robin distribution

  lemma {:induction false} TargetsAreConsecutive(c: nat, n: nat, k: nat, i: nat)
    requires c < UnsignedLimit && n >= 1 && c + k <= UnsignedLimit && i < k
    ensures Targets(c, n, k)[i] == (c + i) % n
    decreases i
  {
    if i > 0 {
      TargetsAreConsecutive(NextIndex(c), n, k - 1, i - 1);
    }
  }

  lemma ModOfShifted(x: int, n: int)
    requires 0 <= x < 2 * n
    ensures x % n == if x < n then x else x - n
  {
  }

  lemma SlotIsMod(w: nat, j: nat, n: nat)
    requires w < n && j < n
    ensures Slot(w, j, n) == (w + j) % n
  {
    ModOfShifted(w + j, n);
  }

  /** Euclidean division leaves one remainder only. */
  lemma ModUnique(x: int, a: int, b: int, n: int)
    requires n >= 1 && x == a * n + b && 0 <= b < n
    ensures x % n == b
  {
    var d := x / n;
    var e := a - d;
    assert e * n == x % n - b;
  }

  lemma ModOfSum(c: nat, i: nat, n: nat)
    requires n >= 1
    ensures (c + i) % n == (c % n + i) % n
  {
    var r := c % n + i;
    ModUnique(c + i, c / n + r / n, r % n, n);
  }

  /**
   * While the counter does not wrap, any `n` consecutive calls of push_task
   * put exactly one job on each of the `n` queues.
   */
  lemma RoundRobinFair(c: nat, n: nat)
    requires c < UnsignedLimit && n >= 1 && c + n <= UnsignedLimit
    ensures forall q :: 0 <= q < n ==> q in Targets(c, n, n)
    ensures forall i, j :: 0 <= i < j < n ==> Targets(c, n, n)[i] != Targets(c, n, n)[j]
  {
    var t := Targets(c, n, n);
    var r := c % n;
    forall i | 0 <= i < n
      ensures t[i] == if r + i < n then r + i else r + i - n
    {
      TargetsAreConsecutive(c, n, n, i);
      ModOfSum(c, i, n);
      ModOfShifted(r + i, n);
    }
    forall q | 0 <= q < n
      ensures q in t
    {
      var i := if q >= r then q - r else q + n - r;
      assert t[i] == q;
    }
  }

  /** The pool after `k` successive calls of push_task. */
  function PushTasks(st: PoolState, k: nat): (r: PoolState)
    requires |st.queues| >= 1 && st.qindex < UnsignedLimit
    ensures |r.queues| == |st.queues| && r.qindex < UnsignedLimit && r.issued == st.issued + k
    decreases k
  {
    if k == 0 then st else PushTasks(PushTaskStep(st).0, k - 1)
  }

  /**
   * The jobs numbered `first`, `first + 1`, ... whose push goes to queue `q`,
   * when the successive pushes pick the queues `ts`.
   */
  function JobsFor(first: nat, ts: seq<nat>, q: nat): (r: seq<Task>)
    ensures |r| <= |ts|
    decreases |ts|
  {
    if ts == [] then []
    else (if ts[0] == q then [Job(first)] else []) + JobsFor(first + 1, ts[1..], q)
  }

  /**
   * What `k` calls of push_task do to queue `q`: they append, in order, the
   * jobs of exactly those calls whose pick (Targets) is `q`.
   */
  lemma {:induction false} PushTasksQueues(st: PoolState, k: nat, q: nat)
    requires |st.queues| >= 1 && st.qindex < UnsignedLimit && q < |st.queues|
    ensures PushTasks(st, k).queues[q] ==
            st.queues[q] + JobsFor(st.issued, Targets(st.qindex, |st.queues|, k), q)
    decreases k
  {
    var n := |st.queues|;
    if k == 0 {
      assert st.queues[q] + [] == st.queues[q];
    } else {
      var st1 := PushTaskStep(st).0;
      PushTasksQueues(st1, k - 1, q);
      var ts := Targets(st.qindex, n, k);
      assert ts[1..] == Targets(st1.qindex, n, k - 1);
      var here: seq<Task> := if st.qindex % n == q then [Job(st.issued)] else [];
      assert st1.queues[q] == st.queues[q] + here;
      assert JobsFor(st.issued, ts, q) == here + JobsFor(st1.issued, ts[1..], q);
      assert (st.queues[q] + here) + JobsFor(st1.issued, ts[1..], q) ==
             st.queues[q] + (here + JobsFor(st1.issued, ts[1..], q));
    }
  }

  lemma {:induction false} JobsForNone(first: nat, ts: seq<nat>, q: nat)
    requires forall j :: 0 <= j < |ts| ==> ts[j] != q
    ensures JobsFor(first, ts, q) == []
    decreases |ts|
  {
    if ts != [] {
      JobsForNone(first + 1, ts[1..], q);
    }
  }

  /** A queue picked by exactly one push, push `i`, receives exactly job `first + i`. */
  lemma {:induction false} JobsForSingle(first: nat, ts: seq<nat>, q: nat, i: nat)
    requires i < |ts| && ts[i] == q
    requires forall j :: 0 <= j < |ts| && j != i ==> ts[j] != q
    ensures JobsFor(first, ts, q) == [Job(first + i)]
    decreases i
  {
    if i == 0 {
      JobsForNone(first + 1, ts[1..], q);
    } else {
      JobsForSingle(first + 1, ts[1..], q, i - 1);
    }
  }

  /** Without a wrap, no other call of n successive push_tasks picks the queue call i picks. */
  lemma TargetsDistinct(c: nat, n: nat, i: nat)
    requires c < UnsignedLimit && n >= 1 && c + n <= UnsignedLimit && i < n
    ensures forall j :: 0 <= j < n && j != i ==> Targets(c, n, n)[j] != Targets(c, n, n)[i]
  {
    RoundRobinFair(c, n);
  }

  /** Without a wrap, the call of n successive push_tasks that picks queue q. */
  lemma TargetOf(c: nat, n: nat, q: nat) returns (i: nat)
    requires c < UnsignedLimit && n >= 1 && c + n <= UnsignedLimit && q < n
    ensures i < n && Targets(c, n, n)[i] == q
  {
    RoundRobinFair(c, n);
    assert q in Targets(c, n, n);
    i :| 0 <= i < n && Targets(c, n, n)[i] == q;
  }

  /** Call i of n successive push_tasks, without a wrap, is the only one to pick its queue. */
  lemma RoundRobinPushOne(st: PoolState, i: nat)
    requires |st.queues| >= 1 && st.qindex < UnsignedLimit
    requires st.qindex + |st.queues| <= UnsignedLimit && i < |st.queues|
    ensures var n, ts := |st.queues|, Targets(st.qindex, |st.queues|, |st.queues|);
      ts[i] == (st.qindex + i) % n &&
      PushTasks(st, n).queues[ts[i]] == st.queues[ts[i]] + [Job(st.issued + i)]
  {
    var n := |st.queues|;
    var ts := Targets(st.qindex, n, n);
    var q := ts[i];
    assert q == (st.qindex + i) % n by {
      TargetsAreConsecutive(st.qindex, n, n, i);
    }
    assert JobsFor(st.issued, ts, q) == [Job(st.issued + i)] by {
      TargetsDistinct(st.qindex, n, i);
      JobsForSingle(st.issued, ts, q, i);
    }
    PushTasksQueues(st, n, q);
  }

  /** Every queue is picked by some call of n successive push_tasks without a wrap. */
  lemma RoundRobinCovers(st: PoolState, q: nat)
    requires |st.queues| >= 1 && st.qindex < UnsignedLimit
    requires st.qindex + |st.queues| <= UnsignedLimit && q < |st.queues|
    ensures |PushTasks(st, |st.queues|).queues[q]| == |st.queues[q]| + 1
  {
    var i := TargetOf(st.qindex, |st.queues|, q);
    RoundRobinPushOne(st, i);
  }

  /**
   * Round robin on the pool itself: while the counter does not wrap, `n`
   * successive calls of push_task on a pool of `n` queues add exactly one job
   * to every queue, call i putting job `issued + i` at the back of queue
   * (m_qindex + i) % n.
   */
  lemma RoundRobinPushes(st: PoolState)
    requires |st.queues| >= 1 && st.qindex < UnsignedLimit
    requires st.qindex + |st.queues| <= UnsignedLimit
    ensures var n, ts := |st.queues|, Targets(st.qindex, |st.queues|, |st.queues|);
      (forall i :: 0 <= i < n ==>
         ts[i] == (st.qindex + i) % n &&
         PushTasks(st, n).queues[ts[i]] == st.queues[ts[i]] + [Job(st.issued + i)]) &&
      (forall q :: 0 <= q < n ==> |PushTasks(st, n).queues[q]| == |st.queues[q]| + 1)
  {
    forall i | 0 <= i < |st.queues| {
      RoundRobinPushOne(st, i);
    }
    forall q | 0 <= q < |st.queues| {
      RoundRobinCovers(st, q);
    }
  }

  /**
   * Once the counter wraps, round robin breaks when 2^32 is not a multiple of
   * the thread count: with 3 threads, the two pushes around the wrap both go
   * to queue 0.
   */
  lemma RoundRobinBreaksAtWrap()
    ensures Targets(UnsignedLimit - 1, 3, 2) == [0, 0]
  {
    assert (UnsignedLimit - 1) % 3 == 0;
    assert NextIndex(UnsignedLimit - 1) == 0;
  }

  // ---------------------------------------------------------------------------
  // Every future is set at most once, and only after its job was queued

  /** How many times task `t` is queued, over all the queues. */
  function Occurrences(qs: seq<seq<Task>>, t: Task): nat
  {
    if qs == [] then 0 else multiset(qs[0])[t] + Occurrences(qs[1..], t)
  }

  /** Replacing queue `k` by `q` swaps its tasks for those of `q` in the pool. */
  lemma {:induction false} OccurrencesReplace(qs: seq<seq<Task>>, k: nat, q: seq<Task>, t: Task)
    requires k < |qs|
    ensures Occurrences(qs[k := q], t) + multiset(qs[k])[t] == Occurrences(qs, t) + multiset(q)[t]
    decreases k
  {
    if k == 0 {
      assert qs[k := q][1..] == qs[1..];
    } else {
      OccurrencesReplace(qs[1..], k - 1, q, t);
      assert qs[k := q][1..] == qs[1..][k - 1 := q];
    }
  }

  /**
   * The bookkeeping of promises: every promise set belongs to a handed-out
   * future, and each handed-out future whose promise is still unset has
   * exactly one job in the queues, while a set one has none.
   */
  ghost predicate Accounted(st: PoolState)
  {
    (forall id: nat :: id in st.fulfilled ==> id < st.issued) &&
    (forall id: nat ::
       Occurrences(st.queues, Job(id)) == if id < st.issued && id !in st.fulfilled then 1 else 0)
  }

  lemma InitialAccounted(n: nat, c: nat)
    ensures Accounted(Initial(n, c))
  {
    var qs := Initial(n, c).queues;
    forall id: nat
      ensures Occurrences(qs, Job(id)) == 0
    {
      NoJobsNoOccurrences(qs, id);
    }
  }

  /** push_task hands out a future whose promise is unset, and keeps the books. */
  lemma PushTaskKeepsAccounted(st: PoolState)
    requires |st.queues| >= 1 && st.qindex < UnsignedLimit && Accounted(st)
    ensures var (st', future) := PushTaskStep(st);
      Accounted(st') && future < st'.issued && future !in st'.fulfilled &&
      st'.fulfilled == st.fulfilled
  {
    var (st', future) := PushTaskStep(st);
    var k := st.qindex % |st.queues|;
    var q := st.queues[k] + [Job(st.issued)];
    forall id: nat
      ensures Occurrences(st'.queues, Job(id)) ==
              if id < st'.issued && id !in st'.fulfilled then 1 else 0
    {
      OccurrencesReplace(st.queues, k, q, Job(id));
      assert multiset(q)[Job(id)] == multiset(st.queues[k])[Job(id)] + multiset{Job(st.issued)}[Job(id)];
    }
  }

  lemma SentinelsUpToStep(qs: seq<seq<Task>>, i: nat)
    requires 0 < i <= |qs|
    ensures SentinelsUpTo(qs, i) == SentinelsUpTo(qs, i - 1)[i - 1 := qs[i - 1] + [Sentinel]]
  {
  }

  lemma {:induction false} SentinelsUpToAccounted(st: PoolState, i: nat)
    requires i <= |st.queues| && Accounted(st)
    ensures Accounted(st.(queues := SentinelsUpTo(st.queues, i)))
    decreases i
  {
    if i == 0 {
      assert SentinelsUpTo(st.queues, 0) == st.queues;
    } else {
      SentinelsUpToAccounted(st, i - 1);
      var before := SentinelsUpTo(st.queues, i - 1);
      var q := st.queues[i - 1] + [Sentinel];
      SentinelsUpToStep(st.queues, i);
      assert before[i - 1] == st.queues[i - 1];
      forall id: nat
        ensures Occurrences(SentinelsUpTo(st.queues, i), Job(id)) == Occurrences(before, Job(id))
      {
        OccurrencesReplace(before, i - 1, q, Job(id));
        assert multiset(q)[Job(id)] == multiset(before[i - 1])[Job(id)] + multiset{Sentinel}[Job(id)];
      }
    }
  }

  /** stop() changes no promise and queues no job. */
  lemma StopKeepsAccounted(st: PoolState)
    requires Accounted(st)
    ensures Accounted(StopStep(st)) && StopStep(st).fulfilled == st.fulfilled
  {
    SentinelsUpToAccounted(st, |st.queues|);
  }

  /** Taking the front task off queue `k`, and putting `back` behind the rest. */
  lemma TakeCount(qs: seq<seq<Task>>, k: nat, back: seq<Task>, id: nat)
    requires k < |qs| && qs[k] != [] && (back == [] || back == [Sentinel])
    ensures Occurrences(qs[k := qs[k][1..] + back], Job(id)) + (if qs[k][0] == Job(id) then 1 else 0) ==
            Occurrences(qs, Job(id))
  {
    var q := qs[k];
    OccurrencesReplace(qs, k, q[1..] + back, Job(id));
    assert q == [q[0]] + q[1..];
    assert multiset(q)[Job(id)] == multiset{q[0]}[Job(id)] + multiset(q[1..])[Job(id)];
    assert multiset(q[1..] + back)[Job(id)] == multiset(q[1..])[Job(id)] + multiset(back)[Job(id)];
  }

  /**
   * Taking a task off queue `k` (and, for an empty task from the scan,
   * putting it back) keeps the books, and a job taken is one whose promise
   * is still unset: set_value is never called twice on one promise.
   */
  lemma TakeKeepsAccounted(st: PoolState, k: nat, back: seq<Task>)
    requires k < |st.queues| && st.queues[k] != [] && Accounted(st)
    requires back == [] || back == [Sentinel] == [st.queues[k][0]]
    ensures var t := st.queues[k][0];
      (t.Job? ==> t.id < st.issued && t.id !in st.fulfilled) &&
      Accounted(Complete(st.(queues := st.queues[k := st.queues[k][1..] + back]), t).0)
  {
    var t := st.queues[k][0];
    var qs' := st.queues[k := st.queues[k][1..] + back];
    var st'' := Complete(st.(queues := qs'), t).0;
    if t.Job? {
      TakeCount(st.queues, k, back, t.id);
    }
    forall id: nat
      ensures Occurrences(qs', Job(id)) ==
              if id < st''.issued && id !in st''.fulfilled then 1 else 0
    {
      TakeCount(st.queues, k, back, id);
    }
  }

  /** A pass of threadFunc keeps the books and sets only a promise that was unset. */
  lemma ScanKeepsAccounted(st: PoolState, w: nat)
    requires w < |st.queues| && Accounted(st)
    ensures Accounted(ScanStep(st, w).0)
    ensures ScanStep(st, w).1.Fulfilled? ==>
      var id := ScanStep(st, w).1.id;
      id < st.issued && id !in st.fulfilled && ScanStep(st, w).0.fulfilled == st.fulfilled + {id}
  {
    var n := |st.queues|;
    var i := FirstNonEmpty(st.queues, w, 0);
    if i < n {
      var k := Slot(w, i, n);
      var t := st.queues[k][0];
      TakeKeepsAccounted(st, k, if t == Sentinel then [t] else []);
    }
  }

  /** A completed blocking pop keeps the books and sets only a promise that was unset. */
  lemma ResumeKeepsAccounted(st: PoolState, w: nat)
    requires w < |st.queues| && st.queues[w] != [] && Accounted(st)
    ensures Accounted(ResumeStep(st, w).0)
    ensures ResumeStep(st, w).1.Fulfilled? ==>
      var id := ResumeStep(st, w).1.id;
      id < st.issued && id !in st.fulfilled && ResumeStep(st, w).0.fulfilled == st.fulfilled + {id}
  {
    TakeKeepsAccounted(st, w, []);
    assert st.queues[w][1..] + [] == st.queues[w][1..];
  }

  // ---------------------------------------------------------------------------
  // Blocking and shutting down

  /** The scan visits every queue: a worker blocks only when all queues are empty. */
  lemma ScanBlocksOnlyWhenAllEmpty(st: PoolState, w: nat)
    requires w < |st.queues|
    ensures ScanStep(st, w).1 == Blocked <==> forall k :: 0 <= k < |st.queues| ==> st.queues[k] == []
  {
    var n := |st.queues|;
    if FirstNonEmpty(st.queues, w, 0) == n {
      forall k | 0 <= k < n
        ensures st.queues[k] == []
      {
        var j := if k >= w then k - w else k + n - w;
        assert Slot(w, j, n) == k;
      }
    }
  }

  predicate JobFree(q: seq<Task>)
  {
    forall i :: 0 <= i < |q| ==> q[i] == Sentinel
  }

  /** In every queue, no job stands behind an empty task. */
  predicate SentinelsLast(qs: seq<seq<Task>>)
  {
    forall k, i, j :: 0 <= k < |qs| && 0 <= i < j < |qs[k]| && qs[k][i] == Sentinel ==> qs[k][j] == Sentinel
  }

  /** A push_task before stop() keeps every job ahead of every empty task. */
  lemma PushTaskKeepsSentinelsLast(st: PoolState)
    requires |st.queues| >= 1 && st.qindex < UnsignedLimit
    requires SentinelsLast(st.queues) && Sentinel !in st.queues[st.qindex % |st.queues|]
    ensures SentinelsLast(PushTaskStep(st).0.queues)
  {
  }

  /** stop() queues its empty tasks behind everything already queued. */
  lemma StopKeepsSentinelsLast(st: PoolState)
    requires SentinelsLast(st.queues)
    ensures SentinelsLast(StopStep(st).queues)
    ensures forall k :: 0 <= k < |st.queues| && JobFree(st.queues[k]) ==> JobFree(StopStep(st).queues[k])
  {
  }

  /**
   * A worker leaves threadFunc only when its own queue holds no job, and no
   * pass of threadFunc ever adds a job or lets one overtake an empty task.
   */
  lemma ScanExitLeavesNoOwnJob(st: PoolState, w: nat)
    requires w < |st.queues| && SentinelsLast(st.queues)
    ensures ScanStep(st, w).1 == Exited ==> JobFree(st.queues[w])
    ensures SentinelsLast(ScanStep(st, w).0.queues)
    ensures forall k :: 0 <= k < |st.queues| && JobFree(st.queues[k]) ==> JobFree(ScanStep(st, w).0.queues[k])
  {
    var n := |st.queues|;
    var i := FirstNonEmpty(st.queues, w, 0);
    assert Slot(w, 0, n) == w;
    if i < n {
      var k := Slot(w, i, n);
      var q := st.queues[k];
      var q' := q[1..] + if q[0] == Sentinel then [q[0]] else [];
      assert forall j :: 0 <= j < |q| - 1 ==> q'[j] == q[j + 1];
    }
  }

  /** The same for a completed blocking pop. */
  lemma ResumeExitLeavesNoOwnJob(st: PoolState, w: nat)
    requires w < |st.queues| && st.queues[w] != [] && SentinelsLast(st.queues)
    ensures ResumeStep(st, w).1 == Exited ==> JobFree(st.queues[w])
    ensures SentinelsLast(ResumeStep(st, w).0.queues)
    ensures forall k :: 0 <= k < |st.queues| && JobFree(st.queues[k]) ==> JobFree(ResumeStep(st, w).0.queues[k])
  {
  }

  lemma {:induction false} NoJobsNoOccurrences(qs: seq<seq<Task>>, id: nat)
    requires forall k :: 0 <= k < |qs| ==> JobFree(qs[k])
    ensures Occurrences(qs, Job(id)) == 0
    decreases |qs|
  {
    if qs != [] {
      NoJobsNoOccurrences(qs[1..], id);
      assert Job(id) !in qs[0];
    }
  }

  /**
   * Once no queue holds a job (every worker having exited, each leaving its
   * own queue free of jobs), every future handed out has had its promise set.
   */
  lemma DrainedMeansAllFulfilled(st: PoolState)
    requires Accounted(st) && forall k :: 0 <= k < |st.queues| ==> JobFree(st.queues[k])
    ensures forall id: nat :: id < st.issued ==> id in st.fulfilled
  {
    forall id: nat | id < st.issued
      ensures id in st.fulfilled
    {
      NoJobsNoOccurrences(st.queues, id);
    }
  }
}
