/**
 * BlockedQueue<T>: a FIFO guarded by a mutex, with a condition variable that
 * wakes a waiting pop when an item arrives.  The mutex makes every operation
 * one atomic step, so the queue is modelled by its contents alone.
 */
module Queue {

  class BlockedQueue<T> {
    /** The std::queue, front first. */
    var items: seq<T>

    constructor()
      ensures items == []
    {
      items := [];
    }

    /** push: the item joins the back; the notify_one is not modelled. */
    method Push(item: T)
      modifies this
      ensures items == old(items) + [item]
    {
      items := items + [item];
    }

    /**
     * pop: the step in which a pop completes.  A pop that finds the queue
     * empty waits on the condition variable until a push makes it non-empty,
     * so by the time it takes the front there is one.
     */
    method Pop() returns (item: T)
      requires items != []
      modifies this
      ensures item == old(items)[0] && items == old(items)[1..]
    {
      item := items[0];
      items := items[1..];
    }

    /**
     * fast_pop(item): on an empty queue returns false and leaves both the
     * queue and the caller's `item` (passed in as `prev`) as they were;
     * otherwise moves the front into `item` and returns true.
     */
    method FastPop(prev: T) returns (ok: bool, item: T)
      modifies this
      ensures ok <==> old(items) != []
      ensures ok ==> item == old(items)[0] && items == old(items)[1..]
      ensures !ok ==> item == prev && items == old(items)
    {
      if items == [] {
        return false, prev;
      }
      ok, item := true, items[0];
      items := items[1..];
    }
  }

  /** One call on a queue: a push of an item, a blocking pop, or a fast_pop. */
  datatype Op<T> = PushOp(item: T) | PopOp | FastPopOp

  /** The items a run of calls pushes, in the order it pushes them. */
  function Pushed<T>(ops: seq<Op<T>>): (r: seq<T>)
    ensures |r| <= |ops|
  {
    if ops == [] then []
    else (match ops[0] case PushOp(x) => [x] case _ => []) + Pushed(ops[1..])
  }

  /**
   * Whether every blocking pop of a run, on a queue holding `q`, finds the
   * queue non-empty. A pop that finds it empty waits for a push that only
   * another thread could make, so a run of calls on one thread completes
   * exactly when this holds.
   */
  predicate Completes<T>(q: seq<T>, ops: seq<Op<T>>)
    decreases |ops|
  {
    ops == [] ||
    match ops[0]
    case PushOp(x) => Completes(q + [x], ops[1..])
    case PopOp => q != [] && Completes(q[1..], ops[1..])
    case FastPopOp => Completes(if q == [] then q else q[1..], ops[1..])
  }

  /**
   * What a run of calls does to a queue holding `q`, calling each method as
   * the class above specifies it: the items the pops and fast_pops hand out,
   * in order, and what is left in the queue.
   */
  function Run<T>(q: seq<T>, ops: seq<Op<T>>): (r: (seq<T>, seq<T>))
    requires Completes(q, ops)
    ensures |r.0| <= |ops|
    decreases |ops|
  {
    if ops == [] then ([], q)
    else match ops[0]
      case PushOp(x) => Run(q + [x], ops[1..])
      case PopOp => var (out, rest) := Run(q[1..], ops[1..]); ([q[0]] + out, rest)
      case FastPopOp =>
        if q == [] then Run(q, ops[1..])
        else var (out, rest) := Run(q[1..], ops[1..]); ([q[0]] + out, rest)
  }

  /**
   * Makes the calls `ops` on the queue `q`, in order, through its methods,
   * and collects what the pops and fast_pops hand out. `item` is the
   * caller's variable that fast_pop writes to, and `init` its first value.
   * The result is what Run says, so FifoOrder applies to the queue itself.
   */
  method Apply<T>(q: BlockedQueue<T>, ops: seq<Op<T>>, init: T) returns (out: seq<T>)
    requires Completes(q.items, ops)
    modifies q
    ensures (out, q.items) == Run(old(q.items), ops)
  {
    ghost var start := q.items;
    out := [];
    var item := init;
    var i := 0;
    assert ops[0..] == ops && [] + Run(start, ops).0 == Run(start, ops).0;
    while i < |ops|
      invariant 0 <= i <= |ops| && Completes(q.items, ops[i..])
      invariant Run(start, ops).0 == out + Run(q.items, ops[i..]).0
      invariant Run(start, ops).1 == Run(q.items, ops[i..]).1
    {
      ghost var before, rest := q.items, ops[i..];
      assert rest[0] == ops[i] && rest[1..] == ops[i + 1..];
      match ops[i] {
        case PushOp(x) =>
          q.Push(x);
        case PopOp =>
          item := q.Pop();
          assert Run(before, rest).0 == [item] + Run(q.items, ops[i + 1..]).0;
          assert out + ([item] + Run(q.items, ops[i + 1..]).0) == (out + [item]) + Run(q.items, ops[i + 1..]).0;
          out := out + [item];
        case FastPopOp =>
          var ok;
          ok, item := q.FastPop(item);
          if ok {
            assert Run(before, rest).0 == [item] + Run(q.items, ops[i + 1..]).0;
            assert out + ([item] + Run(q.items, ops[i + 1..]).0) == (out + [item]) + Run(q.items, ops[i + 1..]).0;
            out := out + [item];
          }
      }
      i := i + 1;
    }
    assert ops[i..] == [] && out + [] == out;
  }

  /**
   * First in, first out: whatever the calls, as long as every blocking pop
   * finds an item, the items handed out followed by those still queued are
   * exactly the items that were queued and then those pushed, in that order.
   * No item is lost, duplicated or overtaken.
   */
  lemma {:induction false} FifoOrder<T>(q: seq<T>, ops: seq<Op<T>>)
    requires Completes(q, ops)
    ensures Run(q, ops).0 + Run(q, ops).1 == q + Pushed(ops)
    decreases |ops|, 1
  {
    if ops != [] {
      match ops[0]
      case PushOp(x) =>
        FifoOrder(q + [x], ops[1..]);
        assert Pushed(ops) == [x] + Pushed(ops[1..]);
        assert (q + [x]) + Pushed(ops[1..]) == q + ([x] + Pushed(ops[1..]));
      case PopOp =>
        FifoOrderTake(q, ops);
      case FastPopOp =>
        if q == [] {
          assert Pushed(ops) == Pushed(ops[1..]);
          FifoOrder(q, ops[1..]);
        } else {
          FifoOrderTake(q, ops);
        }
    }
  }

  /** FifoOrder for a run that starts by taking the front of a non-empty queue. */
  lemma {:induction false} FifoOrderTake<T>(q: seq<T>, ops: seq<Op<T>>)
    requires q != [] && ops != [] && !ops[0].PushOp? && Completes(q, ops)
    ensures Run(q, ops).0 + Run(q, ops).1 == q + Pushed(ops)
    decreases |ops|, 0
  {
    assert Completes(q[1..], ops[1..]);
    FifoOrder(q[1..], ops[1..]);
    var (out, rest) := Run(q[1..], ops[1..]);
    assert Run(q, ops) == ([q[0]] + out, rest);
    assert Pushed(ops) == Pushed(ops[1..]);
    assert q == [q[0]] + q[1..];
    assert ([q[0]] + out) + rest == [q[0]] + (out + rest);
  }
}
